/** Memory and register file of the vector generator's model: the index tables, what loads
    and stores of elements do, and where they may go. */
module VectorMemory {
  import opened Basics
  import opened Bytes
  import opened VectorGroups
  import opened VectorBits

  const DATA := 0x2000
  const INDEX := 0x3000
  const OUT_V := 0x4000
  const OUT_S := 0x5000
  const END := 0x6000

  /** A number as n bytes, what does not fit cut off. */
  function Cut(v: int, n: nat): (s: seq<byte>)
    ensures |s| == n
    decreases n
  {
    if n == 0 then [] else [v % 0x100] + Cut(v / 0x100, n - 1)
  }

  /** A slice assignment of a bytearray; past the end it grows. */
  function Assign(s: seq<byte>, a: nat, t: seq<byte>): seq<byte> {
    s[..if a < |s| then a else |s|] + t + s[if a + |t| < |s| then a + |t| else |s|..]
  }

  lemma AssignAfter(s: seq<byte>, a: nat, t: seq<byte>, lo: nat, hi: nat)
    requires lo <= hi <= |s| && hi <= a
    ensures |Assign(s, a, t)| >= |s| && Assign(s, a, t)[lo..hi] == s[lo..hi]
  {
  }

  /** Where the table of offsets of a width starts, behind INDEX. */
  function Table(vlenb: nat, w: nat): nat { if w == 1 then 0 else if w == 2 then 32 * vlenb else 64 * vlenb }

  /** Entry i of a table. */
  function Offset(t: seq<byte>, vlenb: nat, w: nat, i: nat): nat
    requires |t| == OUT_V - INDEX && Vlenb(vlenb) && Width(w) && i < 8 * vlenb
  {
    Le(t[Table(vlenb, w) + i * w..Table(vlenb, w) + i * w + w])
  }

  /** Every offset in the tables is below 256. */
  ghost predicate TablesOk(t: seq<byte>, vlenb: nat) {
    && |t| == OUT_V - INDEX && Vlenb(vlenb)
    && (forall w: nat, i: nat {:trigger Offset(t, vlenb, w, i)} | Width(w) && i < 8 * vlenb :: Offset(t, vlenb, w, i) < 0x100)
  }

  /** From a to b only the bytes of registers r to r + n have changed. */
  ghost predicate OnlyRegs(a: seq<byte>, b: seq<byte>, vlenb: nat, r: nat, n: nat) {
    |b| == |a| && forall k {:trigger b[k]} | 0 <= k < |b| && !(r * vlenb <= k < (r + n) * vlenb) :: b[k] == a[k]
  }

  lemma OnlyRegsSame(a: seq<byte>, vlenb: nat, r: nat, n: nat)
    ensures OnlyRegs(a, a, vlenb, r, n)
  {
  }

  lemma SameLength(a: seq<byte>, b: seq<byte>, vlenb: nat, r: nat, n: nat)
    requires OnlyRegs(a, b, vlenb, r, n)
    ensures |a| == |b|
  {
  }

  lemma OnlyRegsMore(a: seq<byte>, b: seq<byte>, c: seq<byte>, vlenb: nat, r: nat, n: nat)
    requires OnlyRegs(a, b, vlenb, r, n) && OnlyRegs(b, c, vlenb, r, n)
    ensures OnlyRegs(a, c, vlenb, r, n)
  {
  }

  /** The address of element i of a strided access. */
  function Addr(b: nat, eew: nat, k: nat, i: nat): nat { DATA + 4 * b + i * (eew * k) }

  /** Offsets in words below 64, enough for any VLMAX. */
  predicate Dice(o: seq<nat>, vlenb: nat) { |o| == 8 * vlenb && forall i | 0 <= i < |o| :: o[i] < 64 }

  lemma SmallCut(x: nat, w: nat)
    requires x < 0x100 && Width(w)
    ensures Le(Cut(x, w)) == x
  {
    var a := Cut(x, w);
    assert x / 0x100 == 0;
    assert Cut(0, 3) == [0] + Cut(0, 2) && Cut(0, 2) == [0] + Cut(0, 1) && Cut(0, 1) == [0] + Cut(0, 0);
    LeZeros(w - 1);
    assert a[1..] == Cut(0, w - 1);
  }

  lemma {:induction false} LeZeros(n: nat)
    ensures Le(Cut(0, n)) == 0
  {
    if n > 0 { LeZeros(n - 1); assert Cut(0, n)[1..] == Cut(0, n - 1); }
  }

  /** The entries of a table are below 256. */
  ghost predicate Filled(m: seq<byte>, vlenb: nat, w: nat, n: nat) {
    forall i: nat {:trigger EntryAt(m, vlenb, w, i)} | i < n :: EntryAt(m, vlenb, w, i) < 0x100
  }

  function EntryAt(m: seq<byte>, vlenb: nat, w: nat, i: nat): nat {
    var a := INDEX + Table(vlenb, w) + i * w;
    if a + w <= |m| then Le(m[a..a + w]) else 0
  }

  /** One index table, entry by entry. */
  method FillTable(m0: seq<byte>, vlenb: nat, w: nat, o: seq<nat>) returns (m: seq<byte>)
    requires |m0| == END && Vlenb(vlenb) && Width(w) && Dice(o, vlenb)
    ensures |m| == END && Filled(m, vlenb, w, 8 * vlenb)
    ensures forall k | 0 <= k < END && !(INDEX + Table(vlenb, w) <= k < INDEX + Table(vlenb, w) + 8 * vlenb * w) :: m[k] == m0[k]
  {
    hide Le, Cut;
    m := m0;
    var base := INDEX + Table(vlenb, w);
    var i := 0;
    while i < 8 * vlenb
      invariant 0 <= i <= 8 * vlenb && |m| == END && Filled(m, vlenb, w, i)
      invariant forall k | 0 <= k < END && !(base <= k < base + i * w) :: m[k] == m0[k]
    {
      ghost var was := m;
      EntryInside(vlenb, w, i);
      m := Assign(m, base + i * w, Cut(4 * o[i], w));
      OneMoreEntry(was, m, vlenb, w, i, 4 * o[i]);
      i := i + 1;
    }
  }

  lemma EntryInside(vlenb: nat, w: nat, i: nat)
    requires Vlenb(vlenb) && Width(w) && i < 8 * vlenb
    ensures i * w + w <= 8 * vlenb * w && INDEX + Table(vlenb, w) + i * w + w <= OUT_V
  {
    MulMono(i + 1, 8 * vlenb, w);
  }

  lemma OneMoreEntry(a: seq<byte>, b: seq<byte>, vlenb: nat, w: nat, i: nat, x: nat)
    requires |a| == END && Vlenb(vlenb) && Width(w) && i < 8 * vlenb && x < 0x100 && Filled(a, vlenb, w, i)
    requires b == Assign(a, INDEX + Table(vlenb, w) + i * w, Cut(x, w))
    ensures |b| == END && Filled(b, vlenb, w, i + 1)
    ensures forall k | 0 <= k < END && !(INDEX + Table(vlenb, w) + i * w <= k < INDEX + Table(vlenb, w) + i * w + w) :: b[k] == a[k]
  {
    hide Le, Cut;
    EntryInside(vlenb, w, i);
    var base := INDEX + Table(vlenb, w);
    AssignInside(a, base + i * w, Cut(x, w));
    SmallCut(x, w);
    forall j: nat {:trigger EntryAt(b, vlenb, w, j)} | j < i + 1 ensures EntryAt(b, vlenb, w, j) < 0x100 {
      if j < i {
        MulMono(j + 1, i, w);
        assert b[base + j * w..base + j * w + w] == a[base + j * w..base + j * w + w];
        assert EntryAt(b, vlenb, w, j) == EntryAt(a, vlenb, w, j);
      }
    }
  }

  /** A table is not touched by the filling of another one behind it. */
  lemma TableKept(a: seq<byte>, b: seq<byte>, vlenb: nat, w: nat, x: nat)
    requires |a| == |b| == END && Vlenb(vlenb) && Width(w) && Width(x) && w < x && Filled(a, vlenb, w, 8 * vlenb)
    requires forall k | 0 <= k < INDEX + Table(vlenb, x) :: b[k] == a[k]
    ensures Filled(b, vlenb, w, 8 * vlenb)
  {
    hide Le;
    forall j: nat {:trigger EntryAt(b, vlenb, w, j)} | j < 8 * vlenb ensures EntryAt(b, vlenb, w, j) < 0x100 {
      EntryInside(vlenb, w, j);
      var o := INDEX + Table(vlenb, w) + j * w;
      assert o + w <= INDEX + Table(vlenb, x);
      assert b[o..o + w] == a[o..o + w];
      assert EntryAt(b, vlenb, w, j) == EntryAt(a, vlenb, w, j);
    }
  }

  lemma AllTables(m1: seq<byte>, m2: seq<byte>, m: seq<byte>, vlenb: nat)
    requires |m1| == |m2| == |m| == END && Vlenb(vlenb)
    requires Filled(m1, vlenb, 1, 8 * vlenb) && Filled(m2, vlenb, 2, 8 * vlenb) && Filled(m, vlenb, 4, 8 * vlenb)
    requires forall k | 0 <= k < INDEX + Table(vlenb, 2) :: m2[k] == m1[k]
    requires forall k | 0 <= k < INDEX + Table(vlenb, 4) :: m[k] == m2[k]
    ensures TablesOk(m[INDEX..OUT_V], vlenb)
  {
    hide Le;
    TableKept(m1, m2, vlenb, 1, 2);
    TableKept(m2, m, vlenb, 1, 4);
    TableKept(m2, m, vlenb, 2, 4);
    var t := m[INDEX..OUT_V];
    forall w: nat, i: nat {:trigger Offset(t, vlenb, w, i)} | Width(w) && i < 8 * vlenb ensures Offset(t, vlenb, w, i) < 0x100 {
      EntryInside(vlenb, w, i);
      SliceSlice(m, INDEX, OUT_V, Table(vlenb, w) + i * w, Table(vlenb, w) + i * w + w);
      assert Offset(t, vlenb, w, i) == EntryAt(m, vlenb, w, i);
    }
  }

  /** From a to b only bytes of the data region have changed. */
  ghost predicate OnlyData(a: seq<byte>, b: seq<byte>) {
    |b| == |a| && forall k {:trigger b[k]} | 0 <= k < |b| && !(DATA <= k < INDEX) :: b[k] == a[k]
  }

  lemma OnlyDataMore(a: seq<byte>, b: seq<byte>, c: seq<byte>)
    ensures OnlyData(a, a)
    ensures OnlyData(a, b) && OnlyData(b, c) ==> OnlyData(a, c)
  {
  }

  /** A memory access of the program. */
  datatype Access = Access(write: bool, addr: nat, size: nat)

  predicate InData(a: Access) { DATA <= a.addr && a.addr + a.size <= INDEX }
  predicate InTables(a: Access) { !a.write && INDEX <= a.addr && a.addr + a.size <= OUT_V }
  predicate InOutput(a: Access) { a.write && OUT_V <= a.addr }

  /** Loads come from the data region or an index table, stores go to the data region or to
      the results. */
  ghost predicate LogOk(log: seq<Access>) {
    forall i | 0 <= i < |log| :: InData(log[i]) || InTables(log[i]) || InOutput(log[i])
  }

  /** What has been added lies in the data region, or is a read of the index tables. */
  ghost predicate Added(a: seq<Access>, b: seq<Access>, tables: bool) {
    a <= b && forall i | |a| <= i < |b| :: InData(b[i]) || (tables && InTables(b[i]))
  }

  lemma AddedMore(a: seq<Access>, b: seq<Access>, c: seq<Access>, tables: bool)
    ensures Added(a, a, tables)
    ensures Added(a, b, tables) && Added(b, c, tables) ==> Added(a, c, tables)
    ensures LogOk(a) && Added(a, b, tables) ==> LogOk(b)
  {
  }

  /** The scalar results stand in their slots, in order. */
  ghost predicate Saved(m: seq<byte>, saved: seq<int>) {
    OUT_S + 4 * |saved| <= |m| && forall k: nat {:trigger saved[k]} | k < |saved| :: m[OUT_S + 4 * k..OUT_S + 4 * k + 4] == Cut(saved[k], 4)
  }

  lemma DataKeeps(a: seq<byte>, b: seq<byte>, saved: seq<int>)
    requires OnlyData(a, b) && |a| >= END
    ensures b[INDEX..OUT_V] == a[INDEX..OUT_V] && (Saved(a, saved) ==> Saved(b, saved))
  {
    hide Cut;
    if Saved(a, saved) {
      forall k: nat | k < |saved| ensures b[OUT_S + 4 * k..OUT_S + 4 * k + 4] == Cut(saved[k], 4) {
        assert b[OUT_S + 4 * k..OUT_S + 4 * k + 4] == a[OUT_S + 4 * k..OUT_S + 4 * k + 4];
      }
    }
  }

  lemma StoreInData(m: seq<byte>, a: nat, t: seq<byte>)
    requires |m| >= END && DATA <= a && a + |t| <= INDEX
    ensures OnlyData(m, Assign(m, a, t))
  {
    AssignInside(m, a, t);
  }

  /** The elements that an instruction works on: below vl, and not masked off. */
  function Active(v: seq<byte>, vl: nat, vm: bool): set<nat> { set i | 0 <= i < vl && IsActive(v, i, vm) }

  /** active: unmasked, or the mask bit of v0 is set. */
  predicate IsActive(v: seq<byte>, i: nat, vm: bool) { vm || (i / 8 < |v| && MaskBit(v, 0, i)) }

  lemma AtApart(base: nat, w: nat, i: nat, j: nat)
    requires i != j
    ensures At(base, w, i) + w <= At(base, w, j) || At(base, w, j) + w <= At(base, w, i)
  {
    if i < j { MulMono(i + 1, j, w); } else { MulMono(j + 1, i, w); }
  }

  /** From a to b no byte has changed but those of the elements in `act`, w bytes each,
      from `base` on: tail and masked-off elements are undisturbed. */
  ghost predicate OnlyElements(a: seq<byte>, b: seq<byte>, base: nat, w: nat, act: set<nat>) {
    |b| == |a| && forall k {:trigger b[k]} | 0 <= k < |b| && (forall i <- act :: !(At(base, w, i) <= k < At(base, w, i) + w)) :: b[k] == a[k]
  }

  /** Element i holds what memory has at its address. */
  ghost predicate Holds(v: seq<byte>, m: seq<byte>, base: nat, w: nat, addrs: seq<nat>, i: nat) {
    && i < |addrs| && At(base, w, i) + w <= |v| && addrs[i] + w <= |m|
    && v[At(base, w, i)..At(base, w, i) + w] == m[addrs[i]..addrs[i] + w]
  }

  /** The elements in `act` have been loaded. */
  ghost predicate Loaded(a: seq<byte>, b: seq<byte>, m: seq<byte>, base: nat, w: nat, addrs: seq<nat>, act: set<nat>) {
    OnlyElements(a, b, base, w, act) && forall i <- act :: Holds(b, m, base, w, addrs, i)
  }

  /** Memory after the stores of the elements in `act` below n, one after the other. */
  ghost function Stores(m: seq<byte>, v: seq<byte>, base: nat, w: nat, addrs: seq<nat>, act: set<nat>, n: nat): seq<byte>
    requires n <= |addrs| && Inside(v, base, w, act)
  {
    if n == 0 then m else
    var before := Stores(m, v, base, w, addrs, act, n - 1);
    if n - 1 in act then Assign(before, addrs[n - 1], v[At(base, w, n - 1)..At(base, w, n - 1) + w]) else before
  }

  ghost predicate Inside(v: seq<byte>, base: nat, w: nat, act: set<nat>) { forall i <- act :: At(base, w, i) + w <= |v| }

  lemma OneMoreLoad(a: seq<byte>, b: seq<byte>, c: seq<byte>, m: seq<byte>, base: nat, w: nat, addrs: seq<nat>, act: set<nat>, i: nat)
    requires Loaded(a, b, m, base, w, addrs, act) && i !in act && i < |addrs| && addrs[i] + w <= |m| && At(base, w, i) + w <= |b|
    requires c == Assign(b, At(base, w, i), m[addrs[i]..addrs[i] + w])
    ensures Loaded(a, c, m, base, w, addrs, act + {i})
  {
    hide Assign, At;
    AssignInside(b, At(base, w, i), m[addrs[i]..addrs[i] + w]);
    forall j <- act ensures Holds(c, m, base, w, addrs, j) {
      assert Holds(b, m, base, w, addrs, j);
      AtApart(base, w, i, j);
      assert c[At(base, w, j)..At(base, w, j) + w] == b[At(base, w, j)..At(base, w, j) + w];
    }
    OneMoreElement(a, b, c, base, w, act, i);
  }

  lemma OneMoreElement(a: seq<byte>, b: seq<byte>, c: seq<byte>, base: nat, w: nat, act: set<nat>, i: nat)
    requires OnlyElements(a, b, base, w, act) && |c| == |b|
    requires forall k | 0 <= k < |c| && !(At(base, w, i) <= k < At(base, w, i) + w) :: c[k] == b[k]
    ensures OnlyElements(a, c, base, w, act + {i})
  {
    hide At;
    var more := act + {i};
    forall k | 0 <= k < |c| && (forall j <- more :: !(At(base, w, j) <= k < At(base, w, j) + w)) ensures c[k] == a[k] {
      assert i in more && forall j <- act :: j in more;
    }
  }

  /** The elements lie in the group, so only the group has changed. */
  lemma ElementsInRegs(a: seq<byte>, b: seq<byte>, vlenb: nat, r: nat, n: nat, w: nat, act: set<nat>)
    requires OnlyElements(a, b, r * vlenb, w, act) && forall i <- act :: i * w + w <= n * vlenb
    ensures OnlyRegs(a, b, vlenb, r, n)
  {
    assert (r + n) * vlenb == r * vlenb + n * vlenb;
    var base := r * vlenb;
    forall i <- act ensures base <= At(base, w, i) && At(base, w, i) + w <= base + n * vlenb {}
    hide At;
  }

  /** What was stored reads back, if no two elements share a byte of memory. */
  lemma {:induction false} StoredReadsBack(m: seq<byte>, v: seq<byte>, base: nat, w: nat, addrs: seq<nat>, act: set<nat>, n: nat, i: nat)
    requires n <= |addrs| && Inside(v, base, w, act) && i < n && i in act
    requires forall j | 0 <= j < n :: addrs[j] + w <= |m|
    requires forall j | 0 <= j < n && j != i :: addrs[i] + w <= addrs[j] || addrs[j] + w <= addrs[i]
    ensures Holds(v, Stores(m, v, base, w, addrs, act, n), base, w, addrs, i)
  {
    hide At, Assign;
    StoresLength(m, v, base, w, addrs, act, n - 1);
    var before, after := Stores(m, v, base, w, addrs, act, n - 1), Stores(m, v, base, w, addrs, act, n);
    if n - 1 in act { AssignInside(before, addrs[n - 1], v[At(base, w, n - 1)..At(base, w, n - 1) + w]); }
    if i < n - 1 {
      StoredReadsBack(m, v, base, w, addrs, act, n - 1, i);
      assert after[addrs[i]..addrs[i] + w] == before[addrs[i]..addrs[i] + w];
    }
  }

  lemma {:induction false} StoresLength(m: seq<byte>, v: seq<byte>, base: nat, w: nat, addrs: seq<nat>, act: set<nat>, n: nat)
    requires n <= |addrs| && Inside(v, base, w, act) && forall j | 0 <= j < n :: addrs[j] + w <= |m|
    ensures |Stores(m, v, base, w, addrs, act, n)| == |m|
  {
    hide At, Assign;
    if n > 0 {
      StoresLength(m, v, base, w, addrs, act, n - 1);
      if n - 1 in act {
        AssignInside(Stores(m, v, base, w, addrs, act, n - 1), addrs[n - 1], v[At(base, w, n - 1)..At(base, w, n - 1) + w]);
      }
    }
  }

  /** A group without v0 leaves the mask as it was. */
  lemma MaskKept(a: seq<byte>, b: seq<byte>, vlenb: nat, r: nat, n: nat, vm: bool, i: nat)
    requires OnlyRegs(a, b, vlenb, r, n) && (vm || r > 0) && |a| == 32 * vlenb && i < 8 * vlenb
    ensures IsActive(b, i, vm) == IsActive(a, i, vm)
  {
    if !vm { MulMono(1, r, vlenb); assert b[i / 8] == a[i / 8]; }
  }

  function Below(act: set<nat>, n: nat): set<nat> { set i | i in act && i < n }

  lemma BelowNext(act: set<nat>, n: nat)
    ensures Below(act, n + 1) == if n in act then Below(act, n) + {n} else Below(act, n)
    ensures Below(act, 0) == {} && n !in Below(act, n)
    ensures (forall i <- act :: i < n) ==> Below(act, n) == act
  {
  }

  lemma NothingLoaded(a: seq<byte>, m: seq<byte>, base: nat, w: nat, addrs: seq<nat>)
    ensures Loaded(a, a, m, base, w, addrs, {})
  {
  }

  lemma {:induction false} CutLe(s: seq<byte>)
    ensures Cut(Le(s), |s|) == s
  {
    if s != [] {
      CutLe(s[1..]);
      assert Le(s) % 0x100 == s[0] && Le(s) / 0x100 == Le(s[1..]);
    }
  }

  /** The addresses of a strided access. */
  function Strides(b: nat, eew: nat, k: nat, vl: nat): (addrs: seq<nat>)
    ensures |addrs| == vl && forall i | 0 <= i < vl :: addrs[i] == Addr(b, eew, k, i)
  {
    seq(vl, i requires 0 <= i < vl => Addr(b, eew, k, i))
  }

  /** The addresses of an indexed access: offsets from the table of width w. */
  function Indices(t: seq<byte>, vlenb: nat, b: nat, w: nat, vl: nat): (addrs: seq<nat>)
    requires |t| == OUT_V - INDEX && Vlenb(vlenb) && Width(w) && vl <= 8 * vlenb
    ensures |addrs| == vl && forall i | 0 <= i < vl :: addrs[i] == DATA + 4 * b + Offset(t, vlenb, w, i)
  {
    seq(vl, i requires 0 <= i < vl => DATA + 4 * b + Offset(t, vlenb, w, i))
  }

  /** The register file with the start of a table in n registers at r. */
  function WithTable(v: seq<byte>, t: seq<byte>, vlenb: nat, w: nat, r: nat, n: nat): seq<byte>
    requires Table(vlenb, w) + n * vlenb <= |t|
  {
    Assign(v, r * vlenb, t[Table(vlenb, w)..Table(vlenb, w) + n * vlenb])
  }

  function Span(r: nat, n: nat): (regs: set<nat>)
    ensures forall x :: x in regs <==> r <= x < r + n
  {
    if n == 0 then {} else Span(r, n - 1) + {r + n - 1}
  }

  function Reg(v: seq<byte>, vlenb: nat, x: nat): seq<byte>
    requires x * vlenb + vlenb <= |v|
  {
    v[x * vlenb..x * vlenb + vlenb]
  }

  ghost predicate OnlyTouched(a: seq<byte>, b: seq<byte>, vlenb: nat, regs: set<nat>) {
    |a| == |b| && forall x: nat {:trigger x in regs} | x * vlenb + vlenb <= |a| && x !in regs :: Reg(b, vlenb, x) == Reg(a, vlenb, x)
  }

  lemma RegKept(a: seq<byte>, b: seq<byte>, vlenb: nat, r: nat, n: nat, x: nat)
    requires OnlyRegs(a, b, vlenb, r, n) && x * vlenb + vlenb <= |a| && (x < r || r + n <= x)
    ensures Reg(b, vlenb, x) == Reg(a, vlenb, x)
  {
    var o := x * vlenb;
    assert o + vlenb <= r * vlenb || (r + n) * vlenb <= o by {
      if x < r { MulMono(x + 1, r, vlenb); assert (x + 1) * vlenb == o + vlenb; } else { MulMono(r + n, x, vlenb); }
    }
    forall k | o <= k < o + vlenb ensures b[k] == a[k] {}
  }

  lemma TouchedSpan(a: seq<byte>, b: seq<byte>, vlenb: nat, r: nat, n: nat)
    ensures OnlyRegs(a, b, vlenb, r, n) ==> OnlyTouched(a, b, vlenb, Span(r, n))
    ensures OnlyTouched(a, a, vlenb, {})
  {
    if OnlyRegs(a, b, vlenb, r, n) {
      forall x: nat | x * vlenb + vlenb <= |a| && x !in Span(r, n) ensures Reg(b, vlenb, x) == Reg(a, vlenb, x) {
        RegKept(a, b, vlenb, r, n, x);
      }
    }
  }

  lemma TouchedBoth(a: seq<byte>, b: seq<byte>, c: seq<byte>, vlenb: nat, x: set<nat>, y: set<nat>)
    requires OnlyTouched(a, b, vlenb, x) && OnlyTouched(b, c, vlenb, y)
    ensures OnlyTouched(a, c, vlenb, x + y)
  {
    hide Reg;
  }

  /** A store or load of one element changes its group only. */
  lemma ElementInGroup(a: seq<byte>, b: seq<byte>, vlenb: nat, r: nat, n: nat, w: nat, i: nat, x: seq<byte>)
    requires |a| == 32 * vlenb && GroupOk(r, n) && |x| == w && i * w + w <= n * vlenb && b == Assign(a, At(r * vlenb, w, i), x)
    ensures |b| == |a| && OnlyRegs(a, b, vlenb, r, n)
  {
    hide Assign;
    InGroup(r, n, i * w + w, vlenb);
    AssignInside(a, At(r * vlenb, w, i), x);
  }

  lemma AddedEither(a: seq<Access>, b: seq<Access>)
    ensures Added(a, b, false) ==> Added(a, b, true)
  {
  }

  lemma AssignNothing(v: seq<byte>, o: nat, m: seq<byte>, a: nat)
    requires o <= |v| && a <= |m|
    ensures Assign(v, o, m[a..a]) == v && Assign(m, a, v[o..o]) == m
  {
    assert m[a..a] == [] && v[o..o] == [];
  }

  /** Byte after byte is all at once. */
  lemma AssignNext(s: seq<byte>, a: nat, t: seq<byte>, o: nat, i: nat)
    requires a + i < |s| && o + i < |t|
    ensures Assign(Assign(s, a, t[o..o + i]), a + i, t[o + i..o + i + 1]) == Assign(s, a, t[o..o + i + 1])
  {
  }

  lemma PartOfRegister(v: seq<byte>, vlenb: nat, r: nat, t: seq<byte>)
    requires |v| == 32 * vlenb && r < 32 && |t| <= vlenb
    ensures OnlyRegs(v, Assign(v, r * vlenb, t), vlenb, r, 1)
  {
    hide Assign;
    InGroup(r, 1, |t|, vlenb);
    AssignInside(v, r * vlenb, t);
  }

  lemma ActiveAre(v: seq<byte>, vl: nat, vm: bool)
    ensures forall i: nat {:trigger IsActive(v, i, vm)} | i < vl :: i in Active(v, vl, vm) <==> IsActive(v, i, vm)
    ensures forall i <- Active(v, vl, vm) :: i < vl
  {
  }

  lemma ActiveInside(v: seq<byte>, vlenb: nat, sew: nat, lmul: nat, eew: nat, r: nat, vl: nat, vm: bool)
    requires Vlenb(vlenb) && Width(sew) && Width(eew) && Lmul(lmul) && EmulOk(eew, sew, lmul) && vl <= Vlmax(vlenb, sew, lmul)
    requires GroupOk(r, Regs(eew, sew, lmul)) && |v| == 32 * vlenb
    ensures Inside(v, r * vlenb, eew, Active(v, vl, vm))
  {
    hide Vlenb, Lmul, EmulOk, Vlmax, Regs, At, GroupOk;
    forall i <- Active(v, vl, vm) ensures At(r * vlenb, eew, i) + eew <= |v| { ElementInside(vlenb, sew, lmul, eew, i, r); }
  }

  lemma NothingYet(m: seq<byte>, v: seq<byte>, base: nat, w: nat, addrs: seq<nat>, act: set<nat>)
    requires Inside(v, base, w, act)
    ensures Stores(m, v, base, w, addrs, act, 0) == m && Loaded(v, v, m, base, w, addrs, Below(act, 0))
  {
    BelowNext(act, 0);
    NothingLoaded(v, m, base, w, addrs);
  }

  lemma StoresNext(m: seq<byte>, v: seq<byte>, base: nat, w: nat, addrs: seq<nat>, act: set<nat>, n: nat)
    requires n < |addrs| && Inside(v, base, w, act)
    ensures var before, after := Stores(m, v, base, w, addrs, act, n), Stores(m, v, base, w, addrs, act, n + 1);
            if n in act then At(base, w, n) + w <= |v| && after == Assign(before, addrs[n], v[At(base, w, n)..At(base, w, n) + w]) else after == before
  {
    hide Assign, At;
  }

  /** A masked load leaves the mask alone. */
  lemma SameMask(a: seq<byte>, b: seq<byte>, m: seq<byte>, vlenb: nat, sew: nat, lmul: nat, eew: nat, r: nat, vl: nat, vm: bool, addrs: seq<nat>, i: nat)
    requires Vlenb(vlenb) && Width(sew) && Width(eew) && Lmul(lmul) && EmulOk(eew, sew, lmul) && vl <= Vlmax(vlenb, sew, lmul)
    requires |a| == 32 * vlenb && (vm || r > 0) && i < vl
    requires Loaded(a, b, m, r * vlenb, eew, addrs, Below(Active(a, vl, vm), i))
    ensures IsActive(b, i, vm) <==> IsActive(a, i, vm)
  {
    var act := Below(Active(a, vl, vm), i);
    hide Vlenb, Lmul, EmulOk, Vlmax, Regs, At, GroupOk, IsActive;
    VlmaxBound(vlenb, sew, lmul);
    GroupHolds(vlenb, sew, lmul, eew, act);
    ElementsInRegs(a, b, vlenb, r, Regs(eew, sew, lmul), eew, act);
    MaskKept(a, b, vlenb, r, Regs(eew, sew, lmul), vm, i);
  }

  lemma LoadedInRegs(a: seq<byte>, b: seq<byte>, m: seq<byte>, vlenb: nat, sew: nat, lmul: nat, eew: nat, r: nat, vl: nat, vm: bool, addrs: seq<nat>)
    requires Vlenb(vlenb) && Width(sew) && Width(eew) && Lmul(lmul) && EmulOk(eew, sew, lmul) && vl <= Vlmax(vlenb, sew, lmul)
    requires Loaded(a, b, m, r * vlenb, eew, addrs, Active(a, vl, vm))
    ensures OnlyRegs(a, b, vlenb, r, Regs(eew, sew, lmul))
  {
    var act := Active(a, vl, vm);
    hide Vlenb, Lmul, EmulOk, Vlmax, Regs, At, GroupOk, IsActive;
    GroupHolds(vlenb, sew, lmul, eew, act);
    ElementsInRegs(a, b, vlenb, r, Regs(eew, sew, lmul), eew, act);
  }

  lemma DataStored(a: seq<byte>, b: seq<byte>, saved: seq<int>)
    requires OnlyData(a, b) && |a| >= END
    ensures |b| == |a| && b[INDEX..OUT_V] == a[INDEX..OUT_V] && (Saved(a, saved) ==> Saved(b, saved))
  {
    DataKeeps(a, b, saved);
  }

  lemma OneMoreSaved(m: seq<byte>, saved: seq<int>, val: int)
    requires |m| >= END && Saved(m, saved)
    ensures var m' := Assign(m, OUT_S + 4 * |saved|, Cut(val, 4)); |m'| >= |m| && Saved(m', saved + [val])
  {
    hide Cut;
    var m', more := Assign(m, OUT_S + 4 * |saved|, Cut(val, 4)), saved + [val];
    forall k: nat | k < |more| ensures m'[OUT_S + 4 * k..OUT_S + 4 * k + 4] == Cut(more[k], 4) {
      if k < |saved| { assert m'[OUT_S + 4 * k..OUT_S + 4 * k + 4] == m[OUT_S + 4 * k..OUT_S + 4 * k + 4]; }
    }
  }

  lemma NoElements(v: seq<byte>, base: nat, w: nat)
    ensures OnlyElements(v, v, base, w, {})
  {
  }

  lemma OneByte(a: seq<byte>, b: seq<byte>, vlenb: nat, r: nat, o: nat)
    requires r * vlenb <= o < (r + 1) * vlenb && |a| == |b| && forall k | 0 <= k < |a| && k != o :: b[k] == a[k]
    ensures OnlyRegs(a, b, vlenb, r, 1)
  {
  }

  lemma WholeGroup(v: seq<byte>, vlenb: nat, r: nat, n: nat, t: seq<byte>)
    requires |v| == 32 * vlenb && GroupOk(r, n) && |t| == n * vlenb
    ensures |Assign(v, r * vlenb, t)| == |v| && OnlyRegs(v, Assign(v, r * vlenb, t), vlenb, r, n)
  {
    hide Assign;
    InGroup(r, n, n * vlenb, vlenb);
    AssignInside(v, r * vlenb, t);
    assert (r + n) * vlenb == r * vlenb + n * vlenb;
  }

  lemma TableFits(vlenb: nat, w: nat, n: nat)
    requires Vlenb(vlenb) && n <= 8
    ensures Table(vlenb, w) + n * vlenb <= OUT_V - INDEX
  {
    MulMono(n, 8, vlenb);
  }

  lemma AssignInside(s: seq<byte>, a: nat, t: seq<byte>)
    requires a + |t| <= |s|
    ensures Assign(s, a, t)[a..a + |t|] == t && |Assign(s, a, t)| == |s|
    ensures forall k | 0 <= k < |s| && !(a <= k < a + |t|) :: Assign(s, a, t)[k] == s[k]
  {
  }

  /** Registers r to r + n of v hold the start of the table of width w. */
  ghost predicate HoldsTable(v: seq<byte>, t: seq<byte>, vlenb: nat, w: nat, r: nat, n: nat) {
    && r * vlenb + n * vlenb <= |v| && Table(vlenb, w) + n * vlenb <= |t|
    && v[r * vlenb..r * vlenb + n * vlenb] == t[Table(vlenb, w)..Table(vlenb, w) + n * vlenb]
  }

  lemma TableLoaded(v: seq<byte>, t: seq<byte>, vlenb: nat, w: nat, r: nat, n: nat)
    requires Vlenb(vlenb) && |t| == OUT_V - INDEX && |v| == 32 * vlenb && GroupOk(r, n)
    ensures Table(vlenb, w) + n * vlenb <= |t|
    ensures var u := Assign(v, r * vlenb, t[Table(vlenb, w)..Table(vlenb, w) + n * vlenb]);
            HoldsTable(u, t, vlenb, w, r, n) && OnlyRegs(v, u, vlenb, r, n)
  {
    hide Assign;
    InGroup(r, n, n * vlenb, vlenb);
    TableFits(vlenb, w, n);
    AssignInside(v, r * vlenb, t[Table(vlenb, w)..Table(vlenb, w) + n * vlenb]);
    assert (r + n) * vlenb == r * vlenb + n * vlenb;
  }

  /** Element i of two stretches of n bytes that are the same. */
  lemma SameElement(v: seq<byte>, a: nat, t: seq<byte>, o: nat, n: nat, x: nat, y: nat)
    requires a + n <= |v| && o + n <= |t| && x <= y <= n && v[a..a + n] == t[o..o + n]
    ensures v[a + x..a + y] == t[o + x..o + y]
  {
    SliceSlice(v, a, a + n, x, y);
    SliceSlice(t, o, o + n, x, y);
  }

  /** An index read from its registers is the offset in the table, and below 256. */
  lemma IndexSmall(v: seq<byte>, t: seq<byte>, vlenb: nat, w: nat, i: nat, r: nat, n: nat)
    requires TablesOk(t, vlenb) && Width(w) && i * w + w <= n * vlenb <= 8 * vlenb && HoldsTable(v, t, vlenb, w, r, n)
    ensures i < 8 * vlenb && At(r * vlenb, w, i) + w <= |v|
    ensures Le(v[At(r * vlenb, w, i)..At(r * vlenb, w, i) + w]) == Offset(t, vlenb, w, i) < 0x100
  {
    hide Le, Width, Vlenb;
    FewElements(i, w, n * vlenb);
    SameElement(v, r * vlenb, t, Table(vlenb, w), n * vlenb, i * w, i * w + w);
  }

  lemma ApartKept(a: seq<byte>, b: seq<byte>, t: seq<byte>, vlenb: nat, r: nat, n: nat, w: nat, x: nat, m: nat)
    requires OnlyRegs(a, b, vlenb, r, n) && HoldsTable(a, t, vlenb, w, x, m) && (x + m <= r || r + n <= x)
    ensures HoldsTable(b, t, vlenb, w, x, m)
  {
    if x + m <= r { MulMono(x + m, r, vlenb); } else { MulMono(r + n, x, vlenb); }
    assert (x + m) * vlenb == x * vlenb + m * vlenb;
    assert b[x * vlenb..x * vlenb + m * vlenb] == a[x * vlenb..x * vlenb + m * vlenb];
  }

  lemma StrideInside(b: nat, eew: nat, k: nat, i: nat, vlenb: nat)
    requires b < 256 && Width(eew) && k <= 4 && i * eew + eew <= 8 * vlenb && Vlenb(vlenb)
    ensures DATA <= Addr(b, eew, k, i) && Addr(b, eew, k, i) + eew <= INDEX
  {
    MulMono(k, 4, i * eew);
    assert i * (eew * k) == k * (i * eew);
  }

  lemma StridesApart(b: nat, eew: nat, k: nat, i: nat, j: nat)
    requires k >= 1 && i != j
    ensures Addr(b, eew, k, i) + eew <= Addr(b, eew, k, j) || Addr(b, eew, k, j) + eew <= Addr(b, eew, k, i)
  {
    AtApart(DATA + 4 * b, eew * k, i, j);
    MulMono(1, k, eew);
  }

  /** A strided store followed by the same load changes no register. */
  lemma StoreThenLoad(m: seq<byte>, v: seq<byte>, u: seq<byte>, base: nat, b: nat, eew: nat, k: nat, vl: nat, act: set<nat>)
    requires k >= 1 && Inside(v, base, eew, act) && (forall i <- act :: i < vl) && forall i | 0 <= i < vl :: Addr(b, eew, k, i) + eew <= |m|
    requires Loaded(v, u, Stores(m, v, base, eew, Strides(b, eew, k, vl), act, vl), base, eew, Strides(b, eew, k, vl), act)
    ensures u == v
  {
    hide Addr, At, Stores;
    var addrs := Strides(b, eew, k, vl);
    var m' := Stores(m, v, base, eew, addrs, act, vl);
    forall i <- act ensures u[At(base, eew, i)..At(base, eew, i) + eew] == v[At(base, eew, i)..At(base, eew, i) + eew] {
      forall j | 0 <= j < vl && j != i ensures addrs[i] + eew <= addrs[j] || addrs[j] + eew <= addrs[i] { StridesApart(b, eew, k, i, j); }
      StoredReadsBack(m, v, base, eew, addrs, act, vl, i);
      assert Holds(u, m', base, eew, addrs, i);
    }
    forall n | 0 <= n < |u| ensures u[n] == v[n] {
      if i :| i in act && At(base, eew, i) <= n < At(base, eew, i) + eew {
        assert u[n] == u[At(base, eew, i)..At(base, eew, i) + eew][n - At(base, eew, i)];
      }
    }
  }

  // ---- what is written ----

  /** The first n of the given values are in their elements. */
  ghost predicate Given(v: seq<byte>, base: nat, w: nat, vals: seq<Option<int>>, n: nat) {
    forall i: nat {:trigger vals[i]} | i < n && i < |vals| && vals[i].Some? ::
      At(base, w, i) + w <= |v| && v[At(base, w, i)..At(base, w, i) + w] == Cut(vals[i].value, w)
  }

  lemma NoneGiven(v: seq<byte>, base: nat, w: nat, vals: seq<Option<int>>)
    ensures Given(v, base, w, vals, 0)
  {
  }

  lemma NotGiven(v: seq<byte>, base: nat, w: nat, vals: seq<Option<int>>, n: nat)
    requires Given(v, base, w, vals, n) && n < |vals| && vals[n].None?
    ensures Given(v, base, w, vals, n + 1)
  {
    hide At, Cut;
  }

  lemma OneMoreGiven(b: seq<byte>, c: seq<byte>, base: nat, w: nat, vals: seq<Option<int>>, n: nat)
    requires Given(b, base, w, vals, n) && n < |vals| && vals[n].Some? && At(base, w, n) + w <= |b|
    requires c == Assign(b, At(base, w, n), Cut(vals[n].value, w))
    ensures Given(c, base, w, vals, n + 1)
  {
    hide Assign, At, Cut;
    AssignInside(b, At(base, w, n), Cut(vals[n].value, w));
    forall i: nat {:trigger vals[i]} | i < n && vals[i].Some?
      ensures At(base, w, i) + w <= |c| && c[At(base, w, i)..At(base, w, i) + w] == Cut(vals[i].value, w)
    {
      AtApart(base, w, i, n);
      assert c[At(base, w, i)..At(base, w, i) + w] == b[At(base, w, i)..At(base, w, i) + w];
    }
  }

  /** From a to b the first n bits have been written to the mask at o, where one is given, and
      the others are as before. */
  ghost predicate MaskIs(a: seq<byte>, b: seq<byte>, o: nat, size: nat, bits: seq<Option<bool>>, n: nat) {
    && o + size <= |a| == |b|
    && forall i: nat {:trigger MaskBit(b, o, i)} | i < 8 * size ::
         MaskBit(b, o, i) == if i < n && i < |bits| && bits[i].Some? then bits[i].value else MaskBit(a, o, i)
  }

  lemma MaskNone(a: seq<byte>, o: nat, size: nat, bits: seq<Option<bool>>)
    requires o + size <= |a|
    ensures MaskIs(a, a, o, size, bits, 0)
  {
  }

  /** One more bit: where none is given nothing changes, else the byte with that bit written. */
  lemma MaskMore(a: seq<byte>, b: seq<byte>, c: seq<byte>, o: nat, size: nat, bits: seq<Option<bool>>, n: nat, x: byte)
    requires MaskIs(a, b, o, size, bits, n) && n < |bits| && n < 8 * size
    requires if bits[n].None? then c == b else x == WithDigit(b[o + n / 8], n % 8, bits[n].value) && c == Assign(b, o + n / 8, [x])
    ensures MaskIs(a, c, o, size, bits, n + 1)
  {
    hide Assign, WithDigit, Digit;
    if bits[n].Some? {
      AssignInside(b, o + n / 8, [x]);
      assert c[o + n / 8] == c[o + n / 8..o + n / 8 + 1][0] == x;
      forall i: nat | i < 8 * size ensures MaskBit(c, o, i) == if i == n then bits[n].value else MaskBit(b, o, i) {
        if i / 8 == n / 8 { WithDigitMeans(b[o + n / 8], n % 8, bits[n].value, i % 8); }
      }
    }
    forall i: nat | i < 8 * size
      ensures MaskBit(c, o, i) == if i < n + 1 && i < |bits| && bits[i].Some? then bits[i].value else MaskBit(a, o, i)
    {
      assert MaskBit(b, o, i) == if i < n && i < |bits| && bits[i].Some? then bits[i].value else MaskBit(a, o, i);
    }
  }

  /** From a to b one bit of mask register r has been written. */
  ghost predicate BitWritten(a: seq<byte>, b: seq<byte>, vlenb: nat, r: nat, i: nat, on: bool) {
    && |a| == |b| && r * vlenb + i / 8 < |a|
    && b[r * vlenb + i / 8] == WithDigit(a[r * vlenb + i / 8], i % 8, on)
    && b == Assign(a, r * vlenb + i / 8, [b[r * vlenb + i / 8]])
  }

  lemma MaskStep(a: seq<byte>, b: seq<byte>, c: seq<byte>, vlenb: nat, r: nat, bits: seq<Option<bool>>, n: nat)
    requires r < 32 && MaskIs(a, b, r * vlenb, vlenb, bits, n) && OnlyRegs(a, b, vlenb, r, 1) && n < |bits| && n < 8 * vlenb
    requires if bits[n].None? then c == b else BitWritten(b, c, vlenb, r, n, bits[n].value)
    ensures MaskIs(a, c, r * vlenb, vlenb, bits, n + 1) && OnlyRegs(a, c, vlenb, r, 1)
  {
    hide Assign, WithDigit, MaskIs, OnlyRegs;
    if bits[n].None? { MaskMore(a, b, c, r * vlenb, vlenb, bits, n, 0); } else {
      MaskByte(r, n, vlenb);
      var o := r * vlenb + n / 8;
      MaskMore(a, b, c, r * vlenb, vlenb, bits, n, c[o]);
      AssignInside(b, o, [c[o]]);
      OneByte(b, c, vlenb, r, o);
      OnlyRegsMore(a, b, c, vlenb, r, 1);
    }
  }
}
