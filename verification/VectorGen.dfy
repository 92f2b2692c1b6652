/** The generator of random vector programs and its model of the vector unit: what every
    program it makes keeps, whatever the dice say. */
module VectorGen {
  import opened Basics
  import opened Bytes
  import opened VectorGroups
  import opened VectorMemory
  import opened VectorBits

  /** An instruction of the random phase: its kind and what the dice chose for it.  Values
      that arithmetic computes are taken as they come. */
  datatype Instr =
    | VSetting(sew: nat, lmul: nat, avl: nat)
    | Elements(rolls: seq<nat>, notV0: bool, vals: seq<Option<int>>)
    | First(r: nat, val: int)
    | MaskBits(r: nat, bits: seq<Option<bool>>)
    | Scalar(val: int)
    | Move(n: nat, d: nat, s: nat)
    | Stride(b: nat, eew: nat, k: nat, store: bool, vm: bool, rolls: seq<nat>)
    | Index(b: nat, w: nat, store: bool, vm: bool, rolls: seq<nat>, more: seq<nat>)
    | MaskMove(b: nat, r: nat, store: bool)
    | Whole(b: nat, n: nat, r: nat, store: bool)

  /** What the dice can show. */
  predicate Legal(p: Instr) {
    match p
    case VSetting(s, l, _) => Width(s) && Lmul(l) && (l < 8 ==> s * 8 <= 4 * l)
    case Elements(_, _, _) => true
    case First(r, _) => r < 32
    case MaskBits(r, _) => r < 32
    case Scalar(_) => true
    case Move(n, d, s) => GroupOk(d, n) && GroupOk(s, n)
    case Stride(b, eew, k, _, _, _) => b < 256 && Width(eew) && k <= 4
    case Index(b, w, _, _, _, _) => b < 256 && Width(w)
    case MaskMove(b, r, _) => b < 256 && r < 32
    case Whole(b, n, r, _) => b < 256 && GroupOk(r, n)
  }

  /** Nothing, or an aligned group of n registers, without v0 if so wished. */
  ghost predicate OneGroup(regs: set<nat>, n: nat, notV0: bool) {
    regs == {} || exists r: nat :: GroupOk(r, n) && (notV0 ==> r > 0) && regs == Span(r, n)
  }

  /** Nothing, or a group of m index registers, and with a load a group of n apart from it. */
  ghost predicate TwoGroups(regs: set<nat>, m: nat, n: nat, load: bool, notV0: bool) {
    regs == {} || exists x: nat, more: set<nat> ::
      GroupOk(x, m) && regs == Span(x, m) + more && (load || more == {}) && OneGroup(more, n, notV0) && more !! Span(x, m)
  }

  /** The registers that an instruction may write, with SEW and LMUL as set. */
  ghost predicate Touches(p: Instr, sew: nat, lmul: nat, regs: set<nat>)
    requires sew > 0
  {
    match p
    case VSetting(_, _, _) => regs == {}
    case Elements(_, notV0, _) => OneGroup(regs, Regs(sew, sew, lmul), notV0)
    case First(r, _) => regs <= {r}
    case MaskBits(r, _) => regs == {r}
    case Scalar(_) => regs == {}
    case Move(n, d, _) => regs == Span(d, n)
    case Stride(_, eew, _, store, vm, _) => if store then regs == {} else OneGroup(regs, Regs(eew, sew, lmul), !vm)
    case Index(_, w, store, vm, _, _) => TwoGroups(regs, Regs(w, sew, lmul), Regs(sew, sew, lmul), !store, !vm)
    case MaskMove(_, r, store) => regs == if store then {} else {r}
    case Whole(_, n, r, store) => regs == if store then {} else Span(r, n)
  }

  /** Over a run: outside the data region and the first slots nothing has changed. */
  ghost predicate RunFrame(a: seq<byte>, b: seq<byte>, slots: nat) {
    |b| >= |a| && forall k {:trigger b[k]} | 0 <= k < |a| && !(DATA <= k < INDEX) && !(OUT_S <= k < OUT_S + 4 * slots) :: b[k] == a[k]
  }

  predicate Results(p: Instr) { p.VSetting? || p.Scalar? }

  /** How many scalar results a program stores. */
  function Count(prog: seq<Instr>): nat {
    if prog == [] then 0 else Count(prog[..|prog| - 1]) + if Results(prog[|prog| - 1]) then 1 else 0
  }

  lemma FrameNone(m: seq<byte>, slots: nat)
    ensures RunFrame(m, m, slots)
  {
  }

  lemma FrameSaved(m0: seq<byte>, m: seq<byte>, saved: seq<int>, val: int)
    requires RunFrame(m0, m, |saved|) && Saved(m, saved)
    ensures RunFrame(m0, Assign(m, OUT_S + 4 * |saved|, Cut(val, 4)), |saved| + 1)
  {
    hide Cut;
  }

  lemma FrameData(m0: seq<byte>, a: seq<byte>, b: seq<byte>, slots: nat)
    requires RunFrame(m0, a, slots) && OnlyData(a, b)
    ensures RunFrame(m0, b, slots)
  {
  }

  lemma CountNone(prog: seq<Instr>)
    ensures Count(prog[..0]) == 0
  {
  }

  lemma CountNext(prog: seq<Instr>, i: nat)
    requires i < |prog|
    ensures Count(prog[..i + 1]) == Count(prog[..i]) + if Results(prog[i]) then 1 else 0
  {
    assert prog[..i + 1][..i] == prog[..i];
  }

  /** The registers at the end of the run go between the tables and the scalar results. */
  lemma RegistersOut(m0: seq<byte>, m: seq<byte>, vlenb: nat, v: seq<byte>, slots: nat, saved: seq<int>)
    requires RunFrame(m0, m, slots) && |m| >= END && Vlenb(vlenb) && |v| == 32 * vlenb && Saved(m, saved)
    ensures var m' := Assign(m, OUT_V, v);
            && |m'| == |m| >= |m0| && m'[INDEX..OUT_V] == m[INDEX..OUT_V] && Saved(m', saved) && m'[OUT_V..OUT_V + |v|] == v
            && forall k | 0 <= k < |m0| && !(DATA <= k < INDEX) && !(OUT_V <= k < OUT_V + |v|) && !(OUT_S <= k < OUT_S + 4 * slots) :: m'[k] == m0[k]
  {
    hide Assign, Cut;
    AssignInside(m, OUT_V, v);
    var m' := Assign(m, OUT_V, v);
    forall k: nat | k < |saved| ensures m'[OUT_S + 4 * k..OUT_S + 4 * k + 4] == Cut(saved[k], 4) {
      assert m'[OUT_S + 4 * k..OUT_S + 4 * k + 4] == m[OUT_S + 4 * k..OUT_S + 4 * k + 4];
    }
  }

  lemma NoGroup(m: nat, n: nat, load: bool, notV0: bool)
    ensures OneGroup({}, m, notV0) && TwoGroups({}, m, n, load, notV0)
  {
  }

  lemma SomeGroup(r: nat, n: nat, notV0: bool)
    requires GroupOk(r, n) && (notV0 ==> r > 0)
    ensures OneGroup(Span(r, n), n, notV0)
  {
  }

  lemma IndexGroups(x: nat, m: nat, more: set<nat>, n: nat, load: bool, notV0: bool)
    requires GroupOk(x, m) && (load || more == {}) && OneGroup(more, n, notV0) && more !! Span(x, m)
    ensures TwoGroups(Span(x, m) + more, m, n, load, notV0)
    ensures more == {} ==> TwoGroups(Span(x, m), m, n, load, notV0)
  {
    assert more == {} ==> Span(x, m) + more == Span(x, m);
  }

  class Gen {
    const vlenb: nat
    var v: seq<byte>
    var mem: seq<byte>
    var vl: nat
    var sew: nat
    var lmul: nat
    var slots: nat
    ghost var saved: seq<int>
    ghost var log: seq<Access>

    /** The generator with its random data and its three index tables; the dice are the
        arguments. */
    constructor (n: nat, data: seq<byte>, o1: seq<nat>, o2: seq<nat>, o4: seq<nat>)
      requires Vlenb(n) && |data| == INDEX - DATA
      requires Dice(o1, n) && Dice(o2, n) && Dice(o4, n)
      ensures vlenb == n && v == Zeros(32 * n) && |mem| == END && mem[DATA..INDEX] == data
      ensures Valid() && slots == 0 && log == []
    {
      var m := Zeros(DATA) + data + Zeros(END - INDEX);
      ghost var m0 := m;
      m := FillTable(m, n, 1, o1);
      ghost var m1 := m;
      m := FillTable(m, n, 2, o2);
      ghost var m2 := m;
      m := FillTable(m, n, 4, o4);
      assert m[DATA..INDEX] == data by {
        assert m0[DATA..INDEX] == data;
        assert m[DATA..INDEX] == m2[DATA..INDEX] == m1[DATA..INDEX] == m0[DATA..INDEX];
      }
      AllTables(m1, m2, m, n);
      vlenb, v, mem, vl, sew, lmul, slots := n, Zeros(32 * n), m, 0, 1, 8, 0;
      saved, log := [], [];
    }

    /** The tables are in order, every scalar result is in its slot, and every access so far
        was where it may be. */
    ghost predicate Valid()
      reads this
    {
      && Vlenb(vlenb) && |v| == 32 * vlenb && |mem| >= END && Width(sew) && Lmul(lmul) && vl <= Vlmax(vlenb, sew, lmul)
      && (lmul < 8 ==> sew * 8 <= 4 * lmul) && TablesOk(mem[INDEX..OUT_V], vlenb)
      && Saved(mem, saved) && |saved| == slots && LogOk(log)
    }

    /** Element i of the registers from r on. */
    function Eget(r: nat, i: nat, w: nat): nat
      reads this
      requires At(r * vlenb, w, i) + w <= |v|
    {
      Le(v[At(r * vlenb, w, i)..At(r * vlenb, w, i) + w])
    }

    method Eset(r: nat, i: nat, w: nat, val: int)
      modifies this`v
      ensures v == Assign(old(v), At(r * vlenb, w, i), Cut(val, w))
    {
      v := Assign(v, At(r * vlenb, w, i), Cut(val, w));
    }

    method Mget(a: nat, n: nat) returns (val: nat)
      requires a + n <= |mem|
      modifies this`log
      ensures val == Le(mem[a..a + n]) && log == old(log) + [Access(false, a, n)]
    {
      val := Le(mem[a..a + n]);
      log := log + [Access(false, a, n)];
    }

    method Mset(a: nat, n: nat, val: int)
      modifies this`mem, this`log
      ensures mem == Assign(old(mem), a, Cut(val, n)) && log == old(log) + [Access(true, a, n)]
    {
      mem := Assign(mem, a, Cut(val, n));
      log := log + [Access(true, a, n)];
    }

    /** One element of a store, inside the data region. */
    method StoreElement(a: nat, r: nat, i: nat, w: nat)
      requires Valid() && DATA <= a && a + w <= INDEX && At(r * vlenb, w, i) + w <= |v|
      modifies this`mem, this`log
      ensures Valid() && mem == Assign(old(mem), a, v[At(r * vlenb, w, i)..At(r * vlenb, w, i) + w])
      ensures OnlyData(old(mem), mem) && Added(old(log), log, false)
    {
      hide TablesOk, Vlmax, Assign, Saved, LogOk, Cut, Le, At, OnlyData;
      var x := v[At(r * vlenb, w, i)..At(r * vlenb, w, i) + w];
      Mset(a, w, Eget(r, i, w));
      CutLe(x);
      StoreInData(old(mem), a, x);
      DataStored(old(mem), mem, saved);
      AddedMore(old(log), log, log, false);
    }

    /** One element of a load, from the data region. */
    method LoadElement(a: nat, r: nat, i: nat, w: nat)
      requires Valid() && DATA <= a && a + w <= INDEX && At(r * vlenb, w, i) + w <= |v|
      modifies this`v, this`log
      ensures Valid() && v == Assign(old(v), At(r * vlenb, w, i), mem[a..a + w]) && Added(old(log), log, false)
    {
      hide TablesOk, Vlmax, Assign, Saved, LogOk, Cut, Le, At;
      var val := Mget(a, w);
      CutLe(mem[a..a + w]);
      AssignInside(v, At(r * vlenb, w, i), mem[a..a + w]);
      Eset(r, i, w, val);
      AddedMore(old(log), log, log, false);
    }

    /** save_scalar: scalar results go to their own region, one slot after the other. */
    method SaveScalar(val: int)
      requires Valid()
      modifies this`mem, this`slots, this`saved, this`log
      ensures Valid() && saved == old(saved) + [val] && mem == Assign(old(mem), OUT_S + 4 * old(slots), Cut(val, 4))
      ensures log == old(log) + [Access(true, OUT_S + 4 * old(slots), 4)]
    {
      hide TablesOk, Cut, Assign, Vlmax, Saved;
      AssignAfter(mem, OUT_S + 4 * slots, Cut(val, 4), INDEX, OUT_V);
      OneMoreSaved(mem, saved, val);
      Mset(OUT_S + 4 * slots, 4, val);
      slots, saved := slots + 1, saved + [val];
    }

    /** vset: any legal SEW and LMUL, and any application vector length. */
    method VSet(newSew: nat, newLmul: nat, avl: nat)
      requires Valid() && Width(newSew) && Lmul(newLmul) && (newLmul < 8 ==> newSew * 8 <= 4 * newLmul)
      modifies this
      ensures Valid() && v == old(v)
      ensures sew == newSew && lmul == newLmul && vl == if avl < Vlmax(vlenb, sew, lmul) then avl else Vlmax(vlenb, sew, lmul)
      ensures saved == old(saved) + [vl] && mem == Assign(old(mem), OUT_S + 4 * old(slots), Cut(vl, 4))
      ensures log == old(log) + [Access(true, OUT_S + 4 * old(slots), 4)]
    {
      hide TablesOk, Saved, LogOk, Assign, Cut;
      var vlmax := Vlmax(vlenb, newSew, newLmul);
      sew, lmul, vl := newSew, newLmul, if avl < vlmax then avl else vlmax;
      SaveScalar(vl);
    }

    /** New values for some elements of a group, as every arithmetic instruction, slide and
        vid.v writes them. */
    method WriteElements(r: nat, vals: seq<Option<int>>)
      requires Valid() && GroupOk(r, Regs(sew, sew, lmul)) && |vals| <= vl
      modifies this`v
      ensures Valid() && OnlyRegs(old(v), v, vlenb, r, Regs(sew, sew, lmul))
      ensures OnlyElements(old(v), v, r * vlenb, sew, set i | 0 <= i < |vals| && vals[i].Some?)
      ensures Given(v, r * vlenb, sew, vals, |vals|)
    {
      hide TablesOk, Regs, GroupOk, Vlmax, OnlyRegs, OnlyElements, Saved, LogOk, Assign, Cut, At, Lmul, Given;
      ghost var act := set i | 0 <= i < |vals| && vals[i].Some?;
      SelfEmul(sew, lmul);
      NoElements(v, r * vlenb, sew);
      NoneGiven(v, r * vlenb, sew, vals);
      BelowNext(act, 0);
      var i := 0;
      while i < |vals|
        invariant 0 <= i <= |vals| && Valid() && OnlyElements(old(v), v, r * vlenb, sew, Below(act, i))
        invariant Given(v, r * vlenb, sew, vals, i)
      {
        BelowNext(act, i);
        if vals[i].Some? {
          ghost var was := v;
          ElementInside(vlenb, sew, lmul, sew, i, r);
          AssignInside(v, At(r * vlenb, sew, i), Cut(vals[i].value, sew));
          Eset(r, i, sew, vals[i].value);
          OneMoreElement(old(v), was, v, r * vlenb, sew, Below(act, i), i);
          OneMoreGiven(was, v, r * vlenb, sew, vals, i);
        } else {
          NotGiven(v, r * vlenb, sew, vals, i);
        }
        i := i + 1;
      }
      BelowNext(act, i);
      GroupHolds(vlenb, sew, lmul, sew, act);
      ElementsInRegs(old(v), v, vlenb, r, Regs(sew, sew, lmul), sew, act);
    }

    /** Unit-stride, fault-only-first and strided loads and stores: every access lies in the
        data region; a load brings each active element from its address and leaves the
        others, a store puts the active elements to theirs. */
    method Strided(b: nat, eew: nat, k: nat, store: bool, vm: bool, r: nat)
      requires Valid() && b < 256 && Width(eew) && k <= 4 && EmulOk(eew, sew, lmul) && GroupOk(r, Regs(eew, sew, lmul))
      requires store || vm || r > 0
      modifies this`v, this`mem, this`log
      ensures Valid() && OnlyData(old(mem), mem) && Added(old(log), log, false)
      ensures var act, addrs := Active(old(v), vl, vm), Strides(b, eew, k, vl);
              if store then
                v == old(v) && Inside(v, r * vlenb, eew, act) && mem == Stores(old(mem), v, r * vlenb, eew, addrs, act, vl)
              else
                mem == old(mem) && Loaded(old(v), v, mem, r * vlenb, eew, addrs, act) && OnlyRegs(old(v), v, vlenb, r, Regs(eew, sew, lmul))
    {
      ghost var act, addrs := Active(v, vl, vm), Strides(b, eew, k, vl);
      hide TablesOk, Regs, GroupOk, Vlmax, EmulOk, OnlyRegs, Addr, Saved, LogOk, OnlyData, Added, Loaded, Inside,
           Stores, Active, IsActive, At, Assign, Width, Vlenb, Lmul;
      ghost var base := r * vlenb;
      ActiveAre(v, vl, vm);
      ActiveInside(v, vlenb, sew, lmul, eew, r, vl, vm);
      NothingYet(mem, v, base, eew, addrs, act);
      OnlyDataMore(mem, mem, mem);
      AddedMore(log, log, log, false);
      var i := 0;
      while i < vl
        invariant 0 <= i <= vl && Valid() && OnlyData(old(mem), mem) && Added(old(log), log, false)
        invariant if store then v == old(v) && mem == Stores(old(mem), v, base, eew, addrs, act, i)
                  else mem == old(mem) && Loaded(old(v), v, mem, base, eew, addrs, Below(act, i))
      {
        ghost var v1, m1, log1 := v, mem, log;
        if !store { SameMask(old(v), v, mem, vlenb, sew, lmul, eew, r, vl, vm, addrs, i); }
        ElementInside(vlenb, sew, lmul, eew, i, r);
        StrideInside(b, eew, k, i, vlenb);
        BelowNext(act, i);
        if store { StoresNext(old(mem), v, base, eew, addrs, act, i); }
        if IsActive(v, i, vm) {
          var a := Addr(b, eew, k, i);
          if store { StoreElement(a, r, i, eew); }
          else {
            LoadElement(a, r, i, eew);
            OneMoreLoad(old(v), v1, v, mem, base, eew, addrs, Below(act, i), i);
          }
          OnlyDataMore(old(mem), m1, mem);
          AddedMore(old(log), log1, log, false);
        }
        i := i + 1;
      }
      BelowNext(act, i);
      if !store { LoadedInRegs(old(v), v, mem, vlenb, sew, lmul, eew, r, vl, vm, addrs); }
    }

    /** The index registers of an indexed access, from the table of their width. */
    method LoadIndex(w: nat, r: nat)
      requires Valid() && Width(w) && EmulOk(w, sew, lmul) && GroupOk(r, Regs(w, sew, lmul))
      modifies this`v, this`log
      ensures Valid() && OnlyRegs(old(v), v, vlenb, r, Regs(w, sew, lmul)) && Added(old(log), log, true)
      ensures var n := Regs(w, sew, lmul);
              && Table(vlenb, w) + n * vlenb <= OUT_V - INDEX && v == WithTable(old(v), mem[INDEX..OUT_V], vlenb, w, r, n)
              && HoldsTable(v, mem[INDEX..OUT_V], vlenb, w, r, n)
    {
      hide TablesOk, Regs, Vlmax, EmulOk, OnlyRegs, HoldsTable, Assign, Saved, LogOk;
      var n := Regs(w, sew, lmul);
      RegsAtMost(w, sew, lmul);
      TableLoaded(v, mem[INDEX..OUT_V], vlenb, w, r, n);
      var t := INDEX + Table(vlenb, w);
      SliceSlice(mem, INDEX, OUT_V, Table(vlenb, w), Table(vlenb, w) + n * vlenb);
      v := Assign(v, r * vlenb, mem[t..t + n * vlenb]);
      log := log + [Access(false, t, n * vlenb)];
      SameLength(old(v), v, vlenb, r, n);
      AddedMore(old(log), log, log, true);
    }

    /** Indexed loads and stores: the index registers are loaded first, into a group apart
        from that of the data; the offsets in them keep every access in the data region. */
    method Indexed(b: nat, w: nat, store: bool, vm: bool, rx: nat, rd: nat)
      requires Valid() && b < 256 && Width(w) && EmulOk(w, sew, lmul)
      requires GroupOk(rx, Regs(w, sew, lmul)) && GroupOk(rd, Regs(sew, sew, lmul))
      requires rx + Regs(w, sew, lmul) <= rd || rd + Regs(sew, sew, lmul) <= rx
      requires store || vm || rd > 0
      modifies this`v, this`mem, this`log
      ensures Valid() && OnlyData(old(mem), mem) && Added(old(log), log, true)
      ensures var t, m := old(mem)[INDEX..OUT_V], Regs(w, sew, lmul);
              && Table(vlenb, w) + m * vlenb <= |t| && vl <= 8 * vlenb
              && var v1 := WithTable(old(v), t, vlenb, w, rx, m);
              && var act, addrs := Active(v1, vl, vm), Indices(t, vlenb, b, w, vl);
              && OnlyRegs(old(v), v1, vlenb, rx, m)
              && if store then
                   v == v1 && Inside(v, rd * vlenb, sew, act) && mem == Stores(old(mem), v, rd * vlenb, sew, addrs, act, vl)
                 else
                   mem == old(mem) && Loaded(v1, v, mem, rd * vlenb, sew, addrs, act) && OnlyRegs(v1, v, vlenb, rd, Regs(sew, sew, lmul))
    {
      hide TablesOk, Regs, GroupOk, Vlmax, EmulOk, OnlyRegs, Saved, LogOk, OnlyData, Added, Loaded, Inside, Stores,
           Active, IsActive, At, Assign, Vlenb, Lmul, HoldsTable, WithTable, Offset;
      SelfEmul(sew, lmul);
      VlmaxBound(vlenb, sew, lmul);
      LoadIndex(w, rx);
      ghost var t, v1, m, base := mem[INDEX..OUT_V], v, Regs(w, sew, lmul), rd * vlenb;
      ghost var act, addrs := Active(v, vl, vm), Indices(t, vlenb, b, w, vl);
      ActiveAre(v, vl, vm);
      ActiveInside(v, vlenb, sew, lmul, sew, rd, vl, vm);
      NothingYet(mem, v, base, sew, addrs, act);
      OnlyDataMore(mem, mem, mem);
      var i := 0;
      while i < vl
        invariant 0 <= i <= vl && Valid() && OnlyData(old(mem), mem) && Added(old(log), log, true)
        invariant mem[INDEX..OUT_V] == t && HoldsTable(v, t, vlenb, w, rx, m)
        invariant if store then v == v1 && mem == Stores(old(mem), v, base, sew, addrs, act, i)
                  else mem == old(mem) && Loaded(v1, v, mem, base, sew, addrs, Below(act, i))
      {
        ghost var v2, m2, log2 := v, mem, log;
        if !store { SameMask(v1, v, mem, vlenb, sew, lmul, sew, rd, vl, vm, addrs, i); }
        BelowNext(act, i);
        if store { StoresNext(old(mem), v, base, sew, addrs, act, i); }
        if IsActive(v, i, vm) {
          IndexedElement(b, w, store, i, rx, rd);
          if !store { OneMoreLoad(v1, v2, v, mem, base, sew, addrs, Below(act, i), i); }
          OnlyDataMore(old(mem), m2, mem);
          AddedMore(old(log), log2, log, true);
        }
        i := i + 1;
      }
      BelowNext(act, i);
      if !store { LoadedInRegs(v1, v, mem, vlenb, sew, lmul, sew, rd, vl, vm, addrs); }
    }

    /** One element of an indexed access: its address is inside the data region. */
    method IndexedElement(b: nat, w: nat, store: bool, i: nat, rx: nat, rd: nat)
      requires Valid() && b < 256 && Width(w) && EmulOk(w, sew, lmul) && i < vl
      requires GroupOk(rx, Regs(w, sew, lmul)) && GroupOk(rd, Regs(sew, sew, lmul))
      requires rx + Regs(w, sew, lmul) <= rd || rd + Regs(sew, sew, lmul) <= rx
      requires HoldsTable(v, mem[INDEX..OUT_V], vlenb, w, rx, Regs(w, sew, lmul))
      modifies this`v, this`mem, this`log
      ensures Valid() && OnlyData(old(mem), mem) && mem[INDEX..OUT_V] == old(mem[INDEX..OUT_V]) && Added(old(log), log, true)
      ensures HoldsTable(v, mem[INDEX..OUT_V], vlenb, w, rx, Regs(w, sew, lmul))
      ensures i < 8 * vlenb
      ensures var a, o := DATA + 4 * b + Offset(old(mem)[INDEX..OUT_V], vlenb, w, i), At(rd * vlenb, sew, i);
              && DATA <= a && a + sew <= INDEX && o + sew <= |v|
              && if store then v == old(v) && mem == Assign(old(mem), a, v[o..o + sew]) else mem == old(mem) && v == Assign(old(v), o, mem[a..a + sew])
    {
      hide TablesOk, Regs, GroupOk, Vlmax, Le, EmulOk, OnlyRegs, HoldsTable, Saved, LogOk, OnlyData, Added, At, Assign,
           Vlenb, Lmul;
      SelfEmul(sew, lmul);
      VlmaxBound(vlenb, sew, lmul);
      ElementInside(vlenb, sew, lmul, w, i, rx);
      ElementInside(vlenb, sew, lmul, sew, i, rd);
      IndexSmall(v, mem[INDEX..OUT_V], vlenb, w, i, rx, Regs(w, sew, lmul));
      OnlyDataMore(mem, mem, mem);
      var a := DATA + 4 * b + Eget(rx, i, w);
      if store {
        StoreElement(a, rd, i, sew);
        DataStored(old(mem), mem, saved);
      } else {
        var n := Regs(sew, sew, lmul);
        LoadElement(a, rd, i, sew);
        ElementInGroup(old(v), v, vlenb, rd, n, sew, i, mem[a..a + sew]);
        ApartKept(old(v), v, mem[INDEX..OUT_V], vlenb, rd, n, w, rx, Regs(w, sew, lmul));
      }
      AddedEither(old(log), log);
    }

    /** Bits of a mask register, as compares and mask logic write them. */
    method WriteMask(r: nat, bits: seq<Option<bool>>)
      requires Valid() && r < 32 && |bits| <= vl
      modifies this`v
      ensures Valid() && OnlyRegs(old(v), v, vlenb, r, 1)
      ensures MaskIs(old(v), v, r * vlenb, vlenb, bits, |bits|)
    {
      hide TablesOk, Vlmax, OnlyRegs, Saved, LogOk, MaskIs, Lmul;
      OnlyRegsSame(v, vlenb, r, 1);
      VlmaxBound(vlenb, sew, lmul);
      InGroup(r, 1, vlenb, vlenb);
      MaskNone(v, r * vlenb, vlenb, bits);
      var i := 0;
      while i < |bits|
        invariant 0 <= i <= |bits| && Valid() && OnlyRegs(old(v), v, vlenb, r, 1) && MaskIs(old(v), v, r * vlenb, vlenb, bits, i)
      {
        ghost var was := v;
        if bits[i].Some? { WriteBit(r, i, bits[i].value); }
        MaskStep(old(v), was, v, vlenb, r, bits, i);
        i := i + 1;
      }
    }

    /** bset */
    method WriteBit(r: nat, i: nat, on: bool)
      requires Valid() && r < 32 && i < 8 * vlenb
      modifies this`v
      ensures Valid() && BitWritten(old(v), v, vlenb, r, i, on)
    {
      hide TablesOk, Vlmax, Two, Saved, LogOk, Assign;
      MaskByte(r, i, vlenb);
      var o := r * vlenb + i / 8;
      var p := Two(i % 8);
      var rest := v[o] - v[o] / p % 2 * p;
      WithDigitByte(v[o], i % 8, on);
      AssignInside(v, o, [(rest + if on then p else 0) % 0x100]);
      v := Assign(v, o, [(rest + if on then p else 0) % 0x100]);
    }

    /** Element 0 of a register, as reductions and vmv.s.x write it. */
    method WriteFirst(r: nat, val: int)
      requires Valid() && r < 32
      modifies this`v
      ensures Valid() && v == Assign(old(v), r * vlenb, Cut(val, sew)) && OnlyRegs(old(v), v, vlenb, r, 1)
    {
      hide TablesOk, Vlmax, OnlyRegs, Saved, LogOk, Assign, Cut;
      Eset(r, 0, sew, val);
      ElementInGroup(old(v), v, vlenb, r, 1, sew, 0, Cut(val, sew));
    }

    /** vmvNr.v */
    method MoveRegs(n: nat, d: nat, s: nat)
      requires Valid() && GroupOk(d, n) && GroupOk(s, n)
      modifies this`v
      ensures Valid() && OnlyRegs(old(v), v, vlenb, d, n)
      ensures s * vlenb + n * vlenb <= |v| && v == Assign(old(v), d * vlenb, old(v)[s * vlenb..s * vlenb + n * vlenb])
    {
      hide TablesOk, Vlmax, OnlyRegs, Assign, Saved, LogOk;
      InGroup(s, n, n * vlenb, vlenb);
      WholeGroup(v, vlenb, d, n, v[s * vlenb..s * vlenb + n * vlenb]);
      v := Assign(v, d * vlenb, v[s * vlenb..s * vlenb + n * vlenb]);
    }

    /** Whole-register loads and stores. */
    method WholeRegs(b: nat, n: nat, r: nat, store: bool)
      requires Valid() && b < 256 && GroupOk(r, n)
      modifies this`v, this`mem, this`log
      ensures Valid() && OnlyData(old(mem), mem) && Added(old(log), log, false)
      ensures var a, o, k := DATA + 4 * b, r * vlenb, n * vlenb;
              && o + k <= |v| && a + k <= INDEX
              && if store then v == old(v) && mem == Assign(old(mem), a, v[o..o + k])
                 else mem == old(mem) && v == Assign(old(v), o, mem[a..a + k]) && OnlyRegs(old(v), v, vlenb, r, n)
    {
      hide TablesOk, Vlmax, OnlyRegs, Assign, Saved, LogOk, OnlyData;
      var base := DATA + 4 * b;
      InGroup(r, n, n * vlenb, vlenb);
      MulMono(n, 8, vlenb);
      if store {
        StoreInData(mem, base, v[r * vlenb..r * vlenb + n * vlenb]);
        mem := Assign(mem, base, v[r * vlenb..r * vlenb + n * vlenb]);
        DataStored(old(mem), mem, saved);
      } else {
        OnlyDataMore(mem, mem, mem);
        WholeGroup(v, vlenb, r, n, mem[base..base + n * vlenb]);
        v := Assign(v, r * vlenb, mem[base..base + n * vlenb]);
      }
      log := log + [Access(store, base, n * vlenb)];
      AddedMore(old(log), log, log, false);
    }

    /** vlm.v and vsm.v: as many bytes as hold vl mask bits. */
    method MaskMem(b: nat, r: nat, store: bool)
      requires Valid() && b < 256 && r < 32
      modifies this`v, this`mem, this`log
      ensures Valid() && OnlyData(old(mem), mem) && Added(old(log), log, false)
      ensures var a, o, k := DATA + 4 * b, r * vlenb, (vl + 7) / 8;
              && o + k <= |v| && a + k <= INDEX
              && if store then v == old(v) && mem == Assign(old(mem), a, v[o..o + k])
                 else mem == old(mem) && v == Assign(old(v), o, mem[a..a + k]) && OnlyRegs(old(v), v, vlenb, r, 1)
    {
      hide TablesOk, Vlmax, OnlyRegs, Saved, LogOk, OnlyData, Added, Assign;
      VlmaxBound(vlenb, sew, lmul);
      var base, n := DATA + 4 * b, (vl + 7) / 8;
      InGroup(r, 1, n, vlenb);
      AssignNothing(v, r * vlenb, mem, base);
      OnlyDataMore(mem, mem, mem);
      AddedMore(log, log, log, false);
      var i := 0;
      while i < n
        invariant 0 <= i <= n && Valid() && OnlyData(old(mem), mem) && Added(old(log), log, false)
        invariant if store then v == old(v) && mem == Assign(old(mem), base, v[r * vlenb..r * vlenb + i])
                  else mem == old(mem) && v == Assign(old(v), r * vlenb, mem[base..base + i])
      {
        ghost var m1, log1 := mem, log;
        if store {
          StoreElement(base + i, r, i, 1);
          AssignNext(old(mem), base, v, r * vlenb, i);
        } else {
          LoadElement(base + i, r, i, 1);
          AssignNext(old(v), r * vlenb, mem, base, i);
        }
        OnlyDataMore(old(mem), m1, mem);
        AddedMore(old(log), log1, log, false);
        i := i + 1;
      }
      if !store { PartOfRegister(old(v), vlenb, r, mem[base..base + n]); }
    }

    /** One instruction of the random phase: which registers it may write, what it may store
        where, and where it accesses memory. */
    method Exec(p: Instr) returns (ghost regs: set<nat>)
      requires Valid() && Legal(p)
      modifies this
      ensures Valid() && Touches(p, old(sew), old(lmul), regs) && OnlyTouched(old(v), v, vlenb, regs)
      ensures if Results(p) then
                && saved == old(saved) + [if p.Scalar? then p.val else vl]
                && mem == Assign(old(mem), OUT_S + 4 * old(slots), Cut(saved[old(slots)], 4))
                && log == old(log) + [Access(true, OUT_S + 4 * old(slots), 4)]
              else
                && saved == old(saved) && OnlyData(old(mem), mem) && Added(old(log), log, p.Index?)
    {
      hide TablesOk, Regs, Vlmax, Lmul, GroupOk, OnlyRegs, EmulOk, Saved, LogOk, OnlyData, Added, Assign, OnlyTouched,
           Loaded, Stores, Active, OnlyElements, Cut, Indices, Strides, WithTable, HoldsTable, Inside, OneGroup,
           TwoGroups;
      regs := {};
      TouchedSpan(v, v, vlenb, 0, 0);
      OnlyDataMore(mem, mem, mem);
      AddedMore(log, log, log, false);
      NoGroup(0, 0, false, false);
      match p {
        case VSetting(s, l, avl) => VSet(s, l, avl);
        case Elements(rolls, notV0, vals) => regs := ExecElements(rolls, notV0, vals);
        case First(r, val) =>
          if vl > 0 {
            WriteFirst(r, val);
            regs := Span(r, 1);
            TouchedSpan(old(v), v, vlenb, r, 1);
          }
        case MaskBits(r, bits) =>
          WriteMask(r, bits[..if vl < |bits| then vl else |bits|]);
          regs := Span(r, 1);
          TouchedSpan(old(v), v, vlenb, r, 1);
        case Scalar(val) => SaveScalar(val);
        case Move(n, d, s) =>
          MoveRegs(n, d, s);
          regs := Span(d, n);
          TouchedSpan(old(v), v, vlenb, d, n);
        case Stride(b, eew, k, store, vm, rolls) => regs := ExecStride(b, eew, k, store, vm, rolls);
        case Index(b, w, store, vm, rolls, more) => regs := ExecIndex(b, w, store, vm, rolls, more);
        case MaskMove(b, r, store) =>
          MaskMem(b, r, store);
          if !store { regs := Span(r, 1); TouchedSpan(old(v), v, vlenb, r, 1); }
        case Whole(b, n, r, store) =>
          WholeRegs(b, n, r, store);
          if !store { regs := Span(r, n); TouchedSpan(old(v), v, vlenb, r, n); }
      }
    }

    method ExecElements(rolls: seq<nat>, notV0: bool, vals: seq<Option<int>>) returns (ghost regs: set<nat>)
      requires Valid()
      modifies this`v
      ensures Valid() && OneGroup(regs, Regs(sew, sew, lmul), notV0) && OnlyTouched(old(v), v, vlenb, regs)
    {
      hide TablesOk, Regs, Vlmax, Lmul, GroupOk, OnlyRegs, EmulOk, Saved, LogOk, OnlyTouched, OnlyElements, OneGroup;
      regs := {};
      GroupSize(sew, sew, lmul);
      var n := Regs(sew, sew, lmul);
      NoGroup(n, n, notV0, notV0);
      TouchedSpan(v, v, vlenb, 0, 0);
      var r := Group(rolls, n, 0, 0, notV0);
      if r.Some? {
        WriteElements(r.value, vals[..if vl < |vals| then vl else |vals|]);
        regs := Span(r.value, n);
        SomeGroup(r.value, n, notV0);
        TouchedSpan(old(v), v, vlenb, r.value, n);
      }
    }

    method ExecStride(b: nat, eew: nat, k: nat, store: bool, vm: bool, rolls: seq<nat>) returns (ghost regs: set<nat>)
      requires Valid() && b < 256 && Width(eew) && k <= 4
      modifies this`v, this`mem, this`log
      ensures Valid() && (if store then regs == {} else OneGroup(regs, Regs(eew, sew, lmul), !vm))
      ensures OnlyTouched(old(v), v, vlenb, regs) && OnlyData(old(mem), mem) && Added(old(log), log, false)
    {
      hide TablesOk, Regs, Vlmax, Lmul, GroupOk, OnlyRegs, EmulOk, Saved, LogOk, OnlyData, Added, OnlyTouched, Loaded,
           Stores, Active, Strides, Inside, OneGroup;
      regs := {};
      OnlyDataMore(mem, mem, mem);
      AddedMore(log, log, log, false);
      TouchedSpan(v, v, vlenb, 0, 0);
      NoGroup(Regs(eew, sew, lmul), 0, !vm, !vm);
      if EmulOk(eew, sew, lmul) {
        GroupSize(eew, sew, lmul);
        var n := Regs(eew, sew, lmul);
        var r := Group(rolls, n, 0, 0, !vm && !store);
        if r.Some? {
          Strided(b, eew, k, store, vm, r.value);
          if !store {
            regs := Span(r.value, n);
            SomeGroup(r.value, n, !vm);
            TouchedSpan(old(v), v, vlenb, r.value, n);
          }
        }
      }
    }

    method ExecIndex(b: nat, w: nat, store: bool, vm: bool, rolls: seq<nat>, more: seq<nat>) returns (ghost regs: set<nat>)
      requires Valid() && b < 256 && Width(w)
      modifies this`v, this`mem, this`log
      ensures Valid() && TwoGroups(regs, Regs(w, sew, lmul), Regs(sew, sew, lmul), !store, !vm)
      ensures OnlyTouched(old(v), v, vlenb, regs) && OnlyData(old(mem), mem) && Added(old(log), log, true)
    {
      hide TablesOk, Regs, Vlmax, Lmul, GroupOk, OnlyRegs, EmulOk, Saved, LogOk, OnlyData, Added, OnlyTouched, Loaded,
           Stores, Active, Indices, WithTable, HoldsTable, Inside, OneGroup, TwoGroups;
      regs := {};
      OnlyDataMore(mem, mem, mem);
      AddedMore(log, log, log, true);
      TouchedSpan(v, v, vlenb, 0, 0);
      var m, n := Regs(w, sew, lmul), Regs(sew, sew, lmul);
      NoGroup(m, n, !store, !vm);
      NoGroup(n, n, !store, !vm);
      if EmulOk(w, sew, lmul) {
        GroupSize(w, sew, lmul);
        GroupSize(sew, sew, lmul);
        var rx := Group(rolls, m, 0, 0, false);
        if rx.Some? {
          var rd := Group(more, n, rx.value, m, !vm && !store);
          if rd.Some? {
            Indexed(b, w, store, vm, rx.value, rd.value);
            ghost var v1 := WithTable(old(v), old(mem)[INDEX..OUT_V], vlenb, w, rx.value, m);
            regs := Span(rx.value, m) + if store then {} else Span(rd.value, n);
            TouchedSpan(old(v), v1, vlenb, rx.value, m);
            TouchedSpan(v1, v, vlenb, rd.value, n);
            if store { TouchedSpan(v, v, vlenb, 0, 0); } else { SomeGroup(rd.value, n, !vm); }
            TouchedBoth(old(v), v1, v, vlenb, Span(rx.value, m), if store then {} else Span(rd.value, n));
            IndexGroups(rx.value, m, if store then {} else Span(rd.value, n), n, !store, !vm);
          } else {
            LoadIndex(w, rx.value);
            regs := Span(rx.value, m);
            TouchedSpan(old(v), v, vlenb, rx.value, m);
            IndexGroups(rx.value, m, {}, n, !store, !vm);
          }
        }
      }
    }

    /** build: all registers from the random data, the random phase, and all registers out.
        Over the whole run memory changes only in the data region, in the slots of the
        scalar results and where the registers are stored at the end. */
    method Build(first: Instr, prog: seq<Instr>)
      requires Valid() && first.VSetting? && Legal(first) && forall i | 0 <= i < |prog| :: Legal(prog[i])
      modifies this
      ensures Valid() && old(saved) <= saved && slots == old(slots) + Count([first] + prog)
      ensures mem[OUT_V..OUT_V + |v|] == v && |mem| >= |old(mem)|
      ensures forall k | 0 <= k < |old(mem)| && !(DATA <= k < INDEX) && !(OUT_V <= k < OUT_V + |v|) && !(OUT_S <= k < OUT_S + 4 * slots) ::
                mem[k] == old(mem)[k]
    {
      hide TablesOk, Vlmax, Lmul, Assign, Legal, Saved, Touches, OnlyTouched, OnlyData, RunFrame, Cut, Count, Added;
      ghost var all := [first] + prog;
      log := log + [Access(false, DATA, 32 * vlenb)];
      v := mem[DATA..DATA + 32 * vlenb];
      FrameNone(mem, slots);
      CountNone(all);
      Step(first, all, 0, old(mem), old(slots));
      var i := 0;
      while i < |prog|
        invariant 0 <= i <= |prog| && Valid() && old(saved) <= saved && slots == old(slots) + Count(all[..i + 1])
        invariant RunFrame(old(mem), mem, slots)
      {
        Step(prog[i], all, i + 1, old(mem), old(slots));
        i := i + 1;
      }
      assert all[..i + 1] == all;
      RegistersOut(old(mem), mem, vlenb, v, slots, saved);
      mem := Assign(mem, OUT_V, v);
      log := log + [Access(true, OUT_V, 32 * vlenb)];
    }

    /** Instruction i of the program. */
    method Step(p: Instr, ghost all: seq<Instr>, ghost i: nat, ghost m0: seq<byte>, ghost n0: nat)
      requires Valid() && Legal(p) && i < |all| && all[i] == p && RunFrame(m0, mem, slots) && slots == n0 + Count(all[..i])
      modifies this
      ensures Valid() && old(saved) <= saved && RunFrame(m0, mem, slots) && slots == n0 + Count(all[..i + 1])
    {
      hide TablesOk, Vlmax, Lmul, Assign, Legal, Saved, Touches, OnlyTouched, OnlyData, RunFrame, Cut, Count, Added, LogOk;
      ghost var regs := Exec(p);
      CountNext(all, i);
      if Results(p) { FrameSaved(m0, old(mem), old(saved), saved[old(slots)]); } else { FrameData(m0, old(mem), mem, slots); }
    }
  }
}
