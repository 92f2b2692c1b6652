/** Setting a property: resized in place, or a new first property of its node. */
module FdtSetProp {
  import opened Basics
  import opened Bytes
  import opened FdtTokens
  import opened FdtTree
  import opened FdtWalk
  import opened FdtQuery
  import opened FdtEdit

  // ---- the bytes of a property ----

  lemma EncProp(nameoff: word, val: seq<byte>)
    requires |val| < LIMIT
    ensures Enc(Prop(nameoff, val)) == BeBytes(FDT_PROP) + BeBytes(|val|) + BeBytes(nameoff) + Padded(val)
    ensures |Enc(Prop(nameoff, val))| == 12 + Align4(|val|)
  {
    hide BeBytes;
    CellsShift(8, |val|);
    var h := BeBytes(|val|) + BeBytes(nameoff);
    assert Body(Prop(nameoff, val)) == h + val;
    assert Padded(h + val) == h + Padded(val);
  }

  /** The value and its length into a property at p, padded with zeros. */
  method FillProp(a: array<byte>, p: nat, val: seq<byte>)
    requires |val| < LIMIT && p + 12 + Align4(|val|) <= a.Length
    modifies a
    ensures a[p + 4..p + 8] == BeBytes(|val|) && a[p + 12..p + 12 + Align4(|val|)] == Padded(val)
    ensures forall k | 0 <= k < a.Length && !(p + 4 <= k < p + 8) && !(p + 12 <= k < p + 12 + Align4(|val|)) :: a[k] == old(a[k])
  {
    hide BeBytes, Align4;
    PutBe(a, p + 4, |val|);
    ghost var b := a[..];
    var i := 0;
    var pad := Padded(val);
    while i < Align4(|val|)
      invariant 0 <= i <= Align4(|val|)
      invariant forall k | 0 <= k < a.Length :: a[k] == if p + 12 <= k < p + 12 + i then pad[k - (p + 12)] else b[k]
    {
      a[p + 12 + i] := if i < |val| then val[i] else 0;
      i := i + 1;
    }
    assert a[p + 4..p + 8] == b[p + 4..p + 8];
  }

  lemma PropIs(b: seq<byte>, p: nat, nameoff: word, val: seq<byte>)
    requires |val| < LIMIT && p + 12 + Align4(|val|) <= |b|
    requires b[p..p + 4] == BeBytes(FDT_PROP) && b[p + 4..p + 8] == BeBytes(|val|) && b[p + 8..p + 12] == BeBytes(nameoff)
    requires b[p + 12..p + 12 + Align4(|val|)] == Padded(val)
    ensures b[p..p + 12 + Align4(|val|)] == Enc(Prop(nameoff, val))
  {
    hide BeBytes, Enc, Align4, Padded, TokenOk;
    EncProp(nameoff, val);
    Join4(b, p, BeBytes(FDT_PROP), BeBytes(|val|), BeBytes(nameoff), Padded(val));
  }

  lemma Join2(b: seq<byte>, p: nat, u: seq<byte>, v: seq<byte>)
    requires p + |u| + |v| <= |b| && b[p..p + |u|] == u && b[p + |u|..p + |u| + |v|] == v
    ensures b[p..p + |u| + |v|] == u + v
  {
    var e := p + |u| + |v|;
    assert b[p..e] == b[p..p + |u|] + b[p + |u|..e];
  }

  lemma Join4(b: seq<byte>, p: nat, u: seq<byte>, v: seq<byte>, w: seq<byte>, x: seq<byte>)
    requires |u| == |v| == |w| == 4 && p + 12 + |x| <= |b|
    requires b[p..p + 4] == u && b[p + 4..p + 8] == v && b[p + 8..p + 12] == w && b[p + 12..p + 12 + |x|] == x
    ensures b[p..p + 12 + |x|] == u + v + w + x
  {
    Join2(b, p, u, v);
    Join2(b, p, u + v, w);
    Join2(b, p, u + v + w, x);
  }

  // ---- an existing property ----

  /** No byte from capacity on has changed. */
  ghost predicate Within(a: seq<byte>, b: seq<byte>, capacity: nat) { capacity <= |a| == |b| && b[capacity..] == a[capacity..] }

  /** How far an edit may reach: to the capacity, or to the end of a blob that is larger. */
  function Reach(b: seq<byte>, capacity: nat): nat
    requires |b| >= HEADER
  {
    if capacity < Hdr(b, TOTALSIZE) then Hdr(b, TOTALSIZE) else capacity
  }

  lemma ShiftedWithin(a: seq<byte>, b: seq<byte>, q: nat, x: nat, y: nat, capacity: nat)
    requires Shifted(a, b, q, x, y) && capacity <= |a| && Hdr(a, TOTALSIZE) as int + y - x <= capacity
    ensures Within(a, b, Reach(a, capacity)) && Hdr(b, TOTALSIZE) as int == Hdr(a, TOTALSIZE) as int + y - x
  {
    hide Hdr;
    var t, r := Max(Hdr(a, TOTALSIZE), Hdr(a, TOTALSIZE) as int + y - x), Reach(a, capacity);
    assert b[r..] == b[t..][r - t..];
  }

  /** A property where tokens i to j were. */
  lemma PropPlaced(a: seq<byte>, b: seq<byte>, ts: seq<Token>, i: nat, j: nat, t: Token, capacity: nat)
    requires Encodes(a, ts) && LayoutOk(a) && i <= j <= |ts| && Off(ts, i) <= Off(ts, j)
    requires t.Prop? && |t.val| < LIMIT && capacity <= |a|
    requires Hdr(a, TOTALSIZE) + 12 + Align4(|t.val|) <= capacity + Off(ts, j) - Off(ts, i)
    requires Shifted(a, b, Hdr(a, OFF_STRUCT) + Off(ts, i), Off(ts, j) - Off(ts, i), 12 + Align4(|t.val|))
    requires var p := Hdr(a, OFF_STRUCT) as int + Off(ts, i);
             p + 12 + Align4(|t.val|) <= |b| && b[p..p + 12 + Align4(|t.val|)] == Enc(t)
    ensures Encodes(b, ts[..i] + [t] + ts[j..]) && LayoutOk(b) && Strings(b) == Strings(a)
    ensures Within(a, b, Reach(a, capacity)) && Hdr(b, TOTALSIZE) as int == Hdr(a, TOTALSIZE) + 12 + Align4(|t.val|) - (Off(ts, j) - Off(ts, i))
  {
    hide Hdr, Flat, Off, TotalCells, TokensOk, Struct, Strings, Enc, BeBytes, Shifted, Align4, LayoutOk, Within;
    FlatOne(t);
    EncProp(t.nameoff, t.val);
    TokensReplaced(a, b, ts, i, j, [t]);
    ShiftedWithin(a, b, Hdr(a, OFF_STRUCT) + Off(ts, i), Off(ts, j) - Off(ts, i), 12 + Align4(|t.val|), capacity);
  }

  /** Resizing in place, as fdt_setprop does it. */
  method ResizeProp(a: array<byte>, capacity: nat, prop: nat, olen: nat, val: seq<byte>, ghost ts: seq<Token>, ghost i: nat)
    returns (err: int)
    requires Encodes(a[..], ts) && LayoutOk(a[..]) && capacity <= a.Length
    requires i < |ts| && ts[i].Prop? && prop == Off(ts, i) && olen == |ts[i].val| && |val| < LIMIT
    modifies a
    ensures err == if Hdr(old(a[..]), TOTALSIZE) + Align4(|val|) - Align4(olen) > capacity then FDT_ERR_NOSPACE else 0
    ensures err != 0 ==> a[..] == old(a[..])
    ensures err == 0 ==> Encodes(a[..], ts[..i] + [Prop(ts[i].nameoff, val)] + ts[i + 1..]) && LayoutOk(a[..])
    ensures err == 0 ==> Strings(a[..]) == Strings(old(a[..])) && Within(old(a[..]), a[..], Reach(old(a[..]), capacity))
    ensures err == 0 ==> Hdr(a[..], TOTALSIZE) as int == Hdr(old(a[..]), TOTALSIZE) + Align4(|val|) - Align4(olen)
  {
    hide Hdr, Flat, Off, TotalCells, TokensOk, Struct, Strings, Enc, BeBytes, Shifted, Align4, LayoutOk, Within;
    ghost var b0 := a[..];
    var p: int := Hdr(a[..], OFF_STRUCT) + prop;
    var len: int, was: int := Align4(|val|), Align4(olen);
    var keep := if len < was then len else was;
    PropHere(b0, ts, i);
    err := Splice(a, capacity, prop + 12 + keep, len - was);
    if err != 0 { return; }
    SplicedForProp(b0, a[..], p, was, len, keep);
    FinishResize(a, capacity, p, was, val, b0, ts, i);
  }

  /** The end of fdt_setprop, once the property has its new size. */
  method FinishResize(a: array<byte>, ghost capacity: nat, p: nat, ghost was: nat, val: seq<byte>, ghost b0: seq<byte>,
                      ghost ts: seq<Token>, ghost i: nat)
    requires Encodes(b0, ts) && LayoutOk(b0) && capacity <= a.Length == |b0|
    requires i < |ts| && ts[i].Prop? && p == Hdr(b0, OFF_STRUCT) as int + Off(ts, i) && was == Align4(|ts[i].val|) && |val| < LIMIT
    requires Hdr(b0, TOTALSIZE) + Align4(|val|) - was <= capacity && p + 12 + Align4(|val|) <= a.Length
    requires Shifted(b0, a[..], p, 12 + was, 12 + Align4(|val|)) && Off(ts, i + 1) == Off(ts, i) + 12 + was
    requires a[p..p + 4] == BeBytes(FDT_PROP) && a[p + 8..p + 12] == BeBytes(ts[i].nameoff)
    modifies a
    ensures Encodes(a[..], ts[..i] + [Prop(ts[i].nameoff, val)] + ts[i + 1..]) && LayoutOk(a[..])
    ensures Strings(a[..]) == Strings(b0) && Within(b0, a[..], Reach(b0, capacity))
    ensures Hdr(a[..], TOTALSIZE) as int == Hdr(b0, TOTALSIZE) + Align4(|val|) - was
  {
    hide Hdr, Flat, Off, TotalCells, TokensOk, Struct, Strings, Enc, BeBytes, Shifted, Align4, LayoutOk, Within, Encodes, Reach;
    RefillProp(a, p, val, b0, was, ts[i].nameoff);
    PropPlaced(b0, a[..], ts, i, i + 1, Prop(ts[i].nameoff, val), capacity);
  }

  lemma SplicedForProp(a: seq<byte>, b: seq<byte>, p: nat, was: nat, len: nat, keep: nat)
    requires keep == (if len < was then len else was) && HEADER <= p
    requires Shifted(a, b, p + 12 + keep, Max(0, was - len), Max(0, len - was))
    ensures Shifted(a, b, p, 12 + was, 12 + len) && p + 12 + len <= |b| == |a|
    ensures b[p..p + 4] == a[p..p + 4] && b[p + 8..p + 12] == a[p + 8..p + 12]
  {
    hide Shifted, Hdr;
    ShiftedEarlier(a, b, p, Max(0, was - len), Max(0, len - was), 12 + keep);
    ShiftedHead(a, b, p + 12 + keep, Max(0, was - len), Max(0, len - was), p);
    KeptHeader(a, b, p, keep);
    ShiftedFits(a, b, p, 12 + was, 12 + len);
  }

  /** The value into the gap that has been made for it. */
  method RefillProp(a: array<byte>, p: nat, val: seq<byte>, ghost b0: seq<byte>, ghost was: nat, ghost nameoff: word)
    requires |val| < LIMIT && p + 12 + Align4(|val|) <= a.Length && Shifted(b0, a[..], p, 12 + was, 12 + Align4(|val|))
    requires a[p..p + 4] == BeBytes(FDT_PROP) && a[p + 8..p + 12] == BeBytes(nameoff)
    modifies a
    ensures Shifted(b0, a[..], p, 12 + was, 12 + Align4(|val|))
    ensures a[p..p + 12 + Align4(|val|)] == Enc(Prop(nameoff, val))
  {
    hide Hdr, Shifted, BeBytes, Align4, Enc, Padded;
    ghost var b1 := a[..];
    FillProp(a, p, val);
    assert a[p..p + 4] == b1[p..p + 4] && a[p + 8..p + 12] == b1[p + 8..p + 12];
    PropIs(a[..], p, nameoff, val);
    ShiftedKept(b0, b1, a[..], p, 12 + was, 12 + Align4(|val|));
  }

  lemma KeptHeader(a: seq<byte>, b: seq<byte>, p: nat, keep: nat)
    requires p + 12 + keep <= |a| == |b| && b[p..p + 12 + keep] == a[p..p + 12 + keep]
    ensures b[p..p + 4] == a[p..p + 4] && b[p + 8..p + 12] == a[p + 8..p + 12]
  {
    SliceSlice(a, p, p + 12 + keep, 0, 4); SliceSlice(b, p, p + 12 + keep, 0, 4);
    SliceSlice(a, p, p + 12 + keep, 8, 12); SliceSlice(b, p, p + 12 + keep, 8, 12);
  }

  lemma ShiftedFits(a: seq<byte>, b: seq<byte>, q: nat, x: nat, y: nat)
    requires Shifted(a, b, q, x, y)
    ensures q + y <= |b| == |a| && HEADER <= q
  {
  }

  /** A property token takes its header and its padded value. */
  lemma PropHere(b: seq<byte>, ts: seq<Token>, i: nat)
    requires Encodes(b, ts) && i < |ts| && ts[i].Prop?
    ensures var p := Hdr(b, OFF_STRUCT) as int + Off(ts, i);
            && |ts[i].val| < LIMIT && HEADER <= p && p + 12 <= |b|
            && b[p..p + 4] == BeBytes(FDT_PROP) && b[p + 8..p + 12] == BeBytes(ts[i].nameoff)
    ensures Off(ts, i + 1) == Off(ts, i) + 12 + Align4(|ts[i].val|) <= Hdr(b, SIZE_STRUCT)
  {
    hide Struct, Flat, Off, TotalCells, BeBytes, Be32, Padded, Align4, Enc;
    PropParts(b, ts, i);
    TokenAt(ts, i);
    EncProp(ts[i].nameoff, ts[i].val);
  }

  // ---- the strings block ----

  /** Where a name, with its zero, first stands in the strings block, from i on. */
  function FindString(strs: seq<byte>, name: seq<byte>, i: nat): (r: Option<nat>)
    ensures r.Some? ==> r.value + |name| + 1 <= |strs| && strs[r.value..r.value + |name| + 1] == name + [0]
    decreases |strs| - i
  {
    if i + |name| + 1 > |strs| then None
    else if strs[i..i + |name| + 1] == name + [0] then Some(i)
    else FindString(strs, name, i + 1)
  }

  /** What string_offset has made of the blob: its strings block may have grown at the end. */
  ghost predicate Grown(a: seq<byte>, b: seq<byte>, more: seq<byte>) {
    && Sized(a) && Sized(b) && |a| == |b| && Struct(b) == Struct(a) && Strings(b) == Strings(a) + more
    && LayoutOk(b) == LayoutOk(a) && Hdr(b, TOTALSIZE) as int == Hdr(a, TOTALSIZE) as int + |more|
    && Hdr(b, OFF_STRUCT) == Hdr(a, OFF_STRUCT)
  }

  /** string_offset */
  method StringOffset(a: array<byte>, capacity: nat, name: seq<byte>) returns (off: int)
    requires Sized(a[..]) && LayoutOk(a[..]) && capacity <= a.Length
    modifies a
    ensures var r := FindString(Strings(old(a[..])), name, 0);
            && (r.Some? ==> off == r.value && a[..] == old(a[..]))
            && (r.None? && Hdr(old(a[..]), TOTALSIZE) + |name| + 1 > capacity ==> off == FDT_ERR_NOSPACE && a[..] == old(a[..]))
            && (r.None? && Hdr(old(a[..]), TOTALSIZE) + |name| + 1 <= capacity ==>
                  off == |Strings(old(a[..]))| && Grown(old(a[..]), a[..], name + [0]) && Within(old(a[..]), a[..], capacity))
  {
    hide Hdr, Grown, Within, LayoutOk, Strings;
    var strs := Strings(a[..]);
    var size, n := |strs|, |name| + 1;
    var i := 0;
    while i + n <= size
      invariant 0 <= i && FindString(strs, name, 0) == FindString(strs, name, i)
    {
      if strs[i..i + n] == name + [0] { return i; }
      i := i + 1;
    }
    if Hdr(a[..], TOTALSIZE) + n > capacity { return FDT_ERR_NOSPACE; }
    AppendString(a, name, capacity);
    off := size;
  }

  /** The name and its zero behind the last string. */
  method AppendString(a: array<byte>, name: seq<byte>, capacity: nat)
    requires Sized(a[..]) && LayoutOk(a[..]) && Hdr(a[..], TOTALSIZE) + |name| + 1 <= capacity <= a.Length
    modifies a
    ensures Grown(old(a[..]), a[..], name + [0]) && Within(old(a[..]), a[..], capacity)
  {
    hide Be32;
    ghost var b0 := a[..];
    var tot: int, size: int, n := Hdr(a[..], TOTALSIZE), Hdr(a[..], SIZE_STRINGS), |name| + 1;
    var i := 0;
    while i < n
      invariant 0 <= i <= n
      invariant forall k {:trigger a[k]} | 0 <= k < a.Length :: a[k] == if tot <= k < tot + i then (name + [0])[k - tot] else b0[k]
    {
      a[tot + i] := if i < |name| then name[i] else 0;
      i := i + 1;
    }
    ghost var b1 := a[..];
    PutBe(a, 4 * SIZE_STRINGS, size + n);
    HdrIs(a[..], SIZE_STRINGS, size + n);
    ghost var b2 := a[..];
    PutBe(a, 4 * TOTALSIZE, tot + n);
    HdrIs(a[..], TOTALSIZE, tot + n);
    HdrSame(b2, a[..], SIZE_STRINGS);
    AppendedIs(b0, a[..], name + [0], tot);
  }

  lemma AppendedIs(a: seq<byte>, b: seq<byte>, more: seq<byte>, tot: nat)
    requires Sized(a) && LayoutOk(a) && tot == Hdr(a, TOTALSIZE) && |b| == |a| && tot + |more| <= |a|
    requires forall k {:trigger b[k]} | 4 * OFF_STRUCT <= k < |a| && !(4 * SIZE_STRINGS <= k < 4 * SIZE_STRINGS + 4) ::
               b[k] == if tot <= k < tot + |more| then more[k - tot] else a[k]
    requires Hdr(b, TOTALSIZE) as int == tot + |more| && Hdr(b, SIZE_STRINGS) as int == Hdr(a, SIZE_STRINGS) as int + |more|
    ensures Grown(a, b, more) && forall c: nat | tot + |more| <= c <= |a| :: Within(a, b, c)
  {
    hide Be32;
    HdrSame(a, b, OFF_STRUCT); HdrSame(a, b, OFF_STRINGS); HdrSame(a, b, OFF_RSVMAP); HdrSame(a, b, SIZE_STRUCT);
    assert Struct(b) == Struct(a);
    assert Strings(b) == Strings(a) + more;
  }

  // ---- a new property ----

  /** A new first property, as fdt_setprop puts it in. */
  method InsertProp(a: array<byte>, capacity: nat, node: nat, nameoff: word, val: seq<byte>, ghost ts: seq<Token>, ghost k: nat)
    returns (err: int)
    requires Encodes(a[..], ts) && LayoutOk(a[..]) && capacity <= a.Length
    requires k < |ts| && node == Off(ts, k) && |val| < LIMIT
    modifies a
    ensures err == if Hdr(old(a[..]), TOTALSIZE) + 12 + Align4(|val|) > capacity then FDT_ERR_NOSPACE else 0
    ensures err != 0 ==> a[..] == old(a[..])
    ensures err == 0 ==> Encodes(a[..], ts[..k + 1] + [Prop(nameoff, val)] + ts[k + 1..]) && LayoutOk(a[..])
    ensures err == 0 ==> Strings(a[..]) == Strings(old(a[..])) && Within(old(a[..]), a[..], Reach(old(a[..]), capacity))
    ensures err == 0 ==> Hdr(a[..], TOTALSIZE) as int == Hdr(old(a[..]), TOTALSIZE) + 12 + Align4(|val|)
  {
    hide Hdr, Flat, Off, TotalCells, TokensOk, Struct, Strings, Enc, BeBytes, Shifted, Align4, LayoutOk, Within;
    ghost var b0, t := a[..], Prop(nameoff, val);
    var tag, prop := NextTag(a[..], node, ts, k);
    OffWithin(ts, k + 1);
    var len := Align4(|val|);
    err := Splice(a, capacity, prop, 12 + len);
    if err != 0 { return; }
    var p: int := Hdr(a[..], OFF_STRUCT) + prop;
    ShiftedHead(b0, a[..], Hdr(b0, OFF_STRUCT) + prop, 0, 12 + len, Hdr(b0, OFF_STRUCT));
    ShiftedFits(b0, a[..], p, 0, 12 + len);
    NewProp(a, p, nameoff, val, b0);
    PropPlaced(b0, a[..], ts, k + 1, k + 1, t, capacity);
  }

  /** Tag, name and value into the gap. */
  method NewProp(a: array<byte>, p: nat, nameoff: word, val: seq<byte>, ghost b0: seq<byte>)
    requires |val| < LIMIT && p + 12 + Align4(|val|) <= a.Length && Shifted(b0, a[..], p, 0, 12 + Align4(|val|))
    modifies a
    ensures Shifted(b0, a[..], p, 0, 12 + Align4(|val|))
    ensures a[p..p + 12 + Align4(|val|)] == Enc(Prop(nameoff, val))
  {
    hide Hdr, Shifted, BeBytes, Align4, Enc, Padded;
    ghost var b1 := a[..];
    PutBe(a, p, FDT_PROP);
    ghost var b2 := a[..];
    PutBe(a, p + 8, nameoff);
    assert a[p..p + 4] == b2[p..p + 4];
    ghost var b3 := a[..];
    FillProp(a, p, val);
    assert a[p..p + 4] == b3[p..p + 4] && a[p + 8..p + 12] == b3[p + 8..p + 12];
    PropIs(a[..], p, nameoff, val);
    ShiftedKept(b0, b1, a[..], p, 0, 12 + Align4(|val|));
  }

  // ---- names ----

  lemma {:induction false} NameFound(strs: seq<byte>, name: seq<byte>, o: nat)
    requires 0 !in name && o + |name| < |strs| && strs[o..o + |name| + 1] == name + [0]
    ensures NameOk(strs, o) && NameAt(strs, o) == name
    decreases |name|
  {
    assert strs[o + |name|] == strs[o..o + |name| + 1][|name|] == 0;
    if name != [] {
      assert strs[o] == strs[o..o + |name| + 1][0] == name[0];
      var rest := name[1..];
      assert strs[o + 1..o + 1 + |rest| + 1] == strs[o..o + |name| + 1][1..] == rest + [0];
      NameFound(strs, rest, o + 1);
      assert name == [name[0]] + rest;
    }
  }

  lemma {:induction false} NameGrown(strs: seq<byte>, more: seq<byte>, o: nat)
    requires NameOk(strs, o)
    ensures NameOk(strs + more, o) && NameAt(strs + more, o) == NameAt(strs, o)
    decreases |strs| - o
  {
    var e :| o <= e < |strs| && strs[e] == 0;
    assert (strs + more)[e] == 0;
    if strs[o] != 0 {
      assert o + 1 <= e;
      NameGrown(strs, more, o + 1);
    }
  }

  lemma NamesGrown(strs: seq<byte>, more: seq<byte>, ts: seq<Token>)
    requires NamesOk(strs, ts)
    ensures NamesOk(strs + more, ts)
  {
    hide NameOk;
    forall i | 0 <= i < |ts| && ts[i].Prop? ensures NameOk(strs + more, ts[i].nameoff) { NameGrown(strs, more, ts[i].nameoff); }
  }

  // ---- fdt_setprop ----

  /** Where a new property's name is, or will be, in the strings block. */
  function NameOffset(strs: seq<byte>, name: seq<byte>): (o: nat)
    ensures o <= |strs|
  {
    if FindString(strs, name, 0).Some? then FindString(strs, name, 0).value else |strs|
  }

  /** The node with a property set. */
  function WithProp(strs: seq<byte>, n: Node, name: seq<byte>, val: seq<byte>): Node
    requires |strs| < WORD
  {
    match FindProp(strs, n.props, name, 0)
    case Some(i) => n.(props := n.props[i := Prop(n.props[i].nameoff, val)])
    case None => n.(props := [Prop(NameOffset(strs, name), val)] + n.props)
  }

  function MoreStrings(strs: seq<byte>, n: Node, name: seq<byte>): seq<byte> {
    if FindProp(strs, n.props, name, 0).Some? || FindString(strs, name, 0).Some? then [] else name + [0]
  }

  /** How many bytes the blob grows by. */
  function Growth(strs: seq<byte>, n: Node, name: seq<byte>, val: seq<byte>): int {
    match FindProp(strs, n.props, name, 0)
    case Some(i) => Align4(|val|) - Align4(|n.props[i].val|)
    case None => |MoreStrings(strs, n, name)| + 12 + Align4(|val|)
  }

  /** The tokens with the node at k replaced. */
  function Swapped(ts: seq<Token>, k: nat, n: Node, m: Node): seq<Token>
    requires k + |Toks(n)| <= |ts|
  {
    ts[..k] + Toks(m) + ts[k + |Toks(n)|..]
  }

  /** What stands before and behind the middle of a stretch. */
  lemma Around<T>(ts: seq<T>, k: nat, head: seq<T>, mid: seq<T>, tail: seq<T>)
    requires k + |head| + |mid| + |tail| <= |ts| && ts[k..k + |head| + |mid| + |tail|] == head + mid + tail
    ensures ts[..k + |head|] == ts[..k] + head
    ensures ts[k + |head| + |mid|..] == tail + ts[k + |head| + |mid| + |tail|..]
  {
    var e := k + |head| + |mid| + |tail|;
    var s := head + mid + tail;
    SliceSlice(ts, k, e, 0, |head|);
    SliceSlice(ts, k, e, |head| + |mid|, |s|);
    assert s[0..|head|] == head && s[|head| + |mid|..|s|] == tail;
    assert ts[..k + |head|] == ts[..k] + ts[k..k + |head|];
    assert ts[k + |head| + |mid|..] == ts[k + |head| + |mid|..e] + ts[e..];
  }

  lemma PropInside(n: Node, i: nat)
    requires i < |n.props|
    ensures Toks(n) == ([Begin(n.name)] + n.props[..i]) + [n.props[i]] + (n.props[i + 1..] + KidToks(n.kids) + [EndNode])
  {
    hide KidToks;
    assert n.props == n.props[..i] + [n.props[i]] + n.props[i + 1..];
  }

  lemma ChangedProp(ts: seq<Token>, k: nat, n: Node, i: nat, t: Token)
    requires At(ts, k, Toks(n)) && i < |n.props|
    ensures var m := n.(props := n.props[i := t]);
            k + 1 + i < |ts| && ts[..k + 1 + i] + [t] + ts[k + 2 + i..] == Swapped(ts, k, n, m)
  {
    hide KidToks, Toks;
    var m := n.(props := n.props[i := t]);
    var head, tail := [Begin(n.name)] + n.props[..i], n.props[i + 1..] + KidToks(n.kids) + [EndNode];
    PropInside(n, i);
    PropInside(m, i);
    assert m.props[..i] == n.props[..i] && m.props[i + 1..] == n.props[i + 1..];
    Around(ts, k, head, [n.props[i]], tail);
    Assoc(ts[..k], head, [t], tail, ts[k + |Toks(n)|..]);
  }

  lemma Assoc<T>(a: seq<T>, b: seq<T>, c: seq<T>, d: seq<T>, e: seq<T>)
    ensures (a + b) + c + (d + e) == a + (b + c + d) + e
  {
  }

  lemma AddedProp(ts: seq<Token>, k: nat, n: Node, t: Token)
    requires At(ts, k, Toks(n))
    ensures var m := n.(props := [t] + n.props);
            k + 1 <= |ts| && ts[..k + 1] + [t] + ts[k + 1..] == Swapped(ts, k, n, m)
  {
    hide KidToks, Toks;
    var m := n.(props := [t] + n.props);
    var head, tail := [Begin(n.name)], n.props + KidToks(n.kids) + [EndNode];
    FirstInside(n, head, tail);
    PropInside(m, 0);
    assert m.props[..0] == [] && m.props[1..] == n.props && head + [] == head;
    Around(ts, k, head, [], tail);
    Assoc(ts[..k], head, [t], tail, ts[k + |Toks(n)|..]);
  }

  lemma FirstInside(n: Node, head: seq<Token>, tail: seq<Token>)
    requires head == [Begin(n.name)] && tail == n.props + KidToks(n.kids) + [EndNode]
    ensures Toks(n) == head + [] + tail
  {
    hide KidToks;
  }

  lemma SwappedAt(ts: seq<Token>, k: nat, n: Node, m: Node)
    requires k + |Toks(n)| <= |ts|
    ensures At(Swapped(ts, k, n, m), k, Toks(m))
  {
    hide Toks;
  }

  /** fdt_setprop: the tree with that one property changed, or no change to the tree at all. */
  method SetProp(a: array<byte>, capacity: nat, node: nat, name: seq<byte>, val: seq<byte>,
                 ghost ts: seq<Token>, ghost k: nat, ghost n: Node) returns (err: int)
    requires NodeAt(a[..], ts, k, n) && Named(a[..], ts) && node == Off(ts, k) && capacity <= a.Length
    requires 0 !in name && |val| < LIMIT
    modifies a
    ensures err == if !LayoutOk(old(a[..])) then FDT_ERR_BADLAYOUT
                   else if Hdr(old(a[..]), TOTALSIZE) + Growth(Strings(old(a[..])), n, name, val) > capacity then FDT_ERR_NOSPACE
                   else 0
    ensures err == FDT_ERR_BADLAYOUT ==> a[..] == old(a[..])
    ensures err == FDT_ERR_NOSPACE ==> Kept(old(a[..]), a[..], ts, name)
    ensures err == 0 ==> IsSet(old(a[..]), a[..], ts, k, n, name, val)
    ensures err == 0 ==> Hdr(a[..], TOTALSIZE) as int == Hdr(old(a[..]), TOTALSIZE) + Growth(Strings(old(a[..])), n, name, val)
    ensures Within(old(a[..]), a[..], Reach(old(a[..]), capacity))
  {
    hide Hdr, Flat, Off, TotalCells, TokensOk, Struct, Strings, LayoutOk, Within, Sized, Toks, NodeOk, At, NamesOk,
         Kept, IsSet, PropFound, FindProp;
    ghost var b0 := a[..];
    WithinReach(b0, capacity);
    if !LayoutOk(a[..]) { return FDT_ERR_BADLAYOUT; }
    ghost var strs := Strings(a[..]);
    ghost var r := FindProp(strs, n.props, name, 0);
    NodeParts(ts, k, n);
    KeptSame(b0, ts, name);
    var prop, olen := SeekProp(a[..], node, name, ts, k, n);
    PropFoundAt(ts, k + 1, n.props, r, prop);
    if prop >= 0 {
      err := ResizeProp(a, capacity, prop, olen, val, ts, k + 1 + r.value);
      if err == 0 { ResizedIsSet(b0, a[..], ts, k, n, name, val); }
    } else {
      err := AddProp(a, capacity, node, name, val, ts, k, n);
    }
  }

  /** The other half of fdt_setprop: no property has the name. */
  method AddProp(a: array<byte>, capacity: nat, node: nat, name: seq<byte>, val: seq<byte>,
                 ghost ts: seq<Token>, ghost k: nat, ghost n: Node) returns (err: int)
    requires NodeAt(a[..], ts, k, n) && Named(a[..], ts) && node == Off(ts, k) && capacity <= a.Length
    requires 0 !in name && |val| < LIMIT && LayoutOk(a[..]) && FindProp(Strings(a[..]), n.props, name, 0).None?
    modifies a
    ensures err == if Hdr(old(a[..]), TOTALSIZE) + Growth(Strings(old(a[..])), n, name, val) > capacity then FDT_ERR_NOSPACE else 0
    ensures err == FDT_ERR_NOSPACE ==> Kept(old(a[..]), a[..], ts, name)
    ensures err == 0 ==> IsSet(old(a[..]), a[..], ts, k, n, name, val)
    ensures err == 0 ==> Hdr(a[..], TOTALSIZE) as int == Hdr(old(a[..]), TOTALSIZE) + Growth(Strings(old(a[..])), n, name, val)
    ensures Within(old(a[..]), a[..], Reach(old(a[..]), capacity))
  {
    hide Hdr, Flat, Off, TotalCells, TokensOk, Struct, Strings, LayoutOk, Within, Sized, Toks, NodeOk, At, NamesOk,
         Kept, IsSet, Grown, FindString, FindProp;
    ghost var b0 := a[..];
    WithinReach(b0, capacity);
    NodeParts(ts, k, n);
    KeptSame(b0, ts, name);
    GrownSame(b0);
    var nameoff := StringOffset(a, capacity, name);
    ghost var more := MoreStrings(Strings(b0), n, name);
    if nameoff < 0 { return nameoff; }
    ghost var b1 := a[..];
    assert Grown(b0, b1, more) && nameoff == NameOffset(Strings(b0), name);
    GrownKeeps(b0, b1, ts, name, more);
    err := InsertProp(a, capacity, node, nameoff, val, ts, k);
    WithinMore(b0, b1, a[..], Reach(b0, capacity));
    if err == 0 { AddedIsSet(b0, b1, a[..], ts, k, n, name, val); }
  }

  /** The tree that b encodes is that of a; at most its strings block has grown. */
  ghost predicate Kept(a: seq<byte>, b: seq<byte>, ts: seq<Token>, name: seq<byte>) {
    && Encodes(b, ts) && Named(b, ts) && Sized(a) && LayoutOk(b)
    && (Strings(b) == Strings(a) || Strings(b) == Strings(a) + (name + [0]))
  }

  /** The tree that b encodes is that of a with one property of the node at k set. */
  ghost predicate IsSet(a: seq<byte>, b: seq<byte>, ts: seq<Token>, k: nat, n: Node, name: seq<byte>, val: seq<byte>) {
    && Sized(a) && k + |Toks(n)| <= |ts| && LayoutOk(b)
    && NodeAt(b, Swapped(ts, k, n, WithProp(Strings(a), n, name, val)), k, WithProp(Strings(a), n, name, val))
    && Named(b, Swapped(ts, k, n, WithProp(Strings(a), n, name, val)))
    && Strings(b) == Strings(a) + MoreStrings(Strings(a), n, name)
  }

  lemma WithinReach(b: seq<byte>, capacity: nat)
    requires Sized(b) && capacity <= |b|
    ensures |b| >= HEADER && Within(b, b, Reach(b, capacity))
  {
  }

  lemma WithinMore(a: seq<byte>, b: seq<byte>, c: seq<byte>, capacity: nat)
    requires Within(a, b, capacity) && (Within(b, c, capacity) || c == b)
    ensures Within(a, c, capacity)
  {
  }

  lemma KeptSame(b: seq<byte>, ts: seq<Token>, name: seq<byte>)
    requires Encodes(b, ts) && Named(b, ts) && LayoutOk(b)
    ensures Kept(b, b, ts, name)
  {
  }

  lemma GrownSame(b: seq<byte>)
    requires Sized(b)
    ensures Grown(b, b, [])
  {
    assert Strings(b) + [] == Strings(b);
  }

  lemma GrownKeeps(a: seq<byte>, b: seq<byte>, ts: seq<Token>, name: seq<byte>, more: seq<byte>)
    requires Encodes(a, ts) && Named(a, ts) && LayoutOk(a) && Grown(a, b, more) && (more == [] || more == name + [0])
    ensures Encodes(b, ts) && Named(b, ts) && LayoutOk(b) && Kept(a, b, ts, name)
    ensures Hdr(b, TOTALSIZE) as int == Hdr(a, TOTALSIZE) as int + |more| && Strings(b) == Strings(a) + more
  {
    hide Be32, Flat, LayoutOk, Struct, Strings, NamesOk, TokensOk;
    NamesGrown(Strings(a), more, ts);
    assert Strings(a) + [] == Strings(a);
  }

  /** Names are in order for a list of tokens if they are for its parts. */
  lemma NamesParts(strs: seq<byte>, ts: seq<Token>, i: nat, j: nat, t: Token)
    requires NamesOk(strs, ts) && i <= j <= |ts| && (t.Prop? ==> NameOk(strs, t.nameoff))
    ensures NamesOk(strs, ts[..i] + [t] + ts[j..])
  {
    hide NameOk;
    var u := ts[..i] + [t] + ts[j..];
    forall m | 0 <= m < |u| && u[m].Prop? ensures NameOk(strs, u[m].nameoff) {
      if m < i { assert u[m] == ts[m]; } else if m > i { assert u[m] == ts[j + m - i - 1]; }
    }
  }

  lemma StillOk(n: Node, props: seq<Token>)
    requires NodeOk(n) && forall i | 0 <= i < |props| :: PropItem(props[i])
    ensures NodeOk(n.(props := props))
  {
  }

  lemma ResizedIsSet(a: seq<byte>, b: seq<byte>, ts: seq<Token>, k: nat, n: Node, name: seq<byte>, val: seq<byte>)
    requires NodeAt(a, ts, k, n) && Named(a, ts) && |val| < LIMIT && FindProp(Strings(a), n.props, name, 0).Some?
    requires var i := FindProp(Strings(a), n.props, name, 0).value;
             && k + 1 + i < |ts| && ts[k + 1 + i] == n.props[i]
             && Encodes(b, ts[..k + 1 + i] + [Prop(n.props[i].nameoff, val)] + ts[k + 2 + i..])
    requires LayoutOk(b) && Sized(b) && Strings(b) == Strings(a)
    ensures IsSet(a, b, ts, k, n, name, val)
  {
    hide Hdr, LayoutOk, Toks, At, Struct, Strings, NodeOk, TokensOk, Flat, NameOk, NameAt, PropItem, NamesOk, Swapped;
    var i := FindProp(Strings(a), n.props, name, 0).value;
    var t := Prop(n.props[i].nameoff, val);
    var m := n.(props := n.props[i := t]);
    ChangedProp(ts, k, n, i, t);
    AtFits(ts, k, n);
    SwappedAt(ts, k, n, m);
    PropsOk(n);
    NewPropOk(t);
    StillOk(n, m.props);
    NameOfToken(Strings(a), ts, k + 1 + i);
    NamesParts(Strings(a), ts, k + 1 + i, k + 2 + i, t);
    assert Strings(a) + [] == Strings(a);
  }

  lemma AtFits(ts: seq<Token>, k: nat, n: Node)
    requires At(ts, k, Toks(n))
    ensures k + |Toks(n)| <= |ts|
  {
  }

  lemma NewPropOk(t: Token)
    requires t.Prop? && |t.val| < LIMIT
    ensures PropItem(t)
  {
  }

  lemma AddedIsSet(a: seq<byte>, mid: seq<byte>, b: seq<byte>, ts: seq<Token>, k: nat, n: Node, name: seq<byte>, val: seq<byte>)
    requires NodeAt(a, ts, k, n) && Named(a, ts) && |val| < LIMIT && FindProp(Strings(a), n.props, name, 0).None? && 0 !in name
    requires Sized(mid) && NamesOk(Strings(mid), ts) && Strings(mid) == Strings(a) + MoreStrings(Strings(a), n, name)
    requires k + 1 <= |ts| && Encodes(b, ts[..k + 1] + [Prop(NameOffset(Strings(a), name), val)] + ts[k + 1..])
    requires LayoutOk(b) && Sized(b) && Strings(b) == Strings(mid)
    ensures IsSet(a, b, ts, k, n, name, val)
  {
    hide Hdr, LayoutOk, Toks, At, Struct, Strings, NodeOk, TokensOk, Flat, NameOk, NameAt, PropItem, NamesOk, Swapped,
         FindProp, NameOffset, MoreStrings;
    var t := Prop(NameOffset(Strings(a), name), val);
    var m := n.(props := [t] + n.props);
    AddedProp(ts, k, n, t);
    AtFits(ts, k, n);
    SwappedAt(ts, k, n, m);
    PropsOk(n);
    NewPropOk(t);
    StillOk(n, m.props);
    NameThere(Strings(a), n, name);
    NamesParts(Strings(b), ts, k + 1, k + 1, t);
  }

  /** The name of a new property stands where its offset says. */
  lemma NameThere(strs: seq<byte>, n: Node, name: seq<byte>)
    requires FindProp(strs, n.props, name, 0).None? && 0 !in name
    ensures var after := strs + MoreStrings(strs, n, name);
            NameOk(after, NameOffset(strs, name)) && NameAt(after, NameOffset(strs, name)) == name
  {
    hide FindProp, NameAt, NameOk;
    var o := NameOffset(strs, name);
    if FindString(strs, name, 0).Some? {
      NameFound(strs, name, o);
      assert strs + [] == strs;
    } else {
      var after := strs + (name + [0]);
      assert after[o..o + |name| + 1] == name + [0];
      NameFound(after, name, o);
    }
  }
}
