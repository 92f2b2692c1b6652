/** The device tree that the boot ROM hands on: its copy of the tree with the memory's size
    and the kernel's command line put in. */
module FdtFixup {
  import opened Basics
  import opened Bytes
  import opened FdtTokens
  import opened FdtTree
  import opened FdtWalk
  import opened FdtQuery
  import opened FdtPath
  import opened FdtEdit
  import opened FdtSetProp
  import opened FdtLaw
  import opened FdtShift
  import opened RomMap

  const FDT_MAGIC: word := 0xd00d_feed

  const MEMORY: seq<byte> := [0x6d, 0x65, 0x6d, 0x6f, 0x72, 0x79]
  const CHOSEN: seq<byte> := [0x63, 0x68, 0x6f, 0x73, 0x65, 0x6e]
  const REG: seq<byte> := [0x72, 0x65, 0x67]
  const BOOTARGS: seq<byte> := [0x62, 0x6f, 0x6f, 0x74, 0x61, 0x72, 0x67, 0x73]

  /** b is the blob of the tree root. */
  ghost predicate Blob(b: seq<byte>, root: Node) {
    Encodes(b, Tree(root)) && NodeOk(root) && Named(b, Tree(root))
  }

  // ---- where a node is after the edit ----

  lemma {:induction false} SubOk(n: Node, k: nat, t: nat)
    requires NodeOk(n)
    ensures SubAt(n, k, t).Some? ==> NodeOk(SubAt(n, k, t).value)
    decreases n, 1
  {
    if t != k { SubKidsOk(n.kids, k + 1 + |n.props|, t); }
  }

  lemma {:induction false} SubKidsOk(ks: Kids, k: nat, t: nat)
    requires KidsOk(ks)
    ensures SubKids(ks, k, t).Some? ==> NodeOk(SubKids(ks, k, t).value)
    decreases ks, 0
  {
    hide Toks;
    match ks {
      case Last =>
      case Skip(rest) => SubKidsOk(rest, k + 1, t);
      case Kid(n, rest) => SubOk(n, k, t); SubKidsOk(rest, k + |Toks(n)|, t);
    }
  }

  /** Two children are the same one, or apart. */
  lemma {:induction false} KidsApart(ks: Kids, a: seq<byte>, b: seq<byte>, k: nat)
    requires FindKid(ks, a, k).Some? && FindKid(ks, b, k).Some?
    ensures var (i, m) := FindKid(ks, a, k).value; var (j, n) := FindKid(ks, b, k).value;
            i + |Toks(m)| <= j || j + |Toks(n)| <= i || (i == j && m == n && Matches(m.name, a) && Matches(m.name, b))
    decreases ks
  {
    hide Toks, Matches;
    match ks {
      case Skip(rest) => KidsApart(rest, a, b, k + 1);
      case Kid(n, rest) =>
        FoundWithin(rest, a, k + |Toks(n)|);
        FoundWithin(rest, b, k + |Toks(n)|);
        if !Matches(n.name, a) && !Matches(n.name, b) { KidsApart(rest, a, b, k + |Toks(n)|); }
    }
  }

  /** The bytes before a node that starts at tc, once the node c at tm has become m. */
  lemma OffShifted(ts: seq<Token>, tm: nat, c: Node, m: Node, tc: nat)
    requires TokensOk(ts) && At(ts, tm, Toks(c)) && TokensOk(Toks(m)) && tc <= |ts|
    requires tc <= tm || tm + |Toks(c)| <= tc
    ensures TokensOk(Toks(c)) && TokensOk(Swapped(ts, tm, c, m))
    ensures var k := Shift(tc, tm, |Toks(m)| - |Toks(c)|);
            && 0 <= k <= |Swapped(ts, tm, c, m)|
            && Off(Swapped(ts, tm, c, m), k) == Off(ts, tc) + if tc <= tm then 0 else |Flat(Toks(m))| - |Flat(Toks(c))|
  {
    hide Toks, Flat, TotalCells, TokensOk;
    var e := tm + |Toks(c)|;
    var ts2 := Swapped(ts, tm, c, m);
    TokensSlice(ts, 0, tm);
    TokensSlice(ts, tm, e);
    TokensSlice(ts, e, |ts|);
    assert ts[0..tm] == ts[..tm] && ts[e..|ts|] == ts[e..];
    TokensConcat(ts[..tm], Toks(m));
    TokensConcat(ts[..tm] + Toks(m), ts[e..]);
    if tc <= tm {
      assert ts2[..tc] == ts[..tc];
    } else {
      var k := tc + |Toks(m)| - |Toks(c)|;
      TokensSlice(ts, e, tc);
      assert ts[..tc] == ts[..tm] + Toks(c) + ts[e..tc];
      assert ts2[..k] == ts[..tm] + Toks(m) + ts[e..tc];
      FlatThree(ts[..tm], Toks(c), ts[e..tc]);
      FlatThree(ts[..tm], Toks(m), ts[e..tc]);
    }
  }

  lemma TokensSlice(ts: seq<Token>, a: nat, b: nat)
    requires TokensOk(ts) && a <= b <= |ts|
    ensures TokensOk(ts[a..b])
  {
    hide TokenOk;
  }

  lemma FlatThree(a: seq<Token>, b: seq<Token>, c: seq<Token>)
    requires TokensOk(a) && TokensOk(b) && TokensOk(c)
    ensures TokensOk(a + b + c) && |Flat(a + b + c)| == |Flat(a)| + |Flat(b)| + |Flat(c)|
  {
    hide Flat, TotalCells, TokensOk;
    FlatConcat(a, b);
    FlatConcat(a + b, c);
  }

  /** How many bytes longer a property makes its node. */
  function PropGrowth(strs: seq<byte>, c: Node, name: seq<byte>, val: seq<byte>): int {
    match FindProp(strs, c.props, name, 0)
    case Some(i) => Align4(|val|) - Align4(|c.props[i].val|)
    case None => 12 + Align4(|val|)
  }

  lemma WithPropOk(strs: seq<byte>, c: Node, name: seq<byte>, val: seq<byte>)
    requires NodeOk(c) && |val| < LIMIT && |strs| < WORD
    ensures NodeOk(WithProp(strs, c, name, val)) && TokensOk(Toks(WithProp(strs, c, name, val))) && TokensOk(Toks(c))
  {
    hide FindProp, NameOffset, Toks, NodeOk;
    var m := WithProp(strs, c, name, val);
    PropsOk(c);
    StillOk(c, m.props);
    ToksOk(m);
    ToksOk(c);
  }

  lemma NodeGrowth(strs: seq<byte>, c: Node, name: seq<byte>, val: seq<byte>)
    requires NodeOk(c) && |val| < LIMIT && |strs| < WORD
    ensures TokensOk(Toks(c)) && TokensOk(Toks(WithProp(strs, c, name, val)))
    ensures |Flat(Toks(WithProp(strs, c, name, val)))| - |Flat(Toks(c))| == PropGrowth(strs, c, name, val)
  {
    hide FindProp, NameOffset, Toks, NodeOk, KidToks, Flat, TotalCells, Enc, Align4, TokensOk;
    var m, r := WithProp(strs, c, name, val), FindProp(strs, c.props, name, 0);
    WithPropOk(strs, c, name, val);
    var i := if r.Some? then r.value else 0;
    var tail := (if r.Some? then c.props[i + 1..] else c.props) + KidToks(c.kids) + [EndNode];
    var head := [Begin(c.name)] + c.props[..i];
    PropInside(m, i);
    assert m.props[..i] == c.props[..i] && tail == m.props[i + 1..] + KidToks(m.kids) + [EndNode];
    OneTokenMore(head, m.props[i], tail, Toks(m));
    EncProp(m.props[i].nameoff, val);
    if r.Some? {
      PropInside(c, i);
      OneTokenMore(head, c.props[i], tail, Toks(c));
      EncProp(c.props[i].nameoff, c.props[i].val);
    } else {
      assert head == [Begin(c.name)] by { assert c.props[..0] == []; }
      FirstInside(c, head, tail);
      assert head + [] + tail == head + tail;
      FlatConcat(head, tail);
    }
  }

  lemma OneTokenMore(head: seq<Token>, t: Token, tail: seq<Token>, ts: seq<Token>)
    requires TokensOk(ts) && ts == head + [t] + tail
    ensures TokensOk(head) && TokensOk(tail) && TokenOk(t) && |Flat(ts)| == |Flat(head)| + |Enc(t)| + |Flat(tail)|
  {
    hide Flat, TotalCells, Enc, TokenOk;
    assert ts[..|head|] == head && ts[|head|] == t && ts[|head| + 1..] == tail;
    TokensTake(ts, |head|);
    TokensTake(ts, |head| + 1);
    FlatOne(t);
    FlatThree(head, [t], tail);
  }

  /** The children /memory and /chosen of a tree: where each is, and the node. */
  ghost predicate Both(root: Node, tm: nat, cm: Node, tc: nat, cc: Node) {
    Lookup(root, 0, [MEMORY]) == Some((tm, cm)) && Lookup(root, 0, [CHOSEN]) == Some((tc, cc))
  }

  lemma BothApart(root: Node, tm: nat, cm: Node, tc: nat, cc: Node)
    requires Both(root, tm, cm, tc, cc)
    ensures tm + |Toks(cm)| <= tc || tc + |Toks(cc)| <= tm
    ensures SubAt(root, 0, tm) == Some(cm) && SubAt(root, 0, tc) == Some(cc) && tm + |Toks(cm)| <= |Toks(root)| && tc + |Toks(cc)| <= |Toks(root)|
  {
    hide Toks, FindKid, SubAt;
    OneStep(root, MEMORY);
    OneStep(root, CHOSEN);
    KidsApart(root.kids, MEMORY, CHOSEN, 1 + |root.props|);
    LookupIsSub(root, 0, [MEMORY]);
    LookupIsSub(root, 0, [CHOSEN]);
    NotBoth(cm.name);
  }

  lemma OneStep(root: Node, comp: seq<byte>)
    ensures Lookup(root, 0, [comp]) == FindKid(root.kids, comp, 1 + |root.props|)
  {
    assert [comp][1..] == [];
  }

  lemma NotBoth(name: seq<byte>)
    ensures !(Matches(name, MEMORY) && Matches(name, CHOSEN))
  {
    if Matches(name, MEMORY) { assert name[0] == MEMORY[0] != CHOSEN[0]; }
  }

  lemma {:induction false} ReplaceOk(n: Node, k: nat, t: nat, m: Node)
    requires NodeOk(n) && NodeOk(m)
    ensures NodeOk(Replace(n, k, t, m))
    decreases n, 1
  {
    if t != k { ReplaceKidsOk(n.kids, k + 1 + |n.props|, t, m); }
  }

  lemma {:induction false} ReplaceKidsOk(ks: Kids, k: nat, t: nat, m: Node)
    requires KidsOk(ks) && NodeOk(m)
    ensures KidsOk(ReplaceKids(ks, k, t, m))
    decreases ks, 0
  {
    hide Toks;
    match ks {
      case Last =>
      case Skip(rest) => ReplaceKidsOk(rest, k + 1, t, m);
      case Kid(n, rest) => ReplaceOk(n, k, t, m); ReplaceKidsOk(rest, k + |Toks(n)|, t, m);
    }
  }

  /** By how many tokens a node grows when a property is set. */
  lemma TokenGrowth(strs: seq<byte>, c: Node, name: seq<byte>, val: seq<byte>)
    requires |strs| < WORD
    ensures var m := WithProp(strs, c, name, val);
            m.name == c.name && m.kids == c.kids && 0 <= |Toks(m)| - |Toks(c)| <= 1
  {
    hide FindProp, NameOffset, KidToks;
  }

  /** Where /chosen is once a property of /memory has been set. */
  ghost function ChosenAt(strs: seq<byte>, tm: nat, cm: Node, tc: nat, val: seq<byte>): int
    requires |strs| < WORD
  {
    Shift(tc, tm, |Toks(WithProp(strs, cm, REG, val))| - |Toks(cm)|)
  }

  /** Every path leads to the same place, moved if it lies behind /memory. */
  lemma PathsAfter(strs: seq<byte>, root: Node, tm: nat, cm: Node, val: seq<byte>, comps: seq<seq<byte>>)
    requires |strs| < WORD && SubAt(root, 0, tm) == Some(cm) && tm < |Toks(root)|
    ensures var f, g := Lookup(root, 0, comps), Lookup(SetAt(strs, root, tm, cm, REG, val), 0, comps);
            var m := WithProp(strs, cm, REG, val);
            && f.Some? == g.Some?
            && (f.Some? ==> g.value.0 == Shift(f.value.0, tm, |Toks(m)| - |Toks(cm)|) && g.value.1 == Inside(f.value.1, f.value.0, tm, m))
  {
    hide WithProp, Toks, Lookup, SubAt, Replace;
    TokenGrowth(strs, cm, REG, val);
    var m := WithProp(strs, cm, REG, val);
    LookupShift(root, 0, 0, comps, tm, m, |Toks(m)| - |Toks(cm)|);
  }

  lemma ChosenFound(strs: seq<byte>, root: Node, tm: nat, cm: Node, tc: nat, cc: Node, val: seq<byte>)
    requires |strs| < WORD && Both(root, tm, cm, tc, cc)
    ensures ChosenAt(strs, tm, cm, tc, val) >= 0
    ensures Lookup(SetAt(strs, root, tm, cm, REG, val), 0, [CHOSEN]) == Some((ChosenAt(strs, tm, cm, tc, val), cc))
  {
    hide WithProp, Toks, Lookup, SubAt, Replace;
    BothApart(root, tm, cm, tc, cc);
    KidLength(cm);
    KidLength(cc);
    TokenGrowth(strs, cm, REG, val);
    PathsAfter(strs, root, tm, cm, val, [CHOSEN]);
  }

  /** The offset of /chosen that was found before /memory was edited is still its offset
      afterwards exactly when /chosen comes first or the edit changes no size. */
  lemma OffsetStays(strs: seq<byte>, root: Node, tm: nat, cm: Node, tc: nat, cc: Node, val: seq<byte>)
    requires |strs| < WORD && NodeOk(root) && Both(root, tm, cm, tc, cc) && |val| < LIMIT
    ensures var ts, ts2, k := Tree(root), Tree(SetAt(strs, root, tm, cm, REG, val)), ChosenAt(strs, tm, cm, tc, val);
            && TokensOk(ts) && TokensOk(ts2) && tc <= |ts| && 0 <= k <= |ts2|
            && (Off(ts2, k) == Off(ts, tc) <==> tc < tm || PropGrowth(strs, cm, REG, val) == 0)
  {
    hide WithProp, Toks, Lookup, SubAt, Replace, Flat, Off, TotalCells, NodeOk, PropGrowth;
    var ts, m := Tree(root), WithProp(strs, cm, REG, val);
    BothApart(root, tm, cm, tc, cc);
    KidLength(cm);
    KidLength(cc);
    SubOk(root, 0, tm);
    WithPropOk(strs, cm, REG, val);
    NodeGrowth(strs, cm, REG, val);
    TreeOk(root);
    SubStands(root, tm, cm);
    SetIsTree(strs, root, tm, cm, REG, val);
    OffShifted(ts, tm, cm, m, tc);
  }

  lemma TreeOk(root: Node)
    requires NodeOk(root)
    ensures TokensOk(Tree(root))
  {
    hide Toks;
    ToksOk(root);
    TokensConcat(Toks(root), [End]);
  }

  // ---- fixup_dtb ----

  /** fdt_check, on a blob that starts with a node. */
  predicate CheckOk(b: seq<byte>)
    requires |b| >= HEADER
  {
    Hdr(b, 0) == FDT_MAGIC && Hdr(b, LAST_COMP) <= 17 && Hdr(b, VERSION) >= 17
  }

  method FdtCheck(b: seq<byte>, ghost ts: seq<Token>) returns (err: int)
    requires Encodes(b, ts) && ts != [] && ts[0].Begin?
    ensures err == if CheckOk(b) then 0 else FDT_ERR_BADMAGIC
  {
    hide Be32, Struct, Flat, TotalCells, Off, TokensOk;
    if Hdr(b, 0) != FDT_MAGIC { return FDT_ERR_BADMAGIC; }
    if Hdr(b, LAST_COMP) > 17 || Hdr(b, VERSION) < 17 { return FDT_ERR_BADMAGIC; }
    var tot: int := Hdr(b, TOTALSIZE);
    var so: int, ss: int := Hdr(b, OFF_STRUCT), Hdr(b, SIZE_STRUCT);
    var to: int, ts2: int := Hdr(b, OFF_STRINGS), Hdr(b, SIZE_STRINGS);
    if (so + ss) % WORD > tot || (to + ts2) % WORD > tot { return FDT_ERR_BADSTRUCT; }
    OffEnd(ts);
    var tag, next := NextTag(b, 0, ts, 0);
    err := if tag != FDT_BEGIN_NODE then FDT_ERR_BADSTRUCT else 0;
  }

  method CopyIn(a: array<byte>, dtb: seq<byte>)
    requires |dtb| <= a.Length
    modifies a
    ensures a[..|dtb|] == dtb && a[|dtb|..] == old(a[|dtb|..])
  {
    var i := 0;
    while i < |dtb|
      invariant 0 <= i <= |dtb| && a[..i] == dtb[..i] && a[|dtb|..] == old(a[|dtb|..])
    {
      a[i] := dtb[i];
      i := i + 1;
    }
  }

  /** A blob in a larger buffer is the same blob. */
  lemma BlobInBuffer(dtb: seq<byte>, b: seq<byte>, root: Node)
    requires Blob(dtb, root) && dtb <= b && |b| < LIMIT
    ensures Blob(b, root) && Strings(b) == Strings(dtb) && LayoutOk(b) == LayoutOk(dtb) && CheckOk(b) == CheckOk(dtb)
    ensures Hdr(b, TOTALSIZE) == Hdr(dtb, TOTALSIZE)
  {
    hide NodeOk, Tree, Flat, NamesOk, TokensOk;
    SamePrefix(dtb, b);
    assert Struct(b) == Struct(dtb);
    assert Strings(b) == Strings(dtb);
  }

  lemma SamePrefix(dtb: seq<byte>, b: seq<byte>)
    requires HEADER <= |dtb| && dtb <= b
    ensures forall f | 0 <= f <= SIZE_STRUCT :: Hdr(b, f) == Hdr(dtb, f)
  {
    assert forall i {:trigger b[i]} | 0 <= i < |dtb| :: b[i] == dtb[i];
  }

  function RegValue(ramSize: word): (r: seq<byte>)
    ensures |r| == 8
  {
    BeBytes(RAM_BASE) + BeBytes(ramSize)
  }

  /** The tree and its strings after each edit. */
  ghost function Root1(strs: seq<byte>, root: Node, tm: nat, cm: Node, ramSize: word): Node
    requires |strs| < WORD
  {
    SetAt(strs, root, tm, cm, REG, RegValue(ramSize))
  }

  ghost function Strs1(strs: seq<byte>, cm: Node): seq<byte> { strs + MoreStrings(strs, cm, REG) }

  /** No size changes under the offset of /chosen. */
  ghost predicate Steady(strs: seq<byte>, tm: nat, cm: Node, tc: nat) {
    tc < tm || PropGrowth(strs, cm, REG, RegValue(0)) == 0
  }

  /** What b holds after fixup_dtb of the blob of root with strings strs. */
  ghost predicate FixedUp(b: seq<byte>, strs: seq<byte>, root: Node, ramSize: word, cmdline: seq<byte>,
                          tm: nat, cm: Node, tc: nat, cc: Node)
  {
    && |strs| < WORD && |Strs1(strs, cm)| < WORD && Sized(b)
    && ChosenAt(strs, tm, cm, tc, RegValue(ramSize)) >= 0
    && NamesOk(strs, Tree(root)) && NamesOk(Strs1(strs, cm), Tree(Root1(strs, root, tm, cm, ramSize)))
    && Blob(b, Root2(strs, root, ramSize, cmdline, tm, cm, tc, cc))
    && Strings(b) == Strs2(strs, cm, cc)
  }

  ghost function Root2(strs: seq<byte>, root: Node, ramSize: word, cmdline: seq<byte>, tm: nat, cm: Node, tc: nat, cc: Node): Node
    requires |strs| < WORD && |Strs1(strs, cm)| < WORD && ChosenAt(strs, tm, cm, tc, RegValue(ramSize)) >= 0
  {
    SetAt(Strs1(strs, cm), Root1(strs, root, tm, cm, ramSize), ChosenAt(strs, tm, cm, tc, RegValue(ramSize)), cc, BOOTARGS, cmdline + [0])
  }

  ghost function Strs2(strs: seq<byte>, cm: Node, cc: Node): seq<byte> {
    Strs1(strs, cm) + MoreStrings(Strs1(strs, cm), cc, BOOTARGS)
  }

  /** How large the blob is after the first edit, and after both. */
  ghost function Size1(total: nat, strs: seq<byte>, cm: Node): int { total + Growth(strs, cm, REG, RegValue(0)) }

  ghost function Size2(total: nat, strs: seq<byte>, cm: Node, cc: Node, cmdline: seq<byte>): int {
    Size1(total, strs, cm) + Growth(Strs1(strs, cm), cc, BOOTARGS, cmdline + [0])
  }

  /** Only the length of a value matters. */
  lemma GrowthByLength(strs: seq<byte>, n: Node, name: seq<byte>, val: seq<byte>, other: seq<byte>)
    requires |val| == |other|
    ensures Growth(strs, n, name, val) == Growth(strs, n, name, other)
  {
  }

  /** Both edits fit. */
  ghost predicate Fits(total: nat, strs: seq<byte>, cm: Node, cc: Node, cmdline: seq<byte>) {
    Size1(total, strs, cm) <= DTB_AREA && Size2(total, strs, cm, cc, cmdline) <= DTB_AREA
  }

  lemma CompsOne(name: seq<byte>)
    requires name != [] && SLASH !in name
    ensures Comps([SLASH] + name) == [name]
  {
    var p := [SLASH] + name;
    assert p[1..] == name;
    var e := EndOfComp(name);
    assert e == |name|;
    assert name[..e] == name && name[e..] == [];
    assert Comps(name) == [name] + Comps([]);
    assert Comps(p) == Comps(name);
  }

  /** A tree after an edit, as the blob of the edited tree. */
  lemma SetBlob(b0: seq<byte>, b: seq<byte>, root: Node, t: nat, c: Node, name: seq<byte>, val: seq<byte>)
    requires Blob(b0, root) && SubAt(root, 0, t) == Some(c) && |val| < LIMIT && IsSet(b0, b, Tree(root), t, c, name, val)
    ensures Blob(b, SetAt(Strings(b0), root, t, c, name, val)) && LayoutOk(b)
    ensures Strings(b) == Strings(b0) + MoreStrings(Strings(b0), c, name)
  {
    hide Hdr, LayoutOk, NodeOk, Toks, WithProp, Struct, Strings, Flat, TokensOk, NamesOk, Replace, SubAt, At, MoreStrings;
    SetIsTree(Strings(b0), root, t, c, name, val);
    ReplaceOk(root, 0, t, WithProp(Strings(b0), c, name, val));
  }

  /** A node of a tree, in the blob of the tree. */
  lemma NodeInBlob(b: seq<byte>, root: Node, t: nat, c: Node)
    requires Blob(b, root) && SubAt(root, 0, t) == Some(c)
    ensures NodeAt(b, Tree(root), t, c)
  {
    hide Sized, NodeOk, Toks, Struct, Flat, TokensOk, NamesOk, SubAt, At;
    SubOk(root, 0, t);
    SubStands(root, t, c);
  }

  /** fixup_dtb: both offsets are found before the first edit. */
  method FixupDtb(a: array<byte>, dtb: seq<byte>, ramSize: word, cmdline: seq<byte>, ghost root: Node) returns (err: int)
    requires DTB_AREA <= a.Length < LIMIT && |dtb| <= DTB_AREA && Blob(dtb, root)
    requires 0 !in cmdline && |cmdline| + 1 < LIMIT
    requires var m, c := Lookup(root, 0, [MEMORY]), Lookup(root, 0, [CHOSEN]);
             m.Some? && c.Some? ==> Steady(Strings(dtb), m.value.0, m.value.1, c.value.0)
    modifies a
    ensures Within(old(a[..]), a[..], DTB_AREA)
    ensures !CheckOk(dtb) ==> err == FDT_ERR_BADMAGIC
    ensures var m, c := Lookup(root, 0, [MEMORY]), Lookup(root, 0, [CHOSEN]);
            && (CheckOk(dtb) && (m.None? || c.None?) ==> err == FDT_ERR_NOTFOUND)
            && (CheckOk(dtb) && m.Some? && c.Some? && !LayoutOk(dtb) ==> err == FDT_ERR_BADLAYOUT)
            && (CheckOk(dtb) && m.Some? && c.Some? && LayoutOk(dtb) ==>
                  if Fits(Hdr(dtb, TOTALSIZE), Strings(dtb), m.value.1, c.value.1, cmdline)
                  then err == 0 && FixedUp(a[..], Strings(dtb), root, ramSize, cmdline, m.value.0, m.value.1, c.value.0, c.value.1)
                  else err == FDT_ERR_NOSPACE)
  {
    hide Hdr, NodeOk, Struct, Strings, Flat, TokensOk, NamesOk, Lookup, Off, Within, FixedUp, LayoutOk, CheckOk, Steady, At;
    CopyIn(a, dtb);
    assert dtb <= a[..] by { assert a[..][..|dtb|] == dtb; }
    WithinCopy(old(a[..]), a[..], |dtb|);
    BlobInBuffer(dtb, a[..], root);
    RootStands(a[..], root);
    err := FdtCheck(a[..], Tree(root));
    if err != 0 { return; }
    var mem := FindChild(a[..], MEMORY, root);
    var chosen := FindChild(a[..], CHOSEN, root);
    if mem < 0 || chosen < 0 { return FDT_ERR_NOTFOUND; }
    ghost var m, c := Lookup(root, 0, [MEMORY]).value, Lookup(root, 0, [CHOSEN]).value;
    err := SetBoth(a, mem, chosen, ramSize, cmdline, root, m.0, m.1, c.0, c.1, old(a[..]));
  }

  /** fdt_path_offset of a child of the root. */
  method FindChild(b: seq<byte>, name: seq<byte>, ghost root: Node) returns (off: int)
    requires Blob(b, root) && name != [] && SLASH !in name && 0 !in name
    ensures var f := Lookup(root, 0, [name]);
            if f.None? then off < 0 else TokensOk(Tree(root)) && f.value.0 <= |Tree(root)| && off == Off(Tree(root), f.value.0)
  {
    hide Sized, NodeOk, Toks, Struct, Flat, TokensOk, NamesOk, Lookup, Off, TotalCells, At;
    RootStands(b, root);
    CompsOne(name);
    off := PathOffset(b, [SLASH] + name, Tree(root), root);
  }

  lemma WithinCopy(a: seq<byte>, b: seq<byte>, n: nat)
    requires n <= DTB_AREA <= |a| == |b| && b[n..] == a[n..]
    ensures Within(a, b, DTB_AREA)
  {
    assert b[DTB_AREA..] == b[n..][DTB_AREA - n..];
  }

  lemma RootStands(b: seq<byte>, root: Node)
    requires Blob(b, root)
    ensures NodeAt(b, Tree(root), 0, root) && Tree(root) != [] && Tree(root)[0].Begin?
  {
    hide Sized, Struct, Flat, TokensOk, NodeOk, NamesOk, KidToks;
    assert Tree(root)[0..|Toks(root)|] == Toks(root);
  }

  /** The two edits, at the offsets found before them. */
  method SetBoth(a: array<byte>, mem: nat, chosen: nat, ramSize: word, cmdline: seq<byte>, ghost root: Node,
                 ghost tm: nat, ghost cm: Node, ghost tc: nat, ghost cc: Node, ghost was: seq<byte>) returns (err: int)
    requires DTB_AREA <= a.Length && Blob(a[..], root) && Hdr(a[..], TOTALSIZE) <= DTB_AREA
    requires Both(root, tm, cm, tc, cc) && tm <= |Tree(root)| && tc <= |Tree(root)| && mem == Off(Tree(root), tm) && chosen == Off(Tree(root), tc)
    requires 0 !in cmdline && |cmdline| + 1 < LIMIT && Steady(Strings(a[..]), tm, cm, tc) && Within(was, a[..], DTB_AREA)
    modifies a
    ensures !LayoutOk(old(a[..])) ==> err == FDT_ERR_BADLAYOUT
    ensures LayoutOk(old(a[..])) ==>
              if Fits(Hdr(old(a[..]), TOTALSIZE), Strings(old(a[..])), cm, cc, cmdline)
              then err == 0 && FixedUp(a[..], Strings(old(a[..])), root, ramSize, cmdline, tm, cm, tc, cc)
              else err == FDT_ERR_NOSPACE
    ensures Within(was, a[..], DTB_AREA)
  {
    hide Hdr, NodeOk, Toks, Struct, Strings, Flat, TotalCells, TokensOk, NamesOk, Lookup, Off, Within, LayoutOk, At,
         IsSet, SubAt, Replace, WithProp, MoreStrings, Growth, Kept;
    ghost var b0, strs, reg := a[..], Strings(a[..]), RegValue(ramSize);
    BothApart(root, tm, cm, tc, cc);
    NodeInBlob(a[..], root, tm, cm);
    GrowthByLength(strs, cm, REG, reg, RegValue(0));
    err := SetProp(a, DTB_AREA, mem, REG, RegValue(ramSize), Tree(root), tm, cm);
    WithinMore(was, b0, a[..], DTB_AREA);
    if err != 0 { return; }
    ghost var b1, root1, k := a[..], Root1(strs, root, tm, cm, ramSize), ChosenAt(strs, tm, cm, tc, reg);
    SetBlob(b0, b1, root, tm, cm, REG, reg);
    StillThere(b1, strs, root, tm, cm, tc, cc, ramSize);
    err := SetProp(a, DTB_AREA, chosen, BOOTARGS, cmdline + [0], Tree(root1), k, cc);
    WithinMore(was, b1, a[..], DTB_AREA);
    if err != 0 { return; }
    SetBlob(b1, a[..], root1, k, cc, BOOTARGS, cmdline + [0]);
  }

  /** /chosen is still where it was found. */
  lemma StillThere(b: seq<byte>, strs: seq<byte>, root: Node, tm: nat, cm: Node, tc: nat, cc: Node, ramSize: word)
    requires |strs| < WORD && NodeOk(root) && Both(root, tm, cm, tc, cc) && Steady(strs, tm, cm, tc)
    requires Blob(b, Root1(strs, root, tm, cm, ramSize))
    ensures var k, root1 := ChosenAt(strs, tm, cm, tc, RegValue(ramSize)), Root1(strs, root, tm, cm, ramSize);
            && k >= 0 && NodeAt(b, Tree(root1), k, cc) && SubAt(root1, 0, k) == Some(cc) && k <= |Tree(root1)|
            && TokensOk(Tree(root)) && tc <= |Tree(root)| && Off(Tree(root1), k) == Off(Tree(root), tc)
  {
    hide Sized, NodeOk, Toks, Struct, Flat, TokensOk, NamesOk, SubAt, At, Lookup, Off, TotalCells, WithProp, Replace, RegValue;
    var root1 := Root1(strs, root, tm, cm, ramSize);
    ChosenFound(strs, root, tm, cm, tc, cc, RegValue(ramSize));
    LookupIsSub(root1, 0, [CHOSEN]);
    NodeInBlob(b, root1, ChosenAt(strs, tm, cm, tc, RegValue(ramSize)), cc);
    OffsetStays(strs, root, tm, cm, tc, cc, RegValue(ramSize));
  }

  /** After fixup_dtb the memory's size and the command line read as they were set, and
      every other property of every node as before. */
  lemma FixupLaw(strs: seq<byte>, root: Node, ramSize: word, cmdline: seq<byte>, tm: nat, cm: Node, tc: nat, cc: Node,
                 comps: seq<seq<byte>>, name: seq<byte>)
    requires |strs| < WORD && |Strs1(strs, cm)| < WORD && Both(root, tm, cm, tc, cc) && NamesOk(strs, Tree(root))
    requires ChosenAt(strs, tm, cm, tc, RegValue(ramSize)) >= 0
    requires NamesOk(Strs1(strs, cm), Tree(Root1(strs, root, tm, cm, ramSize)))
    ensures Read(Strs2(strs, cm, cc), Root2(strs, root, ramSize, cmdline, tm, cm, tc, cc), comps, name) ==
            if Lookup(root, 0, comps) == Some((tc, cc)) && name == BOOTARGS then Some(cmdline + [0])
            else if Lookup(root, 0, comps) == Some((tm, cm)) && name == REG then Some(RegValue(ramSize))
            else Read(strs, root, comps, name)
  {
    hide NamesOk, MoreStrings, Tree, Toks, FindProp, Lookup, SubAt, WithProp, Replace, Read, RegValue;
    var reg, strs1, root1, k := RegValue(ramSize), Strs1(strs, cm), Root1(strs, root, tm, cm, ramSize), ChosenAt(strs, tm, cm, tc, RegValue(ramSize));
    BothApart(root, tm, cm, tc, cc);
    KidLength(cm);
    KidLength(cc);
    SetPropLaw(strs, root, tm, cm, REG, reg, comps, name);
    ChosenFound(strs, root, tm, cm, tc, cc, reg);
    LookupIsSub(root1, 0, [CHOSEN]);
    SetPropLaw(strs1, root1, k, cc, BOOTARGS, cmdline + [0], comps, name);
    SamePlace(strs, root, tm, cm, tc, cc, reg, comps);
    assert REG != BOOTARGS;
  }

  /** What fixup_dtb leaves in the buffer reads so. */
  lemma FixedUpReads(b: seq<byte>, strs: seq<byte>, root: Node, ramSize: word, cmdline: seq<byte>, tm: nat, cm: Node, tc: nat, cc: Node,
                     comps: seq<seq<byte>>, name: seq<byte>)
    requires FixedUp(b, strs, root, ramSize, cmdline, tm, cm, tc, cc) && Both(root, tm, cm, tc, cc)
    ensures var after := Root2(strs, root, ramSize, cmdline, tm, cm, tc, cc);
            && Blob(b, after)
            && Read(Strings(b), after, comps, name) ==
               if Lookup(root, 0, comps) == Some((tc, cc)) && name == BOOTARGS then Some(cmdline + [0])
               else if Lookup(root, 0, comps) == Some((tm, cm)) && name == REG then Some(RegValue(ramSize))
               else Read(strs, root, comps, name)
  {
    hide Blob, Read, Lookup, NamesOk, Tree, Strings;
    FixupLaw(strs, root, ramSize, cmdline, tm, cm, tc, cc, comps, name);
  }

  /** A path leads to /chosen after the first edit exactly when it did before. */
  lemma SamePlace(strs: seq<byte>, root: Node, tm: nat, cm: Node, tc: nat, cc: Node, val: seq<byte>, comps: seq<seq<byte>>)
    requires |strs| < WORD && Both(root, tm, cm, tc, cc)
    ensures Lookup(SetAt(strs, root, tm, cm, REG, val), 0, comps) == Some((ChosenAt(strs, tm, cm, tc, val), cc))
            <==> Lookup(root, 0, comps) == Some((tc, cc))
  {
    hide Toks, Lookup, SubAt, WithProp, Replace;
    BothApart(root, tm, cm, tc, cc);
    KidLength(cm);
    KidLength(cc);
    TokenGrowth(strs, cm, REG, val);
    PathsAfter(strs, root, tm, cm, val, comps);
    LookupIsSub(root, 0, comps);
  }
}
