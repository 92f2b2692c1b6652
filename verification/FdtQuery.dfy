/** Queries on a blob: the token walk follows the tree. */
module FdtQuery {
  import opened Basics
  import opened Bytes
  import opened FdtTokens
  import opened FdtTree
  import opened FdtWalk

  const FDT_ERR_NOTFOUND := -1
  const FDT_ERR_BADMAGIC := -2
  const FDT_ERR_BADSTRUCT := -3
  const FDT_ERR_NOSPACE := -4
  const FDT_ERR_BADLAYOUT := -5

  /** The node n stands at token k of the blob b. */
  ghost predicate NodeAt(b: seq<byte>, ts: seq<Token>, k: nat, n: Node) {
    Encodes(b, ts) && NodeOk(n) && At(ts, k, Toks(n))
  }

  // ---- nodes ----

  /** No token of a node ends the block. */
  lemma {:induction false} NoEnd(n: Node, i: nat)
    requires NodeOk(n) && i < |Toks(n)|
    ensures !Toks(n)[i].End?
    decreases n, 1
  {
    var p := |n.props|;
    if 1 + p <= i < |Toks(n)| - 1 { NoEndKids(n.kids, i - 1 - p); }
  }

  lemma {:induction false} NoEndKids(ks: Kids, i: nat)
    requires KidsOk(ks) && i < |KidToks(ks)|
    ensures !KidToks(ks)[i].End?
    decreases ks, 0
  {
    match ks {
      case Skip(rest) => if i > 0 { NoEndKids(rest, i - 1); }
      case Kid(node, rest) => if i < |Toks(node)| { NoEnd(node, i); } else { NoEndKids(rest, i - |Toks(node)|); }
    }
  }

  /** skip_node: just past the matching END_NODE. */
  method SkipNode(b: seq<byte>, node: int, ghost ts: seq<Token>, ghost k: nat, ghost n: Node) returns (off: int)
    requires NodeAt(b, ts, k, n) && node == Off(ts, k)
    ensures k + |Toks(n)| <= |ts| && off == Off(ts, k + |Toks(n)|)
  {
    hide Sized, Struct, Flat, TokensOk, Off, TotalCells, Toks, NodeOk;
    var depth := 0;
    off := node;
    ghost var j := 0;
    NodeDepth(n, 0);
    while true
      invariant 0 <= j < |Toks(n)| && off == Off(ts, k + j) && depth == Depth(Toks(n), j)
      decreases |Toks(n)| - j
    {
      AtElem(ts, k, Toks(n), j);
      NoEnd(n, j);
      var tag, next := NextTag(b, off, ts, k + j);
      if tag == FDT_BEGIN_NODE { depth := depth + 1; }
      else if tag == FDT_END_NODE { depth := depth - 1; }
      else if tag == FDT_END { return FDT_ERR_BADSTRUCT; }
      off := next;
      j := j + 1;
      DepthStep(Toks(n), j);
      NodeDepth(n, j);
      if depth <= 0 { break; }
    }
  }

  /** The first of some children, where the tokens of all of them start at token k: its
      token, the node, and the children after it. */
  function FirstKid(ks: Kids, k: nat): Option<(nat, Node, Kids)> {
    match ks
    case Last => None
    case Skip(rest) => FirstKid(rest, k + 1)
    case Kid(node, rest) => Some((k, node, rest))
  }

  /** Children ks, and then the end of their parent, stand at token k. */
  ghost predicate KidsAt(b: seq<byte>, ts: seq<Token>, k: nat, ks: Kids) {
    Encodes(b, ts) && KidsOk(ks) && At(ts, k, KidToks(ks) + [EndNode])
  }

  lemma FirstKidAt(b: seq<byte>, ts: seq<Token>, k: nat, ks: Kids)
    requires KidsAt(b, ts, k, ks)
    ensures k < |ts|
    ensures ks.Last? ==> ts[k] == EndNode
    ensures ks.Skip? ==> ts[k] == Nop && KidsAt(b, ts, k + 1, ks.rest)
    ensures ks.Kid? ==> ts[k].Begin? && NodeAt(b, ts, k, ks.node) && KidsAt(b, ts, k + |Toks(ks.node)|, ks.rest)
  {
    hide Encodes;
    var sub := KidToks(ks) + [EndNode];
    AtElem(ts, k, sub, 0);
    match ks {
      case Last =>
      case Skip(rest) =>
        assert sub == [Nop] + (KidToks(rest) + [EndNode]);
        AtParts(ts, k, [Nop], KidToks(rest) + [EndNode]);
      case Kid(node, rest) =>
        assert sub == Toks(node) + (KidToks(rest) + [EndNode]);
        AtParts(ts, k, Toks(node), KidToks(rest) + [EndNode]);
    }
  }

  /** off is where a child found by FirstKid starts, or says that there is none. */
  ghost predicate Subnode(b: seq<byte>, ts: seq<Token>, f: Option<(nat, Node, Kids)>, off: int) {
    match f
    case None => off == FDT_ERR_NOTFOUND
    case Some((i, n, rest)) =>
      i < |ts| && NodeAt(b, ts, i, n) && KidsAt(b, ts, i + |Toks(n)|, rest) && off == Off(ts, i)
  }

  /** The end of both subnode queries: past NOPs to a BEGIN_NODE, if one comes. */
  method ToSubnode(b: seq<byte>, from: int, ghost ts: seq<Token>, ghost k: nat, ghost ks: Kids) returns (off: int)
    requires KidsAt(b, ts, k, ks) && from == Off(ts, k)
    ensures Subnode(b, ts, FirstKid(ks, k), off)
  {
    hide Sized, Struct, Flat, TokensOk, Off, TotalCells, Toks, KidToks, NodeOk, KidsAt, NodeAt;
    off := from;
    ghost var i: nat, rest := k, ks;
    Unpack(b, ts, k, ks);
    FirstKidAt(b, ts, i, rest);
    var tag, next := NextTag(b, off, ts, i);
    while tag == FDT_NOP
      invariant KidsAt(b, ts, i, rest) && i < |ts| && Encodes(b, ts) && FirstKid(rest, i) == FirstKid(ks, k)
      invariant off == Off(ts, i) && tag == Tag(ts[i]) && next == Off(ts, i + 1)
      decreases rest
    {
      FirstKidAt(b, ts, i, rest);
      off := next;
      i, rest := i + 1, rest.rest;
      FirstKidAt(b, ts, i, rest);
      tag, next := NextTag(b, off, ts, i);
    }
    FirstKidAt(b, ts, i, rest);
    if tag != FDT_BEGIN_NODE { off := FDT_ERR_NOTFOUND; }
  }

  lemma Unpack(b: seq<byte>, ts: seq<Token>, k: nat, ks: Kids)
    requires KidsAt(b, ts, k, ks)
    ensures Encodes(b, ts)
  {
  }

  /** fdt_next_subnode: the next sibling, where rest are the children after n. */
  method NextSubnode(b: seq<byte>, node: int, ghost ts: seq<Token>, ghost k: nat, ghost n: Node, ghost rest: Kids) returns (off: int)
    requires NodeAt(b, ts, k, n) && KidsAt(b, ts, k + |Toks(n)|, rest) && node == Off(ts, k)
    ensures Subnode(b, ts, FirstKid(rest, k + |Toks(n)|), off)
  {
    hide Sized, Struct, Flat, TokensOk, Off, TotalCells, Toks, KidToks, NodeOk, KidsAt, Subnode, FirstKid;
    off := SkipNode(b, node, ts, k, n);
    OffWithin(ts, k + |Toks(n)|);
    if off < 0 { return; }
    off := ToSubnode(b, off, ts, k + |Toks(n)|, rest);
  }

  /** fdt_first_subnode */
  method FirstSubnode(b: seq<byte>, node: int, ghost ts: seq<Token>, ghost k: nat, ghost n: Node) returns (off: int)
    requires NodeAt(b, ts, k, n) && node == Off(ts, k)
    ensures Subnode(b, ts, FirstKid(n.kids, k + 1 + |n.props|), off)
  {
    hide Sized, Struct, Flat, TokensOk, Off, TotalCells, Toks, KidToks, KidsAt, At;
    NodeParts(ts, k, n);
    KidsOfNode(b, ts, k, n);
    var tag, next := NextTag(b, node, ts, k);
    if tag != FDT_BEGIN_NODE { return FDT_ERR_BADSTRUCT; }
    off := SkipProps(b, next, ts, k + 1, n.props, n.kids);
    ghost var i := Settle(n.kids, k + 1 + |n.props|);
    Settled(b, ts, k + 1 + |n.props|, n.kids);
    tag, next := NextTag(b, off, ts, i);
    if tag != FDT_BEGIN_NODE { off := FDT_ERR_NOTFOUND; }
  }

  /** The first token from k on that is not a NOP. */
  function Settle(ks: Kids, k: nat): nat { if ks.Skip? then Settle(ks.rest, k + 1) else k }

  lemma {:induction false} Settled(b: seq<byte>, ts: seq<Token>, k: nat, ks: Kids)
    requires KidsAt(b, ts, k, ks)
    ensures var i, f := Settle(ks, k), FirstKid(ks, k);
            && i < |ts| && (f.None? ==> ts[i] == EndNode)
            && (f.Some? ==> f.value.0 == i && ts[i].Begin? && NodeAt(b, ts, i, f.value.1) && KidsAt(b, ts, i + |Toks(f.value.1)|, f.value.2))
    decreases ks
  {
    hide KidsAt, NodeAt, Toks;
    FirstKidAt(b, ts, k, ks);
    if ks.Skip? { Settled(b, ts, k + 1, ks.rest); }
  }

  /** skip_props: past all properties, and NOPs wherever they stand. */
  method SkipProps(b: seq<byte>, from: int, ghost ts: seq<Token>, ghost k: nat, ghost props: seq<Token>, ghost ks: Kids)
    returns (off: int)
    requires Encodes(b, ts) && At(ts, k, props) && (forall i | 0 <= i < |props| :: PropItem(props[i]))
    requires KidsAt(b, ts, k + |props|, ks) && from == Off(ts, k)
    ensures Settle(ks, k + |props|) <= |ts| && off == Off(ts, Settle(ks, k + |props|))
  {
    hide Sized, Struct, Flat, TokensOk, Off, TotalCells, Toks, KidToks, KidsAt, At, TokenOk;
    off := from;
    ghost var i, rest := 0, ks;
    if props == [] { FirstKidAt(b, ts, k, ks); } else { AtElem(ts, k, props, 0); }
    var tag, next := NextTag(b, off, ts, k);
    while tag == FDT_PROP || tag == FDT_NOP
      invariant 0 <= i && k + i < |ts| && off == Off(ts, k + i) && tag == Tag(ts[k + i]) && next == Off(ts, k + i + 1)
      invariant i < |props| ==> rest == ks
      invariant i >= |props| ==> KidsAt(b, ts, k + i, rest) && Settle(rest, k + i) == Settle(ks, k + |props|)
      decreases if i < |props| then |props| - i else 0, rest
    {
      if i >= |props| {
        FirstKidAt(b, ts, k + i, rest);
        rest := rest.rest;
      }
      off := next;
      i := i + 1;
      if i < |props| { AtElem(ts, k, props, i); } else { FirstKidAt(b, ts, k + i, rest); }
      tag, next := NextTag(b, off, ts, k + i);
    }
    if i < |props| { AtElem(ts, k, props, i); } else { FirstKidAt(b, ts, k + i, rest); }
  }

  lemma KidsOfNode(b: seq<byte>, ts: seq<Token>, k: nat, n: Node)
    requires NodeAt(b, ts, k, n)
    ensures KidsAt(b, ts, k + 1 + |n.props|, n.kids)
  {
    hide Encodes;
    var a, c := [Begin(n.name)] + n.props, KidToks(n.kids) + [EndNode];
    assert Toks(n) == a + c;
    AtParts(ts, k, a, c);
  }

  // ---- properties ----

  /** The first property from i on, past NOPs. */
  function NextP(props: seq<Token>, i: nat): (r: Option<nat>)
    ensures r.Some? ==> i <= r.value < |props| && props[r.value].Prop?
    decreases |props| - i
  {
    if i >= |props| then None else if props[i].Prop? then Some(i) else NextP(props, i + 1)
  }

  /** off is where a property found by NextP starts, or says that there is none. */
  ghost predicate PropFound(ts: seq<Token>, k: nat, props: seq<Token>, r: Option<nat>, off: int) {
    TokensOk(ts) && At(ts, k, props) &&
    if r.None? || r.value >= |props| then off == FDT_ERR_NOTFOUND else off == Off(ts, k + r.value)
  }

  /** The end of both property queries. */
  method ToProp(b: seq<byte>, from: int, ghost ts: seq<Token>, ghost k: nat, ghost props: seq<Token>, ghost ks: Kids, ghost i: nat)
    returns (off: int)
    requires Encodes(b, ts) && At(ts, k, props) && (forall j | 0 <= j < |props| :: PropItem(props[j]))
    requires KidsAt(b, ts, k + |props|, ks) && i <= |props| && k + i <= |ts| && from == Off(ts, k + i)
    ensures PropFound(ts, k, props, NextP(props, i), off)
  {
    hide Sized, Struct, Flat, TokensOk, Off, TotalCells, Toks, KidToks, KidsAt, At, TokenOk;
    off := from;
    ghost var j: nat, rest := i, ks;
    if j < |props| { AtElem(ts, k, props, j); } else { FirstKidAt(b, ts, k + j, rest); }
    var tag, next := NextTag(b, off, ts, k + j);
    while tag == FDT_NOP
      invariant i <= j && k + j < |ts| && off == Off(ts, k + j) && tag == Tag(ts[k + j]) && next == Off(ts, k + j + 1)
      invariant NextP(props, j) == NextP(props, i)
      invariant j < |props| ==> rest == ks && ts[k + j] == props[j]
      invariant j >= |props| ==> KidsAt(b, ts, k + j, rest)
      decreases if j < |props| then |props| - j else 0, rest
    {
      if j >= |props| {
        FirstKidAt(b, ts, k + j, rest);
        rest := rest.rest;
      }
      off := next;
      j := j + 1;
      if j < |props| { AtElem(ts, k, props, j); } else { FirstKidAt(b, ts, k + j, rest); }
      tag, next := NextTag(b, off, ts, k + j);
    }
    if j >= |props| { FirstKidAt(b, ts, k + j, rest); }
    if tag != FDT_PROP { off := FDT_ERR_NOTFOUND; }
  }

  lemma PropsOk(n: Node)
    requires NodeOk(n)
    ensures forall j | 0 <= j < |n.props| :: PropItem(n.props[j])
  {
  }

  /** fdt_first_prop */
  method FirstProp(b: seq<byte>, node: int, ghost ts: seq<Token>, ghost k: nat, ghost n: Node) returns (off: int)
    requires NodeAt(b, ts, k, n) && node == Off(ts, k)
    ensures PropFound(ts, k + 1, n.props, NextP(n.props, 0), off)
  {
    hide Sized, Struct, Flat, TokensOk, Off, TotalCells, Toks, NodeOk, At, KidsAt, PropItem;
    NodeParts(ts, k, n);
    KidsOfNode(b, ts, k, n);
    PropsOk(n);
    var tag, next := NextTag(b, node, ts, k);
    if tag != FDT_BEGIN_NODE { return FDT_ERR_BADSTRUCT; }
    off := ToProp(b, next, ts, k + 1, n.props, n.kids, 0);
  }

  /** fdt_next_prop */
  method NextProp(b: seq<byte>, prop: int, ghost ts: seq<Token>, ghost k: nat, ghost n: Node, ghost i: nat) returns (off: int)
    requires NodeAt(b, ts, k, n) && i < |n.props| && k + 1 + i < |ts| && prop == Off(ts, k + 1 + i)
    ensures PropFound(ts, k + 1, n.props, NextP(n.props, i + 1), off)
  {
    hide Sized, Struct, Flat, TokensOk, Off, TotalCells, Toks, NodeOk, At, KidsAt, PropItem;
    NodeParts(ts, k, n);
    KidsOfNode(b, ts, k, n);
    PropsOk(n);
    var tag, next := NextTag(b, prop, ts, k + 1 + i);
    off := ToProp(b, next, ts, k + 1, n.props, n.kids, i + 1);
  }

  // ---- names ----

  /** The zero-terminated string at o. */
  function NameAt(strs: seq<byte>, o: nat): (s: seq<byte>)
    ensures 0 !in s
    decreases |strs| - o
  {
    if o >= |strs| || strs[o] == 0 then [] else [strs[o]] + NameAt(strs, o + 1)
  }

  /** A string starts at o and ends inside the block. */
  predicate NameOk(strs: seq<byte>, o: nat) { exists e | o <= e < |strs| :: strs[e] == 0 }

  predicate NamesOk(strs: seq<byte>, ts: seq<Token>) {
    forall i | 0 <= i < |ts| && ts[i].Prop? :: NameOk(strs, ts[i].nameoff)
  }

  lemma {:induction false} NameEnds(strs: seq<byte>, o: nat)
    requires NameOk(strs, o)
    ensures o + |NameAt(strs, o)| < |strs| && strs[o + |NameAt(strs, o)|] == 0
    ensures strs[o..o + |NameAt(strs, o)|] == NameAt(strs, o)
    decreases |strs| - o
  {
    var e :| o <= e < |strs| && strs[e] == 0;
    if strs[o] != 0 {
      assert o + 1 <= e;
      NameEnds(strs, o + 1);
      var s := NameAt(strs, o + 1);
      assert strs[o..o + 1 + |s|] == [strs[o]] + strs[o + 1..o + 1 + |s|];
    }
  }

  /** strcmp of a string of the block with a string that has no zero in it. */
  method SameName(strs: seq<byte>, o: nat, name: seq<byte>) returns (same: bool)
    requires NameOk(strs, o) && 0 !in name
    ensures same <==> NameAt(strs, o) == name
  {
    NameEnds(strs, o);
    ghost var s := NameAt(strs, o);
    var i := 0;
    while strs[o + i] != 0 && i < |name| && strs[o + i] == name[i]
      invariant 0 <= i <= |s| && i <= |name| && s[..i] == name[..i]
      decreases |s| - i
    {
      assert strs[o..o + |s|][i] == s[i];
      i := i + 1;
    }
    same := strs[o + i] == if i < |name| then name[i] else 0;
    if i < |s| { assert strs[o..o + |s|][i] == s[i]; }
    if same {
      assert i == |s| == |name|;
      assert s[..i] == s && name[..i] == name;
    } else if i < |s| && i < |name| {
      assert s[i] != name[i];
    }
  }

  /** The first property with a name, from i on. */
  function FindProp(strs: seq<byte>, props: seq<Token>, name: seq<byte>, i: nat): (r: Option<nat>)
    ensures r.Some? ==> i <= r.value < |props| && props[r.value].Prop? && NameAt(strs, props[r.value].nameoff) == name
    decreases |props| - i
  {
    if i >= |props| then None
    else if props[i].Prop? && NameAt(strs, props[i].nameoff) == name then Some(i)
    else FindProp(strs, props, name, i + 1)
  }

  /** Token j is a property with the name. */
  ghost predicate NamedAt(strs: seq<byte>, props: seq<Token>, name: seq<byte>, j: nat) {
    j < |props| && props[j].Prop? && NameAt(strs, props[j].nameoff) == name
  }

  /** The property found is the first with the name, and none is found exactly when none has it. */
  lemma {:induction false} FindPropMeans(strs: seq<byte>, props: seq<Token>, name: seq<byte>, i: nat)
    ensures var r := FindProp(strs, props, name, i);
            && (r.None? <==> forall j | i <= j :: !NamedAt(strs, props, name, j))
            && (r.Some? ==> NamedAt(strs, props, name, r.value) && forall j | i <= j < r.value :: !NamedAt(strs, props, name, j))
    decreases |props| - i
  {
    hide NameAt;
    if i < |props| {
      FindPropMeans(strs, props, name, i + 1);
      assert NamedAt(strs, props, name, i) || !NamedAt(strs, props, name, i);
    }
  }

  /** Looking from the next property on is looking from here on. */
  lemma {:induction false} FindNext(strs: seq<byte>, props: seq<Token>, name: seq<byte>, i: nat)
    ensures FindProp(strs, props, name, i) ==
            if NextP(props, i).None? then None else FindProp(strs, props, name, NextP(props, i).value)
    decreases |props| - i
  {
    if i < |props| && !props[i].Prop? { FindNext(strs, props, name, i + 1); }
  }

  /** Where a property's parts are. */
  lemma PropParts(b: seq<byte>, ts: seq<Token>, k: nat)
    requires Encodes(b, ts) && k < |ts| && ts[k].Prop?
    ensures var at := Hdr(b, OFF_STRUCT) as int + Off(ts, k);
            && |ts[k].val| < LIMIT && at + 12 + |ts[k].val| <= |b|
            && b[at..at + 4] == BeBytes(FDT_PROP) && b[at + 4..at + 8] == BeBytes(|ts[k].val|)
            && b[at + 8..at + 12] == BeBytes(ts[k].nameoff)
            && b[at + 12..at + 12 + |ts[k].val|] == ts[k].val
  {
    hide Struct, Flat, Off, TotalCells, BeBytes, Be32, Padded, TokensOk, Body;
    TokensTake(ts, k);
    TokenBytes(b, ts, k);
    var at := Hdr(b, OFF_STRUCT) as int + Off(ts, k);
    PropBytes(b, at + 4, ts[k].nameoff, ts[k].val);
  }

  /** fdt_prop_value: where the value is, its length, and where the name is. */
  method PropValue(b: seq<byte>, prop: int, ghost ts: seq<Token>, ghost k: nat) returns (at: int, len: int, nameoff: word)
    requires Encodes(b, ts) && k < |ts| && ts[k].Prop? && prop == Off(ts, k)
    ensures nameoff == ts[k].nameoff && len == |ts[k].val|
    ensures at == Hdr(b, OFF_STRUCT) as int + prop + 12 && 0 <= at && at + len <= |b| && b[at..at + len] == ts[k].val
  {
    hide Struct, Flat, Off, TotalCells, BeBytes, Be32;
    PropParts(b, ts, k);
    var p: int := Hdr(b, OFF_STRUCT) + prop;
    len := BeAt(b, p + 4, |ts[k].val|);
    nameoff := BeAt(b, p + 8, ts[k].nameoff);
    at := p + 12;
  }

  ghost predicate Named(b: seq<byte>, ts: seq<Token>) { Sized(b) && NamesOk(Strings(b), ts) }

  /** The loop of fdt_getprop and of fdt_setprop: the first property with a name. */
  method SeekProp(b: seq<byte>, node: int, name: seq<byte>, ghost ts: seq<Token>, ghost k: nat, ghost n: Node) returns (prop: int, len: int)
    requires NodeAt(b, ts, k, n) && Named(b, ts) && node == Off(ts, k) && 0 !in name
    ensures PropFound(ts, k + 1, n.props, FindProp(Strings(b), n.props, name, 0), prop)
    ensures var r := FindProp(Strings(b), n.props, name, 0); r.Some? ==> len == |n.props[r.value].val|
  {
    hide Sized, Struct, Flat, TokensOk, Off, TotalCells, Toks, NodeOk, NameOk, NameAt, At, Strings, FindProp, NextP,
         PropFound, NamesOk;
    var strs := Strings(b);
    ghost var i := NextP(n.props, 0);
    FindNext(strs, n.props, name, 0);
    prop := FirstProp(b, node, ts, k, n);
    len := 0;
    while prop >= 0
      invariant PropFound(ts, k + 1, n.props, i, prop)
      invariant FindProp(strs, n.props, name, 0) == if i.None? then None else FindProp(strs, n.props, name, i.value)
      invariant i.Some? ==> i.value < |n.props| && n.props[i.value].Prop?
      decreases if i.None? then 0 else |n.props| - i.value, prop
    {
      PropFoundAt(ts, k + 1, n.props, i, prop);
      var at, nameoff;
      at, len, nameoff := PropValue(b, prop, ts, k + 1 + i.value);
      NameOfToken(strs, ts, k + 1 + i.value);
      var same := SameName(strs, nameoff, name);
      FindHere(strs, n.props, name, i.value);
      if same { return; }
      FindNext(strs, n.props, name, i.value + 1);
      prop := NextProp(b, prop, ts, k, n, i.value);
      i := NextP(n.props, i.value + 1);
    }
    PropFoundAt(ts, k + 1, n.props, i, prop);
  }

  lemma FindHere(strs: seq<byte>, props: seq<Token>, name: seq<byte>, i: nat)
    requires i < |props| && props[i].Prop?
    ensures FindProp(strs, props, name, i) ==
            if NameAt(strs, props[i].nameoff) == name then Some(i) else FindProp(strs, props, name, i + 1)
  {
  }

  lemma PropFoundAt(ts: seq<Token>, k: nat, props: seq<Token>, r: Option<nat>, off: int)
    requires PropFound(ts, k, props, r, off) && (r.Some? ==> r.value < |props|)
    ensures r.Some? <==> off >= 0
    ensures r.Some? ==> TokensOk(ts) && k + r.value < |ts| && ts[k + r.value] == props[r.value] && off == Off(ts, k + r.value)
  {
    hide TokensOk, Off;
    if r.Some? { AtElem(ts, k, props, r.value); }
  }

  lemma NameOfToken(strs: seq<byte>, ts: seq<Token>, i: nat)
    requires NamesOk(strs, ts) && i < |ts| && ts[i].Prop?
    ensures NameOk(strs, ts[i].nameoff)
  {
  }

  /** fdt_getprop */
  method GetProp(b: seq<byte>, node: int, name: seq<byte>, ghost ts: seq<Token>, ghost k: nat, ghost n: Node)
    returns (v: Option<(nat, nat)>)
    requires NodeAt(b, ts, k, n) && Named(b, ts) && node == Off(ts, k) && 0 !in name
    ensures var r := FindProp(Strings(b), n.props, name, 0);
            && v.Some? == r.Some?
            && (r.Some? ==> v.value.0 + v.value.1 <= |b| && b[v.value.0..v.value.0 + v.value.1] == n.props[r.value].val)
  {
    hide Sized, Struct, Flat, TokensOk, Off, TotalCells, Toks, NodeOk, NameOk, NameAt, At, Strings, FindProp, PropFound, NamesOk;
    ghost var r := FindProp(Strings(b), n.props, name, 0);
    var prop, len := SeekProp(b, node, name, ts, k, n);
    PropFoundAt(ts, k + 1, n.props, r, prop);
    if prop < 0 { return None; }
    var at, _, nameoff := PropValue(b, prop, ts, k + 1 + r.value);
    v := Some((at, len));
  }
}
