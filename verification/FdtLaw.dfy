/** Setting a property as an operation on the tree: every property of every node reads as
    before, except the one that was set. */
module FdtLaw {
  import opened Basics
  import opened Bytes
  import opened FdtTokens
  import opened FdtTree
  import opened FdtQuery
  import opened FdtPath
  import opened FdtSetProp

  // ---- nodes by their tokens ----

  /** The node that starts at token t, in a node that starts at token k. */
  function SubAt(n: Node, k: nat, t: nat): Option<Node>
    decreases n, 1
  {
    if t == k then Some(n) else SubKids(n.kids, k + 1 + |n.props|, t)
  }

  function SubKids(ks: Kids, k: nat, t: nat): Option<Node>
    decreases ks, 0
  {
    match ks
    case Last => None
    case Skip(rest) => SubKids(rest, k + 1, t)
    case Kid(n, rest) => if t < k then None else if t < k + |Toks(n)| then SubAt(n, k, t) else SubKids(rest, k + |Toks(n)|, t)
  }

  /** The same tree with the node at token t replaced. */
  function Replace(n: Node, k: nat, t: nat, m: Node): Node
    decreases n, 1
  {
    if t == k then m else n.(kids := ReplaceKids(n.kids, k + 1 + |n.props|, t, m))
  }

  function ReplaceKids(ks: Kids, k: nat, t: nat, m: Node): Kids
    decreases ks, 0
  {
    match ks
    case Last => Last
    case Skip(rest) => Skip(ReplaceKids(rest, k + 1, t, m))
    case Kid(n, rest) =>
      if t < k then ks
      else if t < k + |Toks(n)| then Kid(Replace(n, k, t, m), rest)
      else Kid(n, ReplaceKids(rest, k + |Toks(n)|, t, m))
  }

  /** b is a with the stretch c at o replaced by m. */
  ghost predicate Exchanged(a: seq<Token>, b: seq<Token>, o: int, c: seq<Token>, m: seq<Token>) {
    0 <= o && o + |c| <= |a| && a[o..o + |c|] == c && b == a[..o] + m + a[o + |c|..]
  }

  lemma ExchangedInside(x: seq<Token>, a: seq<Token>, b: seq<Token>, y: seq<Token>, o: int, c: seq<Token>, m: seq<Token>)
    requires Exchanged(a, b, o, c, m)
    ensures Exchanged(x + a + y, x + b + y, |x| + o, c, m)
  {
    var w := x + a + y;
    assert w[|x| + o..|x| + o + |c|] == a[o..o + |c|];
    assert w[..|x| + o] == x + a[..o];
    assert w[|x| + o + |c|..] == a[o + |c|..] + y;
  }

  lemma ExchangedAll(a: seq<Token>, b: seq<Token>)
    ensures Exchanged(a, b, 0, a, b)
  {
    assert a[0..|a|] == a && a[..0] + b + a[|a|..] == b;
  }

  lemma {:induction false} ReplaceToks(n: Node, k: nat, t: nat, m: Node)
    requires SubAt(n, k, t).Some?
    ensures Exchanged(Toks(n), Toks(Replace(n, k, t, m)), t - k, Toks(SubAt(n, k, t).value), Toks(m))
    decreases n, 1
  {
    hide Exchanged, KidToks, SubKids, ReplaceKids;
    if t == k {
      ExchangedAll(Toks(n), Toks(m));
    } else {
      var c, x := SubAt(n, k, t).value, [Begin(n.name)] + n.props;
      ReplaceKidToks(n.kids, k + |x|, t, m);
      ExchangedInside(x, KidToks(n.kids), KidToks(ReplaceKids(n.kids, k + |x|, t, m)), [EndNode], t - k - |x|, Toks(c), Toks(m));
    }
  }

  lemma {:induction false} ReplaceKidToks(ks: Kids, k: nat, t: nat, m: Node)
    requires SubKids(ks, k, t).Some?
    ensures Exchanged(KidToks(ks), KidToks(ReplaceKids(ks, k, t, m)), t - k, Toks(SubKids(ks, k, t).value), Toks(m))
    decreases ks, 1
  {
    hide Toks, Exchanged;
    match ks {
      case Skip(rest) =>
        ReplaceKidToks(rest, k + 1, t, m);
        ExchangedBehind([Nop], KidToks(rest), KidToks(ReplaceKids(rest, k + 1, t, m)), t - k - 1, Toks(SubKids(rest, k + 1, t).value), Toks(m));
      case Kid(n, rest) => ReplaceKid(n, rest, k, t, m);
    }
  }

  lemma {:induction false} ReplaceKid(n: Node, rest: Kids, k: nat, t: nat, m: Node)
    requires SubKids(Kid(n, rest), k, t).Some?
    ensures Exchanged(KidToks(Kid(n, rest)), KidToks(ReplaceKids(Kid(n, rest), k, t, m)), t - k, Toks(SubKids(Kid(n, rest), k, t).value), Toks(m))
    decreases Kid(n, rest), 0
  {
    hide Toks, Exchanged;
    var l := |Toks(n)|;
    if t < k + l {
      ReplaceToks(n, k, t, m);
      ExchangedBefore(Toks(n), Toks(Replace(n, k, t, m)), KidToks(rest), t - k, Toks(SubAt(n, k, t).value), Toks(m));
    } else {
      ReplaceKidToks(rest, k + l, t, m);
      ExchangedBehind(Toks(n), KidToks(rest), KidToks(ReplaceKids(rest, k + l, t, m)), t - k - l, Toks(SubKids(rest, k + l, t).value), Toks(m));
    }
  }

  lemma ExchangedBehind(x: seq<Token>, a: seq<Token>, b: seq<Token>, o: int, c: seq<Token>, m: seq<Token>)
    requires Exchanged(a, b, o, c, m)
    ensures Exchanged(x + a, x + b, |x| + o, c, m)
  {
    hide Exchanged;
    ExchangedInside(x, a, b, [], o, c, m);
    assert x + a + [] == x + a && x + b + [] == x + b;
  }

  lemma ExchangedBefore(a: seq<Token>, b: seq<Token>, y: seq<Token>, o: int, c: seq<Token>, m: seq<Token>)
    requires Exchanged(a, b, o, c, m)
    ensures Exchanged(a + y, b + y, o, c, m)
  {
    hide Exchanged;
    ExchangedInside([], a, b, y, o, c, m);
    assert [] + a == a && [] + b == b;
  }

  lemma KidLength(n: Node)
    ensures |Toks(n)| >= 2
  {
  }

  // ---- reading by path ----

  /** The value of a property. */
  function PropOf(strs: seq<byte>, n: Node, name: seq<byte>): Option<seq<byte>> {
    match FindProp(strs, n.props, name, 0)
    case None => None
    case Some(i) => Some(n.props[i].val)
  }

  /** A node with the one at token t replaced, if that lies in it. */
  function Inside(n: Node, k: nat, t: nat, m: Node): Node { if k <= t < k + |Toks(n)| then Replace(n, k, t, m) else n }

  /** m differs from c in its properties only. */
  predicate Fits(c: Option<Node>, m: Node) { c.Some? ==> c.value.name == m.name && c.value.kids == m.kids }

  lemma {:induction false} FindKidMoved(ks: Kids, comp: seq<byte>, k: nat, k2: nat)
    ensures var f, g := FindKid(ks, comp, k), FindKid(ks, comp, k2);
            f.Some? == g.Some? && (f.Some? ==> g.value.1 == f.value.1 && f.value.0 >= k)
    decreases ks
  {
    hide Toks, Matches;
    match ks {
      case Last =>
      case Skip(rest) => FindKidMoved(rest, comp, k + 1, k2 + 1);
      case Kid(n, rest) => FindKidMoved(rest, comp, k + |Toks(n)|, k2 + |Toks(n)|);
    }
  }

  lemma {:induction false} FoundWithin(ks: Kids, comp: seq<byte>, k: nat)
    ensures FindKid(ks, comp, k).Some? ==>
            var (i, c) := FindKid(ks, comp, k).value;
            k <= i && i + |Toks(c)| <= k + |KidToks(ks)| && forall t: nat | i <= t < i + |Toks(c)| :: SubKids(ks, k, t) == SubAt(c, i, t)
    decreases ks
  {
    hide Toks, Matches, SubAt;
    match ks {
      case Last =>
      case Skip(rest) => FoundWithin(rest, comp, k + 1);
      case Kid(n, rest) => KidLength(n); FoundWithin(rest, comp, k + |Toks(n)|);
    }
  }

  /** The child that a component names is the same one, whatever is replaced in it. */
  lemma {:induction false} FindKidReplaced(ks: Kids, comp: seq<byte>, k: nat, k2: nat, t: nat, m: Node)
    requires Fits(SubKids(ks, k, t), m)
    ensures var f, g := FindKid(ks, comp, k), FindKid(ReplaceKids(ks, k, t, m), comp, k2);
            f.Some? == g.Some? && (f.Some? ==> g.value.1 == Inside(f.value.1, f.value.0, t, m))
    decreases ks
  {
    hide Toks, Matches;
    match ks {
      case Last =>
      case Skip(rest) => FindKidReplaced(rest, comp, k + 1, k2 + 1, t, m);
      case Kid(n, rest) =>
        KidLength(n);
        FindKidMoved(ks, comp, k, k2);
        if t >= k + |Toks(n)| { FindKidReplaced(rest, comp, k + |Toks(n)|, k2 + |Toks(n)|, t, m); }
        else if t >= k { FindKidMoved(rest, comp, k + |Toks(n)|, k2 + |Toks(Replace(n, k, t, m))|); }
    }
  }

  /** Every path leads to the same node as before. */
  lemma {:induction false} LookupReplaced(n: Node, k: nat, k2: nat, comps: seq<seq<byte>>, t: nat, m: Node)
    requires k <= t < k + |Toks(n)| ==> Fits(SubAt(n, k, t), m)
    ensures var f, g := Lookup(n, k, comps), Lookup(Inside(n, k, t, m), k2, comps);
            f.Some? == g.Some? && (f.Some? ==> g.value.1 == Inside(f.value.1, f.value.0, t, m))
    decreases |comps|
  {
    hide FindKid, SubKids, ReplaceKids, KidToks;
    if comps != [] {
      var n2, comp := Inside(n, k, t, m), comps[0];
      var i, i2 := k + 1 + |n.props|, k2 + 1 + |n2.props|;
      var f, g := FindKid(n.kids, comp, i), FindKid(n2.kids, comp, i2);
      FoundWithin(n.kids, comp, i);
      FindKidMoved(n.kids, comp, i, i2);
      if k < t < k + |Toks(n)| { FindKidReplaced(n.kids, comp, i, i2, t, m); }
      if f.Some? { LookupReplaced(f.value.1, f.value.0, g.value.0, comps[1..], t, m); }
    }
  }

  // ---- the law ----

  ghost predicate PropsNamed(strs: seq<byte>, props: seq<Token>) {
    forall i | 0 <= i < |props| && props[i].Prop? :: NameOk(strs, props[i].nameoff)
  }

  /** More strings at the end do not rename any property. */
  lemma {:induction false} FindPropGrown(strs: seq<byte>, more: seq<byte>, props: seq<Token>, name: seq<byte>, i: nat)
    requires PropsNamed(strs, props)
    ensures FindProp(strs + more, props, name, i) == FindProp(strs, props, name, i)
    decreases |props| - i
  {
    hide NameAt, NameOk;
    if i < |props| {
      if props[i].Prop? { NameGrown(strs, more, props[i].nameoff); }
      FindPropGrown(strs, more, props, name, i + 1);
    }
  }

  lemma {:induction false} FindPropChanged(strs: seq<byte>, props: seq<Token>, name: seq<byte>, i: nat, j: nat, val: seq<byte>)
    requires j < |props| && props[j].Prop?
    ensures FindProp(strs, props[j := Prop(props[j].nameoff, val)], name, i) == FindProp(strs, props, name, i)
    decreases |props| - i
  {
    hide NameAt;
    if i < |props| { FindPropChanged(strs, props, name, i + 1, j, val); }
  }

  lemma {:induction false} FindPropMoved(strs: seq<byte>, t: Token, props: seq<Token>, name: seq<byte>, i: nat)
    requires i <= |props|
    ensures FindProp(strs, [t] + props, name, i + 1) ==
            var r := FindProp(strs, props, name, i); if r.None? then None else Some(r.value + 1)
    decreases |props| - i
  {
    hide NameAt;
    if i < |props| { FindPropMoved(strs, t, props, name, i + 1); }
  }

  /** Reading a property of a node back after one has been set. */
  lemma PropSet(strs: seq<byte>, n: Node, name: seq<byte>, val: seq<byte>, other: seq<byte>)
    requires |strs| < WORD && PropsNamed(strs, n.props) && 0 !in name
    ensures var after, m := strs + MoreStrings(strs, n, name), WithProp(strs, n, name, val);
            PropOf(after, m, other) == if other == name then Some(val) else PropOf(strs, n, other)
  {
    hide NameAt, NameOk, FindProp, NameOffset;
    var more, r := MoreStrings(strs, n, name), FindProp(strs, n.props, name, 0);
    FindPropGrown(strs, more, n.props, other, 0);
    if r.Some? {
      assert strs + [] == strs;
      FindPropChanged(strs, n.props, other, 0, r.value, val);
      SameFound(strs, n.props, name, other);
    } else {
      var t := Prop(NameOffset(strs, name), val);
      NameThere(strs, n, name);
      FindPropMoved(strs + more, t, n.props, other, 0);
      FindFirstOf(strs + more, t, n.props, other);
    }
  }

  lemma SameFound(strs: seq<byte>, props: seq<Token>, name: seq<byte>, other: seq<byte>)
    ensures FindProp(strs, props, name, 0).Some? && FindProp(strs, props, other, 0) == FindProp(strs, props, name, 0) ==> other == name
  {
    hide NameAt;
  }

  lemma FindFirstOf(strs: seq<byte>, t: Token, props: seq<Token>, name: seq<byte>)
    requires t.Prop?
    ensures FindProp(strs, [t] + props, name, 0) ==
            if NameAt(strs, t.nameoff) == name then Some(0) else FindProp(strs, [t] + props, name, 1)
  {
    hide NameAt;
  }

  /** A node found by path is the one that starts where it was found. */
  lemma {:induction false} LookupIsSub(n: Node, k: nat, comps: seq<seq<byte>>)
    ensures Lookup(n, k, comps).Some? ==>
            var (t, c) := Lookup(n, k, comps).value;
            k <= t && t + |Toks(c)| <= k + |Toks(n)| && SubAt(n, k, t) == Some(c)
    decreases |comps|
  {
    hide FindKid, SubKids, KidToks;
    KidLength(n);
    if comps != [] {
      var i := k + 1 + |n.props|;
      var f := FindKid(n.kids, comps[0], i);
      FoundWithin(n.kids, comps[0], i);
      if f.Some? {
        LookupIsSub(f.value.1, f.value.0, comps[1..]);
        var r := Lookup(f.value.1, f.value.0, comps[1..]);
        if r.Some? { KidLength(r.value.1); }
      }
    }
  }

  lemma SubStands(root: Node, t: nat, c: Node)
    requires SubAt(root, 0, t) == Some(c)
    ensures At(Tree(root), t, Toks(c))
  {
    hide Toks, Replace, SubAt;
    ReplaceToks(root, 0, t, c);
    var ts := Tree(root);
    SliceSlice(ts, 0, |Toks(root)|, t, t + |Toks(c)|);
    assert ts[0..|Toks(root)|] == Toks(root);
  }

  /** The names of a node's properties are in order if those of the whole tree are. */
  lemma SubNamed(strs: seq<byte>, root: Node, t: nat, c: Node)
    requires SubAt(root, 0, t) == Some(c) && NamesOk(strs, Tree(root))
    ensures At(Tree(root), t, Toks(c)) && PropsNamed(strs, c.props)
  {
    hide NameOk, Toks, SubAt, Tree;
    SubStands(root, t, c);
    var ts := Tree(root);
    NodeParts(ts, t, c);
    forall i | 0 <= i < |c.props| && c.props[i].Prop? ensures NameOk(strs, c.props[i].nameoff) { AtElem(ts, t + 1, c.props, i); }
  }

  /** A property, read by path and name. */
  function Read(strs: seq<byte>, root: Node, comps: seq<seq<byte>>, name: seq<byte>): Option<seq<byte>> {
    match Lookup(root, 0, comps)
    case None => None
    case Some((t, c)) => PropOf(strs, c, name)
  }

  /** The node at token t with a property set. */
  function SetAt(strs: seq<byte>, root: Node, t: nat, c: Node, name: seq<byte>, val: seq<byte>): Node
    requires |strs| < WORD
  {
    Replace(root, 0, t, WithProp(strs, c, name, val))
  }

  /** The edited tokens are those of the edited tree. */
  lemma SetIsTree(strs: seq<byte>, root: Node, t: nat, c: Node, name: seq<byte>, val: seq<byte>)
    requires |strs| < WORD && SubAt(root, 0, t) == Some(c)
    ensures t + |Toks(c)| <= |Tree(root)|
    ensures Tree(SetAt(strs, root, t, c, name, val)) == Swapped(Tree(root), t, c, WithProp(strs, c, name, val))
  {
    hide Toks, WithProp, Replace, SubAt;
    var m := WithProp(strs, c, name, val);
    ReplaceToks(root, 0, t, m);
    ExchangedBefore(Toks(root), Toks(Replace(root, 0, t, m)), [End], t, Toks(c), Toks(m));
  }

  /** After a property has been set, every property of every node reads as it did, except
      that one, which reads as it was set. */
  lemma SetPropLaw(strs: seq<byte>, root: Node, t: nat, c: Node, name: seq<byte>, val: seq<byte>, comps: seq<seq<byte>>, other: seq<byte>)
    requires |strs| < WORD && SubAt(root, 0, t) == Some(c) && t < |Toks(root)| && NamesOk(strs, Tree(root)) && 0 !in name
    ensures Read(strs + MoreStrings(strs, c, name), SetAt(strs, root, t, c, name, val), comps, other) ==
            if Lookup(root, 0, comps) == Some((t, c)) && other == name then Some(val) else Read(strs, root, comps, other)
  {
    hide NamesOk, MoreStrings, Tree, Toks, FindProp, Lookup, SubAt, PropsNamed;
    var m, after := WithProp(strs, c, name, val), strs + MoreStrings(strs, c, name);
    assert m.name == c.name && m.kids == c.kids;
    LookupReplaced(root, 0, 0, comps, t, m);
    LookupIsSub(root, 0, comps);
    var f := Lookup(root, 0, comps);
    if f.Some? {
      var (t2, c2) := f.value;
      SubNamed(strs, root, t2, c2);
      if t2 == t { PropSet(strs, c, name, val, other); KidLength(c2); }
      else { FindPropGrown(strs, MoreStrings(strs, c, name), c2.props, other, 0); }
    }
  }
}
