/** The tree behind the tokens: nodes with their properties first and their children after
    them, and NOPs anywhere between (section 5.4.2 of the Devicetree Specification v0.4). */
module FdtTree {
  import opened Bytes
  import opened FdtTokens

  datatype Node = Node(name: seq<byte>, props: seq<Token>, kids: Kids)
  datatype Kids = Last | Skip(rest: Kids) | Kid(node: Node, rest: Kids)

  predicate PropItem(t: Token) { t.Nop? || (t.Prop? && TokenOk(t)) }

  predicate NodeOk(n: Node) {
    0 !in n.name && |n.name| < LIMIT && (forall i | 0 <= i < |n.props| :: PropItem(n.props[i])) && KidsOk(n.kids)
  }

  predicate KidsOk(ks: Kids) {
    match ks
    case Last => true
    case Skip(rest) => KidsOk(rest)
    case Kid(node, rest) => NodeOk(node) && KidsOk(rest)
  }

  function Toks(n: Node): (ts: seq<Token>)
    ensures |ts| >= 2
  {
    [Begin(n.name)] + n.props + KidToks(n.kids) + [EndNode]
  }

  function KidToks(ks: Kids): seq<Token> {
    match ks
    case Last => []
    case Skip(rest) => [Nop] + KidToks(rest)
    case Kid(node, rest) => Toks(node) + KidToks(rest)
  }

  /** The whole structure block. */
  function Tree(root: Node): seq<Token> { Toks(root) + [End] }

  lemma {:induction false} ToksOk(n: Node)
    requires NodeOk(n)
    ensures TokensOk(Toks(n))
  {
    KidToksOk(n.kids);
  }

  lemma {:induction false} KidToksOk(ks: Kids)
    requires KidsOk(ks)
    ensures TokensOk(KidToks(ks))
  {
    match ks {
      case Last =>
      case Skip(rest) => KidToksOk(rest);
      case Kid(node, rest) => ToksOk(node); KidToksOk(rest);
    }
  }

  /** sub stands in ts from k on. */
  ghost predicate At(ts: seq<Token>, k: nat, sub: seq<Token>) { k + |sub| <= |ts| && ts[k..k + |sub|] == sub }

  lemma AtElem(ts: seq<Token>, k: nat, sub: seq<Token>, i: nat)
    requires At(ts, k, sub) && i < |sub|
    ensures k + i < |ts| && ts[k + i] == sub[i]
  {
    assert ts[k..k + |sub|][i] == sub[i];
  }

  lemma AtParts(ts: seq<Token>, k: nat, a: seq<Token>, b: seq<Token>)
    requires At(ts, k, a + b)
    ensures At(ts, k, a) && At(ts, k + |a|, b)
  {
    var s := a + b;
    SliceSlice(ts, k, k + |s|, 0, |a|);
    SliceSlice(ts, k, k + |s|, |a|, |s|);
    assert s[0..|a|] == a && s[|a|..|s|] == b;
  }

  /** Where the parts of a node stand. */
  lemma NodeParts(ts: seq<Token>, k: nat, n: Node)
    requires At(ts, k, Toks(n))
    ensures k < |ts| && ts[k] == Begin(n.name) && At(ts, k + 1, n.props) && At(ts, k + 1 + |n.props|, KidToks(n.kids))
    ensures |Toks(n)| == 2 + |n.props| + |KidToks(n.kids)|
    ensures k + |Toks(n)| - 1 < |ts| && ts[k + |Toks(n)| - 1] == EndNode
  {
    AtElem(ts, k, Toks(n), 0);
    AtElem(ts, k, Toks(n), |Toks(n)| - 1);
    AtParts(ts, k, [Begin(n.name)] + n.props + KidToks(n.kids), [EndNode]);
    AtParts(ts, k, [Begin(n.name)] + n.props, KidToks(n.kids));
    AtParts(ts, k, [Begin(n.name)], n.props);
  }

  // ---- nesting ----

  function Nest(t: Token): int { if t.Begin? then 1 else if t.EndNode? then -1 else 0 }

  /** How deep the first j tokens leave the walk. */
  function Depth(ts: seq<Token>, j: nat): int
    requires j <= |ts|
  {
    if j == 0 then 0 else Depth(ts, j - 1) + Nest(ts[j - 1])
  }

  lemma DepthStep(ts: seq<Token>, j: nat)
    requires 0 < j <= |ts|
    ensures Depth(ts, j) == Depth(ts, j - 1) + Nest(ts[j - 1]) && Depth(ts, 0) == 0
  {
  }

  lemma AtAll(ts: seq<Token>)
    ensures At(ts, 0, ts)
  {
    assert ts[0..|ts|] == ts;
  }

  lemma {:induction false} DepthConcat(a: seq<Token>, b: seq<Token>, j: nat)
    requires j <= |a + b|
    ensures Depth(a + b, j) == if j <= |a| then Depth(a, j) else Depth(a, |a|) + Depth(b, j - |a|)
  {
    if j > 0 { DepthConcat(a, b, j - 1); }
  }

  lemma {:induction false} DepthAt(ts: seq<Token>, k: nat, sub: seq<Token>, j: nat)
    requires At(ts, k, sub) && j <= |sub|
    ensures Depth(ts, k + j) == Depth(ts, k) + Depth(sub, j)
  {
    if j > 0 { DepthAt(ts, k, sub, j - 1); AtElem(ts, k, sub, j - 1); }
  }

  lemma {:induction false} FlatDepth(props: seq<Token>, j: nat)
    requires j <= |props| && forall i | 0 <= i < |props| :: PropItem(props[i])
    ensures Depth(props, j) == 0
  {
    if j > 0 { FlatDepth(props, j - 1); }
  }

  /** Inside a node the walk is deeper than outside, and its end brings it back. */
  lemma {:induction false} NodeDepth(n: Node, j: nat)
    requires NodeOk(n) && j <= |Toks(n)|
    ensures if j == 0 || j == |Toks(n)| then Depth(Toks(n), j) == 0 else Depth(Toks(n), j) >= 1
    decreases n, 1
  {
    hide Toks, KidToks, At, PropItem;
    var ts, p, q := Toks(n), |n.props|, |KidToks(n.kids)|;
    AtAll(ts);
    NodeParts(ts, 0, n);
    if j == 0 { return; }
    DepthStep(ts, 1);
    if j <= 1 + p {
      FlatDepth(n.props, j - 1); DepthAt(ts, 1, n.props, j - 1);
    } else {
      FlatDepth(n.props, p); DepthAt(ts, 1, n.props, p);
      var i := if j <= 1 + p + q then j - 1 - p else q;
      KidsDepth(n.kids, i); DepthAt(ts, 1 + p, KidToks(n.kids), i);
      DepthStep(ts, j);
    }
  }

  lemma {:induction false} KidsDepth(ks: Kids, j: nat)
    requires KidsOk(ks) && j <= |KidToks(ks)|
    ensures Depth(KidToks(ks), j) >= 0 && (j == |KidToks(ks)| ==> Depth(KidToks(ks), j) == 0)
    decreases ks, 0
  {
    match ks {
      case Last =>
      case Skip(rest) =>
        DepthConcat([Nop], KidToks(rest), j);
        assert Depth([Nop], 1) == 0;
        if j > 0 { KidsDepth(rest, j - 1); }
      case Kid(node, rest) =>
        DepthConcat(Toks(node), KidToks(rest), j);
        var n := |Toks(node)|;
        if j <= n {
          NodeDepth(node, j);
        } else {
          NodeDepth(node, n);
          KidsDepth(rest, j - n);
        }
    }
  }
}
