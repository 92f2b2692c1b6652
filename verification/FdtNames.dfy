/** What the path of a node is, said without a search. */
module FdtNames {
  import opened Bytes
  import opened FdtTree

  /** The name of a node up to its unit address, which an `@` starts. */
  function WithoutUnit(name: seq<byte>): seq<byte> {
    if name == [] || name[0] == 0x40 then [] else [name[0]] + WithoutUnit(name[1..])
  }

  /** A component names the node called just so and, where it has no unit address itself,
      the nodes that only differ from it in having one. */
  ghost predicate Calls(comp: seq<byte>, name: seq<byte>) {
    name == comp || (0x40 !in comp && exists unit: seq<byte> :: name == comp + [0x40] + unit)
  }

  /** The children, in their order. */
  function Children(ks: Kids): seq<Node> {
    match ks
    case Last => []
    case Skip(rest) => Children(rest)
    case Kid(n, rest) => [n] + Children(rest)
  }

  /** How many tokens stand before child i. */
  function Before(ks: Kids, i: nat): nat
    requires i < |Children(ks)|
  {
    match ks
    case Skip(rest) => 1 + Before(rest, i)
    case Kid(n, rest) => if i == 0 then 0 else |Toks(n)| + Before(rest, i - 1)
  }

  /** Child i is the first that the component names. */
  ghost predicate FirstCalled(ks: Kids, comp: seq<byte>, i: nat) {
    i < |Children(ks)| && Calls(comp, Children(ks)[i].name) && forall j: nat | j < i :: !Calls(comp, Children(ks)[j].name)
  }

  /** The components, one after the other, lead from the node n at token k to the node m at
      token t: each to the first child that it names. */
  ghost predicate Leads(n: Node, k: nat, comps: seq<seq<byte>>, t: nat, m: Node)
    decreases |comps|
  {
    if comps == [] then t == k && m == n
    else exists i: nat ::
      && FirstCalled(n.kids, comps[0], i)
      && Leads(Children(n.kids)[i], k + 1 + |n.props| + Before(n.kids, i), comps[1..], t, m)
  }

  ghost predicate AllSlashes(s: seq<byte>) { forall i | 0 <= i < |s| :: s[i] == 0x2f }

  /** The path is the components with slashes before, between and after them: at least one
      between two. */
  ghost predicate Spells(path: seq<byte>, comps: seq<seq<byte>>)
    decreases |comps|
  {
    if comps == [] then AllSlashes(path)
    else exists slashes: seq<byte>, rest: seq<byte> ::
      && path == slashes + comps[0] + rest && AllSlashes(slashes) && comps[0] != [] && 0x2f !in comps[0]
      && (rest == [] || rest[0] == 0x2f) && Spells(rest, comps[1..])
  }

  /** An absolute path leads from the root to the node m at token t. */
  ghost predicate PathLeads(root: Node, path: seq<byte>, t: nat, m: Node) {
    path != [] && path[0] == 0x2f && exists comps :: Spells(path, comps) && Leads(root, 0, comps, t, m)
  }

  // ---- names ----

  lemma {:induction false} WithoutUnitMeans(name: seq<byte>)
    ensures var w := WithoutUnit(name);
            0x40 !in w && w <= name && (|w| < |name| ==> name[|w|] == 0x40)
  {
    if name != [] && name[0] != 0x40 { WithoutUnitMeans(name[1..]); }
  }

  lemma {:induction false} CutOf(comp: seq<byte>, unit: seq<byte>)
    requires 0x40 !in comp
    ensures WithoutUnit(comp + [0x40] + unit) == comp && WithoutUnit(comp) == comp
  {
    if comp != [] {
      CutOf(comp[1..], unit);
      assert (comp + [0x40] + unit)[1..] == comp[1..] + [0x40] + unit;
    }
  }

  /** A component without a unit address names the nodes whose name, without theirs, it is. */
  lemma CallsCut(comp: seq<byte>, name: seq<byte>)
    requires 0x40 !in comp
    ensures Calls(comp, name) <==> WithoutUnit(name) == comp
  {
    var w := WithoutUnit(name);
    WithoutUnitMeans(name);
    CutOf(comp, []);
    forall unit: seq<byte> | name == comp + [0x40] + unit ensures w == comp { CutOf(comp, unit); }
    if w == comp {
      if |w| < |name| { assert name == comp + [0x40] + name[|w| + 1..]; } else { assert name == comp; }
    }
  }

  // ---- children ----

  ghost predicate NoneCalled(ks: Kids, comp: seq<byte>) {
    forall i: nat | i < |Children(ks)| :: !Calls(comp, Children(ks)[i].name)
  }

  lemma FirstIsOne(ks: Kids, comp: seq<byte>, i: nat, j: nat)
    requires FirstCalled(ks, comp, i) && FirstCalled(ks, comp, j)
    ensures i == j
  {
    hide Calls, Children;
  }

  /** A child in front that the component does not name changes nothing. */
  lemma AfterFirst(n: Node, rest: Kids, comp: seq<byte>)
    requires !Calls(comp, n.name)
    ensures NoneCalled(rest, comp) ==> NoneCalled(Kid(n, rest), comp)
    ensures forall i: nat {:trigger FirstCalled(rest, comp, i)} ::
              FirstCalled(rest, comp, i) ==> FirstCalled(Kid(n, rest), comp, i + 1) && Children(Kid(n, rest))[i + 1] == Children(rest)[i]
  {
    hide Calls;
    var cs, ds := Children(Kid(n, rest)), Children(rest);
    assert cs == [n] + ds;
    assert forall j: nat {:trigger cs[j]} | 0 < j < |cs| :: cs[j] == ds[j - 1];
  }
}
