/** Finding a node by its path, and what the search means on the tree. */
module FdtPath {
  import opened Basics
  import opened Bytes
  import opened FdtTokens
  import opened FdtTree
  import opened FdtWalk
  import opened FdtQuery
  import opened FdtNames

  const SLASH: byte := 0x2f
  const AT: byte := 0x40

  /** "uart" matches "uart" and "uart@1000"; "uart@1000" only itself. */
  predicate Matches(name: seq<byte>, comp: seq<byte>) {
    comp <= name && (|name| == |comp| || (name[|comp|] == AT && AT !in comp))
  }

  function EndOfComp(path: seq<byte>): (e: nat)
    ensures e <= |path| && SLASH !in path[..e] && (e < |path| ==> path[e] == SLASH)
    ensures path != [] && path[0] != SLASH ==> e > 0
  {
    if path == [] || path[0] == SLASH then 0 else
    var e := EndOfComp(path[1..]);
    assert path[..1 + e] == [path[0]] + path[1..][..e];
    1 + e
  }

  /** The components of a path; runs of slashes count once. */
  function Comps(path: seq<byte>): seq<seq<byte>>
    decreases |path|
  {
    if path == [] then [] else if path[0] == SLASH then Comps(path[1..]) else
    var e := EndOfComp(path);
    [path[..e]] + Comps(path[e..])
  }

  /** The first child that a component names, where the children start at token k. */
  function FindKid(ks: Kids, comp: seq<byte>, k: nat): Option<(nat, Node)> {
    match ks
    case Last => None
    case Skip(rest) => FindKid(rest, comp, k + 1)
    case Kid(n, rest) => if Matches(n.name, comp) then Some((k, n)) else FindKid(rest, comp, k + |Toks(n)|)
  }

  /** The node that components lead to from the node n at token k. */
  function Lookup(n: Node, k: nat, comps: seq<seq<byte>>): Option<(nat, Node)>
    decreases |comps|
  {
    if comps == [] then Some((k, n)) else
    var f := FindKid(n.kids, comps[0], k + 1 + |n.props|);
    if f.None? then None else Lookup(f.value.1, f.value.0, comps[1..])
  }

  lemma {:induction false} FindFirst(ks: Kids, comp: seq<byte>, k: nat)
    ensures FindKid(ks, comp, k) ==
            var f := FirstKid(ks, k);
            if f.None? then None
            else if Matches(f.value.1.name, comp) then Some((f.value.0, f.value.1))
            else FindKid(f.value.2, comp, f.value.0 + |Toks(f.value.1)|)
    decreases ks
  {
    hide Toks, Matches;
    if ks.Skip? { FindFirst(ks.rest, comp, k + 1); }
  }

  // ---- what the search finds ----

  /** The test of a name is what the comment on it says. */
  lemma MatchesMeans(name: seq<byte>, comp: seq<byte>)
    ensures Matches(name, comp) <==> Calls(comp, name)
  {
    if Matches(name, comp) && |name| != |comp| {
      assert name == comp + [0x40] + name[|comp| + 1..];
    }
  }

  /** The child found is the first that the component names, and nothing is found exactly
      when it names none. */
  lemma {:induction false} FindKidMeans(ks: Kids, comp: seq<byte>, k: nat) returns (i: nat)
    ensures var f := FindKid(ks, comp, k);
            && (f.None? ==> NoneCalled(ks, comp))
            && (f.Some? ==> FirstCalled(ks, comp, i) && f == Some((k + Before(ks, i), Children(ks)[i])))
    decreases ks
  {
    hide Toks, Matches, Calls, NoneCalled, FirstCalled;
    match ks {
      case Last => i := 0; NoChildren(comp);
      case Skip(rest) => i := FindKidMeans(rest, comp, k + 1); SkipOne(rest, comp, i);
      case Kid(n, rest) =>
        MatchesMeans(n.name, comp);
        if Matches(n.name, comp) { i := 0; CalledFirst(n, rest, comp); }
        else {
          i := FindKidMeans(rest, comp, k + |Toks(n)|);
          AfterFirst(n, rest, comp);
          if FindKid(rest, comp, k + |Toks(n)|).Some? { i := i + 1; CalledInside(ks, comp, i); }
        }
    }
  }

  lemma NoChildren(comp: seq<byte>)
    ensures NoneCalled(Last, comp)
  {
  }

  lemma SkipOne(rest: Kids, comp: seq<byte>, i: nat)
    ensures Children(Skip(rest)) == Children(rest)
    ensures FirstCalled(rest, comp, i) ==> FirstCalled(Skip(rest), comp, i)
    ensures NoneCalled(rest, comp) ==> NoneCalled(Skip(rest), comp)
  {
    hide Calls;
  }

  lemma CalledFirst(n: Node, rest: Kids, comp: seq<byte>)
    requires Calls(comp, n.name)
    ensures FirstCalled(Kid(n, rest), comp, 0)
  {
    hide Calls;
  }

  lemma CalledInside(ks: Kids, comp: seq<byte>, i: nat)
    requires FirstCalled(ks, comp, i)
    ensures i < |Children(ks)|
  {
  }

  /** The lookup is the relation: it finds where the components lead, if they do. */
  lemma {:induction false} LookupMeans(n: Node, k: nat, comps: seq<seq<byte>>, t: nat, m: Node)
    ensures Lookup(n, k, comps) == Some((t, m)) <==> Leads(n, k, comps, t, m)
    decreases |comps|
  {
    hide Toks, FindKid, FirstCalled, NoneCalled, Before, Children;
    if comps != [] {
      var f := FindKid(n.kids, comps[0], k + 1 + |n.props|);
      var i := FindKidMeans(n.kids, comps[0], k + 1 + |n.props|);
      if f.None? {
        forall j | FirstCalled(n.kids, comps[0], j) ensures false { NotNone(n.kids, comps[0], j); }
      } else {
        CalledInside(n.kids, comps[0], i);
        LookupMeans(f.value.1, f.value.0, comps[1..], t, m);
        forall j | FirstCalled(n.kids, comps[0], j) ensures j == i { FirstIsOne(n.kids, comps[0], i, j); }
      }
    }
  }

  lemma NotNone(ks: Kids, comp: seq<byte>, j: nat)
    requires FirstCalled(ks, comp, j)
    ensures !NoneCalled(ks, comp)
  {
    hide Calls, Children;
  }

  // ---- what a path spells ----

  lemma {:induction false} OnlySlashes(path: seq<byte>)
    requires AllSlashes(path)
    ensures Comps(path) == []
  {
    if path != [] { OnlySlashes(path[1..]); }
  }

  lemma {:induction false} PastSlashes(slashes: seq<byte>, s: seq<byte>)
    requires AllSlashes(slashes)
    ensures Comps(slashes + s) == Comps(s)
    decreases |slashes|
  {
    if slashes == [] { assert slashes + s == s; } else {
      PastSlashes(slashes[1..], s);
      assert (slashes + s)[1..] == slashes[1..] + s;
    }
  }

  lemma {:induction false} CompEnds(c: seq<byte>, rest: seq<byte>)
    requires SLASH !in c && (rest == [] || rest[0] == SLASH)
    ensures EndOfComp(c + rest) == |c|
    decreases |c|
  {
    if c == [] { assert c + rest == rest; } else {
      CompEnds(c[1..], rest);
      assert (c + rest)[1..] == c[1..] + rest;
    }
  }

  lemma CompFirst(c: seq<byte>, rest: seq<byte>)
    requires c != [] && SLASH !in c && (rest == [] || rest[0] == SLASH)
    ensures Comps(c + rest) == [c] + Comps(rest)
  {
    hide EndOfComp;
    CompEnds(c, rest);
    assert (c + rest)[..|c|] == c && (c + rest)[|c|..] == rest;
  }

  /** A path spells one list of components only, the one that is looked up. */
  lemma {:induction false} SpellsOne(path: seq<byte>, comps: seq<seq<byte>>)
    requires Spells(path, comps)
    ensures comps == Comps(path)
    decreases |comps|
  {
    hide Comps;
    if comps == [] { OnlySlashes(path); } else {
      var slashes: seq<byte>, rest: seq<byte> :|
        && path == slashes + comps[0] + rest && AllSlashes(slashes) && comps[0] != [] && 0x2f !in comps[0]
        && (rest == [] || rest[0] == 0x2f) && Spells(rest, comps[1..]);
      assert path == slashes + (comps[0] + rest);
      PastSlashes(slashes, comps[0] + rest);
      CompFirst(comps[0], rest);
      SpellsOne(rest, comps[1..]);
    }
  }

  lemma SpellsMore(path: seq<byte>, comps: seq<seq<byte>>)
    requires path != [] && path[0] == SLASH && Spells(path[1..], comps)
    ensures Spells(path, comps)
  {
    if comps != [] {
      var slashes: seq<byte>, rest: seq<byte> :|
        && path[1..] == slashes + comps[0] + rest && AllSlashes(slashes) && comps[0] != [] && 0x2f !in comps[0]
        && (rest == [] || rest[0] == 0x2f) && Spells(rest, comps[1..]);
      assert path == ([SLASH] + slashes) + comps[0] + rest;
      assert AllSlashes([SLASH] + slashes);
    }
  }

  lemma {:induction false} SpellsComps(path: seq<byte>)
    ensures Spells(path, Comps(path))
    decreases |path|
  {
    hide EndOfComp;
    if path != [] {
      if path[0] == SLASH {
        SpellsComps(path[1..]);
        SpellsMore(path, Comps(path));
      } else {
        var e := EndOfComp(path);
        SpellsComps(path[e..]);
        assert path == [] + Comps(path)[0] + path[e..] && AllSlashes([]);
        assert Comps(path)[1..] == Comps(path[e..]);
      }
    }
  }

  /** A path leads to a node exactly when the lookup of its components finds it. */
  lemma PathMeans(root: Node, path: seq<byte>, t: nat, m: Node)
    requires path != [] && path[0] == SLASH
    ensures PathLeads(root, path, t, m) <==> Lookup(root, 0, Comps(path)) == Some((t, m))
  {
    hide Comps, Lookup, Leads, Spells;
    SpellsComps(path);
    LookupMeans(root, 0, Comps(path), t, m);
    forall comps | Spells(path, comps) ensures comps == Comps(path) { SpellsOne(path, comps); }
  }

  /** name_matches, on a zero-terminated name at `at`. */
  method NameMatches(b: seq<byte>, at: nat, comp: seq<byte>, ghost name: seq<byte>) returns (m: bool)
    requires at + |name| < |b| && b[at..at + |name| + 1] == name + [0] && 0 !in name && 0 !in comp
    ensures m == Matches(name, comp)
  {
    var i := 0;
    while i < |comp|
      invariant 0 <= i <= |comp| && i <= |name| && name[..i] == comp[..i]
    {
      assert b[at..at + |name| + 1][i] == (name + [0])[i];
      if b[at + i] != comp[i] {
        assert i < |name| ==> name[i] != comp[i];
        return false;
      }
      i := i + 1;
    }
    assert b[at..at + |name| + 1][i] == (name + [0])[i];
    assert comp[..i] == comp;
    m := b[at + i] == 0 || (b[at + i] == AT && AT !in comp);
  }

  lemma NameBytes(b: seq<byte>, ts: seq<Token>, k: nat)
    requires Encodes(b, ts) && k < |ts| && ts[k].Begin?
    ensures var at := Hdr(b, OFF_STRUCT) as int + Off(ts, k) + 4;
            && at + |ts[k].name| < |b| && b[at..at + |ts[k].name| + 1] == ts[k].name + [0] && 0 !in ts[k].name
  {
    hide Struct, Flat, Off, TotalCells, BeBytes, Be32;
    assert TokenOk(ts[k]);
    TokenBytes(b, ts, k);
    var at := Hdr(b, OFF_STRUCT) as int + Off(ts, k) + 4;
    var s := Padded(ts[k].name + [0]);
    SliceSlice(b, at, at + |s|, 0, |ts[k].name| + 1);
  }

  /** name_matches on the name of a node. */
  method NodeMatches(b: seq<byte>, node: int, comp: seq<byte>, ghost ts: seq<Token>, ghost k: nat, ghost n: Node) returns (m: bool)
    requires NodeAt(b, ts, k, n) && node == Off(ts, k) && 0 !in comp
    ensures m == Matches(n.name, comp)
  {
    hide Struct, Flat, TokensOk, Off, TotalCells, Toks, NodeOk, At, Matches, Be32;
    NodeParts(ts, k, n);
    NameBytes(b, ts, k);
    m := NameMatches(b, Hdr(b, OFF_STRUCT) + node + 4, comp, n.name);
  }

  /** The loop of fdt_path_offset over the children of a node. */
  method SeekKid(b: seq<byte>, node: int, comp: seq<byte>, ghost ts: seq<Token>, ghost k: nat, ghost n: Node) returns (sub: int)
    requires NodeAt(b, ts, k, n) && node == Off(ts, k) && 0 !in comp
    ensures var f := FindKid(n.kids, comp, k + 1 + |n.props|);
            if f.None? then sub < 0
            else f.value.0 < |ts| && NodeAt(b, ts, f.value.0, f.value.1) && sub == Off(ts, f.value.0)
  {
    hide Sized, Struct, Flat, TokensOk, Off, TotalCells, Toks, NodeOk, KidsAt, At, Matches, FirstKid;
    ghost var f: Option<(nat, Node, Kids)> := FirstKid(n.kids, k + 1 + |n.props|);
    FindFirst(n.kids, comp, k + 1 + |n.props|);
    sub := FirstSubnode(b, node, ts, k, n);
    while sub >= 0
      invariant Subnode(b, ts, f, sub)
      invariant FindKid(n.kids, comp, k + 1 + |n.props|) ==
                if f.None? then None
                else if Matches(f.value.1.name, comp) then Some((f.value.0, f.value.1))
                else FindKid(f.value.2, comp, f.value.0 + |Toks(f.value.1)|)
      decreases if f.None? then 0 else 1, if f.None? then Last else f.value.2
    {
      ghost var i: nat, kid, rest := f.value.0, f.value.1, f.value.2;
      var m := NodeMatches(b, sub, comp, ts, i, kid);
      if m { return; }
      FindFirst(rest, comp, i + |Toks(kid)|);
      FirstKidSmaller(rest, i + |Toks(kid)|);
      sub := NextSubnode(b, sub, ts, i, kid, rest);
      f := FirstKid(rest, i + |Toks(kid)|);
    }
  }

  lemma {:induction false} FirstKidSmaller(ks: Kids, k: nat)
    ensures FirstKid(ks, k).Some? ==> (ks decreases to FirstKid(ks, k).value.2)
    decreases ks
  {
    if ks.Skip? { FirstKidSmaller(ks.rest, k + 1); }
  }

  /** off is where the node that the path leads to starts, or says that it leads nowhere. */
  ghost predicate AnswersPath(b: seq<byte>, ts: seq<Token>, root: Node, path: seq<byte>, off: int) {
    || (off == FDT_ERR_NOTFOUND && forall t, m :: !PathLeads(root, path, t, m))
    || exists t, m :: PathLeads(root, path, t, m) && Stands(b, ts, t, m, off)
  }

  ghost predicate Stands(b: seq<byte>, ts: seq<Token>, t: nat, m: Node, off: int) {
    NodeAt(b, ts, t, m) && t < |ts| && off == Off(ts, t)
  }

  lemma PathAnswered(b: seq<byte>, ts: seq<Token>, root: Node, path: seq<byte>, off: int)
    requires path == [] || path[0] != SLASH ==> off == FDT_ERR_NOTFOUND
    requires path != [] && path[0] == SLASH ==>
               var f := Lookup(root, 0, Comps(path));
               if f.None? then off == FDT_ERR_NOTFOUND else Stands(b, ts, f.value.0, f.value.1, off)
    ensures AnswersPath(b, ts, root, path, off)
  {
    hide Lookup, Comps, Stands, Spells, Leads;
    if path != [] && path[0] == SLASH {
      forall t: nat, m: Node ensures PathLeads(root, path, t, m) <==> Lookup(root, 0, Comps(path)) == Some((t, m)) {
        PathMeans(root, path, t, m);
      }
    }
  }

  /** fdt_path_offset: the recursive lookup by name, on the tree that the blob encodes. */
  method PathOffset(b: seq<byte>, path: seq<byte>, ghost ts: seq<Token>, ghost root: Node) returns (off: int)
    requires NodeAt(b, ts, 0, root) && 0 !in path
    ensures path == [] || path[0] != SLASH ==> off == FDT_ERR_NOTFOUND
    ensures path != [] && path[0] == SLASH ==>
              var f := Lookup(root, 0, Comps(path));
              if f.None? then off == FDT_ERR_NOTFOUND
              else f.value.0 < |ts| && NodeAt(b, ts, f.value.0, f.value.1) && off == Off(ts, f.value.0)
    ensures AnswersPath(b, ts, root, path, off)
  {
    hide Sized, Struct, Flat, TokensOk, Off, TotalCells, Toks, NodeOk, At, FindKid, EndOfComp, AnswersPath;
    if path == [] || path[0] != SLASH { PathAnswered(b, ts, root, path, FDT_ERR_NOTFOUND); return FDT_ERR_NOTFOUND; }
    NodeParts(ts, 0, root);
    OffEnd(ts);
    off := 0;
    var rest := path;
    ghost var k: nat, n := 0, root;
    while rest != []
      invariant 0 !in rest && k < |ts| && NodeAt(b, ts, k, n) && off == Off(ts, k)
      invariant Lookup(n, k, Comps(rest)) == Lookup(root, 0, Comps(path))
      decreases |rest|
    {
      if rest[0] == SLASH { rest := rest[1..]; } else {
        var e := EndOfComp(rest);
        ghost var f := FindKid(n.kids, rest[..e], k + 1 + |n.props|);
        assert Comps(rest) == [rest[..e]] + Comps(rest[e..]);
        var sub := SeekKid(b, off, rest[..e], ts, k, n);
        if f.Some? { OffWithin(ts, f.value.0); }
        if sub < 0 { PathAnswered(b, ts, root, path, FDT_ERR_NOTFOUND); return FDT_ERR_NOTFOUND; }
        off := sub;
        k, n := f.value.0, f.value.1;
        rest := rest[e..];
      }
    }
    PathAnswered(b, ts, root, path, off);
  }
}
