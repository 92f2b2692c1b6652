/** _check_dep_loop_sym and _check_dep_loop_choice, and the check of all symbols. */
module KconfigLoops {
  import opened Basics
  import opened KconfigModel
  import opened KconfigWalk
  import opened KconfigOrder

  /** Of the calls `es` made from state st0, `rest` are still to come in state st. */
  ghost predicate Going(g: Graph, es: seq<Entry>, st0: State, rest: seq<Entry>, st: State)
    requires GraphOk(g)
  {
    && st0.visited.Keys == st.visited.Keys == g.dependents.Keys && |Unvisited(st.visited)| <= |Unvisited(st0.visited)|
    && (forall e <- es :: Target(e) in g.dependents) && (forall e <- rest :: Target(e) in g.dependents)
    && VisitAll(g, es, st0) == VisitAll(g, rest, st)
  }

  lemma OneCall(g: Graph, es: seq<Entry>, st0: State, rest: seq<Entry>, st: State)
    requires GraphOk(g) && Going(g, es, st0, rest, st)
    ensures st.visited.Keys == g.dependents.Keys && |Unvisited(st.visited)| <= |Unvisited(st0.visited)|
    ensures (forall e <- es :: Target(e) in g.dependents) && st0.visited.Keys == g.dependents.Keys
    ensures rest != [] ==> Target(rest[0]) in g.dependents
    ensures rest == [] ==> VisitAll(g, es, st0) == (NoLoop, st)
    ensures rest != [] ==>
      var (r, st1) := Visit(g, rest[0], st);
      if r.NoLoop? then Going(g, es, st0, rest[1..], st1) else VisitAll(g, es, st0) == (r, st1)
  {
    hide Visit, Unvisited, GraphOk;
    if rest != [] {
      var (r, st1) := Visit(g, rest[0], st);
      SubsetSize(Unvisited(st1.visited), Unvisited(st.visited));
    }
  }

  /** How the result of a call comes from the calls it makes. */
  lemma VisitUnfolds(g: Graph, e: Entry, st: State)
    requires GraphOk(g) && st.visited.Keys == g.dependents.Keys && Target(e) in g.dependents && st.visited[Target(e)] == 0
    ensures Linked(g, Target(e)) && (e.AsSym? ==> e.s < |g.cfg.syms|) && |Unvisited(Enter(st, Target(e)).visited)| < |Unvisited(st.visited)|
    ensures Going(g, Next(g, e), Enter(st, Target(e)), Next(g, e), Enter(st, Target(e)))
    ensures var (r, st1) := VisitAll(g, Next(g, e), Enter(st, Target(e)));
            Visit(g, e, st) == if r.NoLoop? then (NoLoop, Leave(st1, Target(e))) else (OnTheWayBack(r, Target(e)), st1)
  {
    hide VisitAll, Unvisited, Next;
    EnterFewer(st, Target(e));
    NextAre(g, e);
    assert Enter(st, Target(e)).visited.Keys == st.visited.Keys;
  }

  lemma VisitSeen(g: Graph, e: Entry, st: State)
    requires GraphOk(g) && st.visited.Keys == g.dependents.Keys && Target(e) in g.dependents && st.visited[Target(e)] != 0
    ensures Visit(g, e, st) == if st.visited[Target(e)] == 2 then (NoLoop, st) else (Partial([Target(e)]), st)
  {
  }

  lemma FirstMember(ss: seq<nat>, k: nat, skip: Option<nat>)
    requires k < |ss|
    ensures var rest, after := AsMembers(ss[k..], skip), AsMembers(ss[k + 1..], skip);
            if Some(ss[k]) == skip then rest == after else rest != [] && rest[0] == AsSym(ss[k], true) && rest[1..] == after
  {
    assert ss[k..][1..] == ss[k + 1..];
  }

  lemma FirstDependent(g: Graph, e: Entry, k: nat)
    requires Target(e) in g.dependents && Linked(g, Target(e)) && e.AsSym?
    ensures var ds, es := g.dependents[Target(e)], Next(g, e);
            && |ds| <= |es|
            && (k < |ds| ==> es[k..][0] == AsDependent(ds[k]) && es[k..][1..] == es[k + 1..])
            && (k == |ds| ==> es[k..] == if g.cfg.syms[e.s].choice.Some? && !e.ignoreChoice then [AsChoice(g.cfg.syms[e.s].choice.value, Some(e.s))] else [])
  {
  }

  lemma NextOfChoice(g: Graph, e: Entry)
    requires Target(e) in g.dependents && Linked(g, Target(e)) && e.AsChoice?
    ensures e.c < |g.cfg.choices| && Next(g, e) == AsMembers(g.cfg.choices[e.c].syms, e.skip)
  {
  }

  lemma NoMembers(skip: Option<nat>)
    ensures AsMembers([], skip) == []
  {
  }

  class LoopCheck {
    const g: Graph
    var visited: map<Item, int>
    ghost var order: seq<Item>

    constructor (g: Graph)
      ensures this.g == g && Now() == Start(g)
    {
      this.g := g;
      visited := map i | i in g.dependents :: 0;
      order := [];
    }

    ghost function Now(): State
      reads this
    {
      State(visited, order)
    }

    /** _check_dep_loop_sym */
    method CheckSym(sym: nat, ignoreChoice: bool) returns (r: Outcome)
      requires GraphOk(g) && visited.Keys == g.dependents.Keys && SymI(sym) in g.dependents
      modifies this
      ensures (r, Now()) == old(Visit(g, AsSym(sym, ignoreChoice), Now()))
      decreases |Unvisited(visited)|, 0
    {
      hide GraphOk, Unvisited, Visit, VisitAll, Going, Next, Linked, AsMembers;
      var i := SymI(sym);
      if visited[i] == 0 {
        ghost var e := AsSym(sym, ignoreChoice);
        VisitUnfolds(g, e, Now());
        visited := visited[i := 1];
        ghost var es, st0 := Next(g, e), Now();
        var ds := g.dependents[i];
        FirstDependent(g, e, 0);
        var k := 0;
        while k < |ds|
          invariant 0 <= k <= |ds| <= |es| && Going(g, es, st0, es[k..], Now())
        {
          FirstDependent(g, e, k);
          OneCall(g, es, st0, es[k..], Now());
          match ds[k] {
            case ChoiceI(c) => r := CheckChoice(c, None);
            case SymI(s) => r := CheckSym(s, false);
          }
          if !r.NoLoop? { r := OnTheWayBack(r, i); return; }
          k := k + 1;
        }
        FirstDependent(g, e, k);
        OneCall(g, es, st0, es[k..], Now());
        if g.cfg.syms[sym].choice.Some? && !ignoreChoice {
          r := CheckChoice(g.cfg.syms[sym].choice.value, Some(sym));
          if !r.NoLoop? { r := OnTheWayBack(r, i); return; }
          assert es[k..][1..] == [];
          OneCall(g, es, st0, [], Now());
        }
        visited, order := visited[i := 2], order + [i];
        return NoLoop;
      }
      VisitSeen(g, AsSym(sym, ignoreChoice), Now());
      if visited[i] == 2 { return NoLoop; }
      r := Partial([i]);
    }

    /** _check_dep_loop_choice */
    method CheckChoice(choice: nat, skip: Option<nat>) returns (r: Outcome)
      requires GraphOk(g) && visited.Keys == g.dependents.Keys && ChoiceI(choice) in g.dependents
      modifies this
      ensures (r, Now()) == old(Visit(g, AsChoice(choice, skip), Now()))
      decreases |Unvisited(visited)|, 0
    {
      hide GraphOk, Unvisited, Visit, VisitAll, Going, Next, Linked, AsMembers;
      var i := ChoiceI(choice);
      if visited[i] == 0 {
        ghost var e := AsChoice(choice, skip);
        VisitUnfolds(g, e, Now());
        NextOfChoice(g, e);
        visited := visited[i := 1];
        ghost var es, st0 := Next(g, e), Now();
        var syms := g.cfg.choices[choice].syms;
        assert syms[0..] == syms && es == AsMembers(syms, skip);
        var k := 0;
        while k < |syms|
          invariant 0 <= k <= |syms| && Going(g, es, st0, AsMembers(syms[k..], skip), Now())
        {
          ghost var rest := AsMembers(syms[k..], skip);
          FirstMember(syms, k, skip);
          if Some(syms[k]) != skip {
            OneCall(g, es, st0, rest, Now());
            r := CheckSym(syms[k], true);
            if !r.NoLoop? { r := OnTheWayBack(r, i); return; }
          }
          k := k + 1;
        }
        assert AsMembers(syms[k..], skip) == [] by { assert syms[k..] == []; NoMembers(skip); }
        OneCall(g, es, st0, [], Now());
        visited, order := visited[i := 2], order + [i];
        return NoLoop;
      }
      VisitSeen(g, AsChoice(choice, skip), Now());
      if visited[i] == 2 { return NoLoop; }
      r := Partial([i]);
    }
  }

  /** The check of all defined symbols.  It raises only for a loop, which it tells; when it
      does not raise, the items are in order and no loop is left but those in which a
      member calls for its own choice. */
  method CheckAll(g: Graph, defined: seq<nat>) returns (r: Outcome, ghost order: seq<Item>)
    requires GraphOk(g) && AllKnown(g, defined) && AllDefined(g, defined)
    ensures (r, order) == (Checked(g, defined).0, Checked(g, defined).1.order)
    ensures r.NoLoop? || (r.Raised? && exists es :: Circle(g, es) && r.loop == Report(es))
    ensures r.NoLoop? ==> Ordered(g, defined, order) && forall es :: !DownCircle(g, es)
  {
    hide GraphOk, VisitAll, Visit, Unvisited, AllDefined, DownCircle, Circle, Ordered, Going;
    var check := new LoopCheck(g);
    ghost var es, st0 := Roots(defined), Start(g);
    CheckedMeans(g, defined);
    var k := 0;
    while k < |defined|
      invariant 0 <= k <= |defined| && fresh(check) && check.g == g && Going(g, es, st0, es[k..], check.Now())
    {
      assert es[k..][1..] == es[k + 1..] && es[k..][0] == AsSym(defined[k], false);
      OneCall(g, es, st0, es[k..], check.Now());
      r := check.CheckSym(defined[k], false);
      if !r.NoLoop? { order := check.order; return; }
      k := k + 1;
    }
    OneCall(g, es, st0, es[k..], check.Now());
    r, order := NoLoop, check.order;
  }

  lemma CheckedMeans(g: Graph, defined: seq<nat>)
    requires GraphOk(g) && AllKnown(g, defined) && AllDefined(g, defined)
    ensures Going(g, Roots(defined), Start(g), Roots(defined)[0..], Start(g))
    ensures var (r, st) := Checked(g, defined);
            && (r.NoLoop? || (r.Raised? && exists es :: Circle(g, es) && r.loop == Report(es)))
            && (r.NoLoop? ==> Ordered(g, defined, st.order) && forall es :: !DownCircle(g, es))
  {
    RaisedIsCircle(g, defined);
    AcceptedIsOrdered(g, defined);
    hide VisitAll, DownCircle, Ordered, Unvisited;
    assert Roots(defined)[0..] == Roots(defined);
    if Checked(g, defined).0.NoLoop? {
      forall circle ensures !DownCircle(g, circle) { DownCirclesAreFound(g, defined, circle); }
    }
  }
}
