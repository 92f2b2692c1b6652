/** The dependency loop check: a depth-first search over the _dependents sets and the
    choices that colours each item 0 (unvisited), 1 (on the call stack) or 2 (taken not to
    be part of a loop). */
module KconfigWalk {
  import opened Basics
  import opened KconfigModel

  /** The recorded dependents of each item, in the order in which its set is iterated. */
  datatype Graph = Graph(cfg: Config, dependents: map<Item, seq<Item>>)

  /** A call: of _check_dep_loop_sym with its flag, or of _check_dep_loop_choice with the
      symbol to skip. */
  datatype Entry = AsSym(s: nat, ignoreChoice: bool) | AsChoice(c: nat, skip: Option<nat>)

  function Target(e: Entry): Item { if e.AsSym? then SymI(e.s) else ChoiceI(e.c) }

  ghost predicate Linked(g: Graph, i: Item) {
    match i
    case SymI(s) =>
      s < |g.cfg.syms| &&
      (g.cfg.syms[s].choice.Some? ==>
         var c := g.cfg.syms[s].choice.value;
         c < |g.cfg.choices| && ChoiceI(c) in g.dependents && s in g.cfg.choices[c].syms)
    case ChoiceI(c) => c < |g.cfg.choices| && forall m <- g.cfg.choices[c].syms :: SymI(m) in g.dependents
  }

  ghost predicate GraphOk(g: Graph) {
    && (forall i, d | i in g.dependents && d in g.dependents[i] :: d in g.dependents)
    && (forall i {:trigger Linked(g, i)} | i in g.dependents :: Linked(g, i))
  }

  function AsDependent(d: Item): Entry { if d.SymI? then AsSym(d.s, false) else AsChoice(d.c, None) }

  function AsDependents(ds: seq<Item>): (es: seq<Entry>)
    ensures |es| == |ds| && forall k | 0 <= k < |ds| :: es[k] == AsDependent(ds[k])
  {
    seq(|ds|, k requires 0 <= k < |ds| => AsDependent(ds[k]))
  }

  function AsMembers(ss: seq<nat>, skip: Option<nat>): seq<Entry> {
    if ss == [] then []
    else (if skip == Some(ss[0]) then [] else [AsSym(ss[0], true)]) + AsMembers(ss[1..], skip)
  }

  /** The calls that a call makes, as long as it finds no loop. */
  function Next(g: Graph, e: Entry): seq<Entry>
    requires Target(e) in g.dependents && Linked(g, Target(e))
  {
    match e
    case AsSym(s, ignore) =>
      AsDependents(g.dependents[SymI(s)]) +
      if g.cfg.syms[s].choice.Some? && !ignore then [AsChoice(g.cfg.syms[s].choice.value, Some(s))] else []
    case AsChoice(c, skip) => AsMembers(g.cfg.choices[c].syms, skip)
  }

  lemma {:induction false} MembersAre(ss: seq<nat>, skip: Option<nat>)
    ensures forall n :: n in AsMembers(ss, skip) <==> n.AsSym? && n.ignoreChoice && n.s in ss && skip != Some(n.s)
  {
    if ss != [] { MembersAre(ss[1..], skip); }
  }

  lemma NextAre(g: Graph, e: Entry)
    requires GraphOk(g) && Target(e) in g.dependents
    ensures Linked(g, Target(e))
    ensures e.AsSym? ==> forall n :: n in Next(g, e) <==>
      || (Target(n) in g.dependents[SymI(e.s)] && n == AsDependent(Target(n)))
      || (g.cfg.syms[e.s].choice.Some? && !e.ignoreChoice && n == AsChoice(g.cfg.syms[e.s].choice.value, Some(e.s)))
    ensures e.AsChoice? ==> forall n :: n in Next(g, e) <==>
      n.AsSym? && n.ignoreChoice && n.s in g.cfg.choices[e.c].syms && e.skip != Some(n.s)
    ensures forall n <- Next(g, e) :: Target(n) in g.dependents
  {
    assert Linked(g, Target(e));
    if e.AsChoice? { MembersAre(g.cfg.choices[e.c].syms, e.skip); }
    else {
      var ds := g.dependents[SymI(e.s)];
      forall n ensures n in AsDependents(ds) <==> Target(n) in ds && n == AsDependent(Target(n)) {
        if Target(n) in ds && n == AsDependent(Target(n)) {
          var k :| 0 <= k < |ds| && ds[k] == Target(n);
          assert AsDependents(ds)[k] == n;
        }
      }
    }
  }

  datatype Outcome = NoLoop | Partial(loop: seq<Item>) | Raised(loop: seq<Item>)

  /** _found_dep_loop */
  function FoundDepLoop(loop: seq<Item>, cur: Item): Outcome
    requires loop != []
  {
    if cur != loop[0] then Partial(loop + [cur]) else Raised(loop)
  }

  /** What a caller makes of the result of a call. */
  function OnTheWayBack(r: Outcome, cur: Item): Outcome {
    if r.Partial? && r.loop != [] then FoundDepLoop(r.loop, cur) else r
  }

  /** The colours, and the items of colour 2 in the order in which they got it. */
  datatype State = State(visited: map<Item, int>, order: seq<Item>)

  ghost function Unvisited(visited: map<Item, int>): set<Item> { set i | i in visited && visited[i] == 0 }
  ghost function OnStack(visited: map<Item, int>): set<Item> { set i | i in visited && visited[i] == 1 }

  function Enter(st: State, i: Item): State { st.(visited := st.visited[i := 1]) }
  function Leave(st: State, i: Item): State { State(st.visited[i := 2], st.order + [i]) }

  lemma EnterFewer(st: State, i: Item)
    requires i in st.visited && st.visited[i] == 0
    ensures Unvisited(Enter(st, i).visited) == Unvisited(st.visited) - {i} && |Unvisited(Enter(st, i).visited)| < |Unvisited(st.visited)|
    ensures OnStack(Enter(st, i).visited) == OnStack(st.visited) + {i} && i !in OnStack(st.visited)
  {
    assert Unvisited(st.visited) == (Unvisited(st.visited) - {i}) + {i};
  }

  /** After a call that found nothing the call stack is as before. */
  ghost predicate Later(r: Outcome, a: State, b: State) {
    && b.visited.Keys == a.visited.Keys && Unvisited(b.visited) <= Unvisited(a.visited)
    && (r.NoLoop? ==> OnStack(b.visited) == OnStack(a.visited))
  }

  lemma LeaveLater(r: Outcome, st: State, i: Item, st1: State)
    requires i in st.visited && st.visited[i] == 0 && Later(r, Enter(st, i), st1)
    ensures r.NoLoop? ==> Later(r, st, Leave(st1, i))
    ensures !r.NoLoop? ==> forall r': Outcome | !r'.NoLoop? :: Later(r', st, st1)
  {
    EnterFewer(st, i);
    var after := Leave(st1, i).visited;
    assert after.Keys == st1.visited.Keys + {i};
    forall j | j in Unvisited(after) ensures j in Unvisited(st.visited) { assert j in Unvisited(st1.visited); }
    assert OnStack(after) == OnStack(st1.visited) - {i};
  }

  /** One call: what it returns, and the colours it leaves. */
  ghost function Visit(g: Graph, e: Entry, st: State): (r: (Outcome, State))
    requires GraphOk(g) && st.visited.Keys == g.dependents.Keys && Target(e) in g.dependents
    ensures Later(r.0, st, r.1)
    decreases |Unvisited(st.visited)|, 0
  {
    var i := Target(e);
    if st.visited[i] == 0 then
      EnterFewer(st, i);
      NextAre(g, e);
      var (r, st1) := VisitAll(g, Next(g, e), Enter(st, i));
      LeaveLater(r, st, i, st1);
      if r.NoLoop? then (NoLoop, Leave(st1, i)) else (OnTheWayBack(r, i), st1)
    else if st.visited[i] == 2 then (NoLoop, st)
    else (Partial([i]), st)
  }

  /** Calls one after the other, until one finds a loop. */
  ghost function VisitAll(g: Graph, es: seq<Entry>, st: State): (r: (Outcome, State))
    requires GraphOk(g) && st.visited.Keys == g.dependents.Keys && forall e <- es :: Target(e) in g.dependents
    ensures Later(r.0, st, r.1)
    decreases |Unvisited(st.visited)|, |es|
  {
    if es == [] then (NoLoop, st) else
    var (r, st1) := Visit(g, es[0], st);
    if !r.NoLoop? then (r, st1) else
    SubsetSize(Unvisited(st1.visited), Unvisited(st.visited));
    VisitAll(g, es[1..], st1)
  }

  // ---- what is reported is a loop ----

  /** Each call is made by the one before it. */
  ghost predicate Walk(g: Graph, es: seq<Entry>)
    requires GraphOk(g)
  {
    && (forall k | 0 <= k < |es| :: Target(es[k]) in g.dependents)
    && (forall k | 0 <= k < |es| - 1 :: Calls(g, es[k], es[k + 1]))
  }

  ghost predicate Calls(g: Graph, e: Entry, n: Entry)
    requires GraphOk(g) && Target(e) in g.dependents
  {
    assert Linked(g, Target(e));
    n in Next(g, e)
  }

  ghost predicate Distinct(es: seq<Entry>) { forall j, k | 0 <= j < k < |es| :: Target(es[j]) != Target(es[k]) }

  ghost function Targets(es: seq<Entry>): set<Item> { set k | 0 <= k < |es| :: Target(es[k]) }

  lemma TargetsPush(es: seq<Entry>, e: Entry)
    ensures Targets(es + [e]) == Targets(es) + {Target(e)}
  {
    var more := es + [e];
    assert more[|es|] == e;
    forall k | 0 <= k < |es| ensures Target(es[k]) in Targets(more) { assert more[k] == es[k]; }
  }

  /** The last call of the walk enters x again. */
  ghost predicate BackTo(g: Graph, es: seq<Entry>, x: Item)
    requires GraphOk(g) && Walk(g, es) && es != []
  {
    exists n {:trigger Target(n)} :: Calls(g, es[|es| - 1], n) && Target(n) == x
  }

  /** A loop: the calls go through different items and come back to the first. */
  ghost predicate Circle(g: Graph, es: seq<Entry>)
    requires GraphOk(g)
  {
    es != [] && Walk(g, es) && Distinct(es) && BackTo(g, es, Target(es[0]))
  }

  /** The items of a walk, last call first. */
  function Backwards(es: seq<Entry>): (s: seq<Item>) {
    if es == [] then [] else Backwards(es[1..]) + [Target(es[0])]
  }

  /** How a loop is told: its first item, then the others as the calls return. */
  function Report(es: seq<Entry>): seq<Item>
    requires es != []
  {
    [Target(es[0])] + Backwards(es[1..])
  }

  /** `path` is the call stack: its items and no others have colour 1. */
  ghost predicate Stack(g: Graph, st: State, path: seq<Entry>)
    requires GraphOk(g)
  {
    && st.visited.Keys == g.dependents.Keys && Walk(g, path) && Distinct(path)
    && (forall i | i in st.visited :: 0 <= st.visited[i] <= 2)
    && OnStack(st.visited) == Targets(path)
  }

  /** The way on from the stack, from call e to the item on the stack that closes a loop. */
  ghost predicate Detour(g: Graph, path: seq<Entry>, e: Entry, es: seq<Entry>, loop: seq<Item>)
    requires GraphOk(g)
  {
    && loop == (if loop == [] then [] else [loop[0]]) + Backwards(es) && loop != []
    && loop[0] in Targets(path)
    && if es == [] then Target(e) == loop[0]
       else es[0] == e && Walk(g, path + es) && Distinct(path + es) && Walk(g, es) && BackTo(g, es, loop[0])
  }

  /** Every result is accounted for by calls that were really made. */
  ghost predicate Accounted(g: Graph, path: seq<Entry>, es: seq<Entry>, r: Outcome)
    requires GraphOk(g)
  {
    match r
    case NoLoop => true
    case Partial(loop) => exists e <- es, way :: Detour(g, path, e, way, loop)
    case Raised(loop) => exists circle :: Circle(g, circle) && loop == Report(circle)
  }

  /** The call e is made from the top of the stack, if there is one. */
  ghost predicate From(g: Graph, path: seq<Entry>, e: Entry) {
    GraphOk(g) && Walk(g, path) && Target(e) in g.dependents && (path != [] ==> Calls(g, path[|path| - 1], e))
  }

  ghost predicate AllFrom(g: Graph, path: seq<Entry>, es: seq<Entry>) {
    forall k {:trigger es[k]} | 0 <= k < |es| :: From(g, path, es[k])
  }

  lemma FromTop(g: Graph, path: seq<Entry>, e: Entry)
    requires GraphOk(g) && Walk(g, path + [e])
    ensures Target(e) in g.dependents && Linked(g, Target(e)) && AllFrom(g, path + [e], Next(g, e))
  {
    assert (path + [e])[|path|] == e;
    NextAre(g, e);
    hide Next, Walk;
    forall k | 0 <= k < |Next(g, e)| ensures From(g, path + [e], Next(g, e)[k]) { assert Calls(g, e, Next(g, e)[k]); }
  }

  lemma AllIn(g: Graph, path: seq<Entry>, es: seq<Entry>)
    requires AllFrom(g, path, es)
    ensures forall e <- es :: Target(e) in g.dependents
    ensures es != [] ==> From(g, path, es[0]) && AllFrom(g, path, es[1..])
  {
  }

  lemma StackKeys(g: Graph, st: State, path: seq<Entry>)
    requires GraphOk(g) && Stack(g, st, path)
    ensures st.visited.Keys == g.dependents.Keys && Walk(g, path) && Distinct(path)
    ensures forall i | i in st.visited :: 0 <= st.visited[i] <= 2
  {
  }

  lemma {:induction false} VisitAccounted(g: Graph, e: Entry, st: State, path: seq<Entry>)
    requires GraphOk(g) && Stack(g, st, path) && From(g, path, e)
    ensures Accounted(g, path, [e], Visit(g, e, st).0)
    ensures Visit(g, e, st).0.NoLoop? ==> Stack(g, Visit(g, e, st).1, path)
    decreases |Unvisited(st.visited)|, 0
  {
    hide VisitAll, Detour, Circle, Unvisited, OnStack, GraphOk, Next, Stack, Walk, Distinct;
    var i := Target(e);
    StackKeys(g, st, path);
    if st.visited[i] == 0 {
      EnterFewer(st, i);
      Pushed(g, e, st, path);
      StackKeys(g, Enter(st, i), path + [e]);
      FromTop(g, path, e);
      AllIn(g, path + [e], Next(g, e));
      AllAccounted(g, Next(g, e), Enter(st, i), path + [e]);
      var (r, st1) := VisitAll(g, Next(g, e), Enter(st, i));
      WayBack(g, e, path, r);
      if r.NoLoop? { Popped(g, e, st1, path); }
    } else if st.visited[i] == 1 {
      OnTheStack(g, e, st, path);
    }
  }

  lemma {:induction false} AllAccounted(g: Graph, es: seq<Entry>, st: State, path: seq<Entry>)
    requires GraphOk(g) && Stack(g, st, path) && AllFrom(g, path, es)
    ensures st.visited.Keys == g.dependents.Keys && forall e <- es :: Target(e) in g.dependents
    ensures Accounted(g, path, es, VisitAll(g, es, st).0)
    ensures VisitAll(g, es, st).0.NoLoop? ==> Stack(g, VisitAll(g, es, st).1, path)
    decreases |Unvisited(st.visited)|, |es|
  {
    hide Visit, Stack, Calls, Unvisited, GraphOk, From, AllFrom, Walk, Detour, Circle;
    StackKeys(g, st, path);
    AllIn(g, path, es);
    if es != [] {
      var (r, st1) := Visit(g, es[0], st);
      VisitAccounted(g, es[0], st, path);
      if r.NoLoop? {
        SubsetSize(Unvisited(st1.visited), Unvisited(st.visited));
        AllAccounted(g, es[1..], st1, path);
        MoreAccounted(g, path, es[1..], es, VisitAll(g, es[1..], st1).0);
      } else {
        MoreAccounted(g, path, [es[0]], es, r);
      }
    }
  }

  lemma MoreAccounted(g: Graph, path: seq<Entry>, fewer: seq<Entry>, es: seq<Entry>, r: Outcome)
    requires GraphOk(g) && Accounted(g, path, fewer, r) && forall e <- fewer :: e in es
    ensures Accounted(g, path, es, r)
  {
    if r.Partial? {
      var e, way :| e in fewer && Detour(g, path, e, way, r.loop);
      assert e in es;
    }
  }

  lemma Pushed(g: Graph, e: Entry, st: State, path: seq<Entry>)
    requires GraphOk(g) && Stack(g, st, path) && From(g, path, e) && st.visited[Target(e)] == 0
    ensures Stack(g, Enter(st, Target(e)), path + [e])
  {
    hide GraphOk, Calls;
    EnterFewer(st, Target(e));
    TargetsPush(path, e);
    assert Enter(st, Target(e)).visited.Keys == st.visited.Keys;
    DistinctPush(path, e);
    WalkPush(g, path, e);
  }

  lemma DistinctPush(path: seq<Entry>, e: Entry)
    requires Distinct(path) && Target(e) !in Targets(path)
    ensures Distinct(path + [e])
  {
    forall k | 0 <= k < |path| ensures Target(path[k]) != Target(e) { assert Target(path[k]) in Targets(path); }
  }

  lemma WalkPush(g: Graph, path: seq<Entry>, e: Entry)
    requires From(g, path, e)
    ensures Walk(g, path + [e])
  {
    hide GraphOk, Calls;
    var es := path + [e];
    forall k | 0 <= k < |es| ensures Target(es[k]) in g.dependents {
      if k < |path| { assert es[k] == path[k]; }
    }
    forall k | 0 <= k < |es| - 1 ensures Calls(g, es[k], es[k + 1]) {
      if k + 1 < |path| { assert Calls(g, path[k], path[k + 1]); }
    }
  }

  lemma Popped(g: Graph, e: Entry, st: State, path: seq<Entry>)
    requires GraphOk(g) && Stack(g, st, path + [e])
    ensures Stack(g, Leave(st, Target(e)), path)
  {
    hide GraphOk, Calls;
    var i, es := Target(e), path + [e];
    var after := Leave(st, i).visited;
    assert es[|path|] == e;
    assert after.Keys == st.visited.Keys + {i};
    TargetsPush(path, e);
    assert OnStack(after) == OnStack(st.visited) - {i};
    forall k | 0 <= k < |path| ensures Target(path[k]) != i && Target(path[k]) in g.dependents { assert es[k] == path[k]; }
    forall k | 0 <= k < |path| - 1 ensures Calls(g, path[k], path[k + 1]) { assert es[k] == path[k] && es[k + 1] == path[k + 1]; }
    forall j, k | 0 <= j < k < |path| ensures Target(path[j]) != Target(path[k]) { assert es[j] == path[j] && es[k] == path[k]; }
  }

  lemma OnTheStack(g: Graph, e: Entry, st: State, path: seq<Entry>)
    requires GraphOk(g) && Stack(g, st, path) && Target(e) in st.visited && st.visited[Target(e)] == 1
    ensures Accounted(g, path, [e], Partial([Target(e)]))
  {
    hide GraphOk, Calls, Walk;
    assert Target(e) in OnStack(st.visited);
    assert Detour(g, path, e, [], [Target(e)]);
  }

  lemma WalkFrom(g: Graph, path: seq<Entry>, e: Entry, way: seq<Entry>, n: Entry, loop: seq<Item>)
    requires GraphOk(g) && Walk(g, path + [e]) && Distinct(path + [e]) && Target(e) in g.dependents && Calls(g, e, n)
    requires Detour(g, path + [e], n, way, loop)
    ensures var es := [e] + way; Walk(g, es) && Distinct(es) && BackTo(g, es, loop[0]) && Walk(g, path + es) && Distinct(path + es)
  {
    hide GraphOk, Next, Backwards;
    var es := [e] + way;
    assert path + es == path + [e] + way;
    assert path + [e] + [] == path + [e];
    WalkEnd(g, path, es);
    assert (path + [e])[|path|] == e;
    if way == [] { assert Calls(g, es[|es| - 1], n); }
    else {
      assert way[|way| - 1] == es[|es| - 1];
      var last :| Calls(g, way[|way| - 1], last) && Target(last) == loop[0];
      assert Calls(g, es[|es| - 1], last);
    }
  }

  lemma WalkEnd(g: Graph, path: seq<Entry>, es: seq<Entry>)
    requires GraphOk(g) && Walk(g, path + es) && Distinct(path + es)
    ensures Walk(g, es) && Distinct(es)
  {
    forall k | 0 <= k < |es| ensures Target(es[k]) in g.dependents { assert (path + es)[|path| + k] == es[k]; }
    forall k | 0 <= k < |es| - 1 ensures Calls(g, es[k], es[k + 1]) {
      assert (path + es)[|path| + k] == es[k] && (path + es)[|path| + k + 1] == es[k + 1];
    }
    forall j, k | 0 <= j < k < |es| ensures Target(es[j]) != Target(es[k]) {
      assert (path + es)[|path| + j] == es[j] && (path + es)[|path| + k] == es[k];
    }
  }

  lemma WayBack(g: Graph, e: Entry, path: seq<Entry>, r: Outcome)
    requires GraphOk(g) && Walk(g, path + [e]) && Distinct(path + [e]) && Target(e) in g.dependents && Linked(g, Target(e))
    requires Accounted(g, path + [e], Next(g, e), r)
    ensures Accounted(g, path, [e], OnTheWayBack(r, Target(e)))
  {
    hide Next, Linked, Walk, Distinct, BackTo;
    if r.Partial? {
      var i := Target(e);
      var n, way :| n in Next(g, e) && Detour(g, path + [e], n, way, r.loop);
      var loop, es := r.loop, [e] + way;
      assert Calls(g, e, n);
      assert path + es == path + [e] + way;
      assert es[1..] == way;
      WalkFrom(g, path, e, way, n, loop);
      if i == loop[0] { assert Circle(g, es) && loop == Report(es); }
      else {
        assert loop + [i] == [loop[0]] + Backwards(es);
        assert Detour(g, path, e, es, loop + [i]);
      }
    }
  }

  /** A symbol and its choice alone are reported only if the choice depends on the symbol:
      being a member is not by itself a loop. */
  lemma NoFalsePair(g: Graph, es: seq<Entry>, m: nat, c: nat)
    requires GraphOk(g) && Circle(g, es) && |es| == 2
    requires (Target(es[0]) == SymI(m) && Target(es[1]) == ChoiceI(c)) || (Target(es[0]) == ChoiceI(c) && Target(es[1]) == SymI(m))
    ensures ChoiceI(c) in g.dependents[SymI(m)]
  {
    assert Calls(g, es[0], es[1]);
    var n :| Calls(g, es[1], n) && Target(n) == Target(es[0]);
    NextAre(g, es[0]);
    NextAre(g, es[1]);
  }

  // ---- the whole check ----

  /** The calls that the parser makes. */
  function Roots(defined: seq<nat>): (es: seq<Entry>)
    ensures |es| == |defined| && forall k | 0 <= k < |es| :: es[k] == AsSym(defined[k], false)
  {
    seq(|defined|, k requires 0 <= k < |defined| => AsSym(defined[k], false))
  }

  function Start(g: Graph): State { State(map i | i in g.dependents :: 0, []) }

  ghost predicate AllKnown(g: Graph, defined: seq<nat>) { forall s <- defined :: SymI(s) in g.dependents }

  /** The outcome of the check, and the colours it leaves. */
  ghost function Checked(g: Graph, defined: seq<nat>): (Outcome, State)
    requires GraphOk(g) && AllKnown(g, defined)
  {
    VisitAll(g, Roots(defined), Start(g))
  }

  /** The check raises only for a loop, and tells that loop. */
  lemma RaisedIsCircle(g: Graph, defined: seq<nat>)
    requires GraphOk(g) && AllKnown(g, defined)
    ensures var r := Checked(g, defined).0; r.NoLoop? || (r.Raised? && exists es :: Circle(g, es) && r.loop == Report(es))
  {
    hide GraphOk, VisitAll, Circle;
    assert OnStack(Start(g).visited) == {} && Targets([]) == {};
    AllAccounted(g, Roots(defined), Start(g), []);
  }
}
