/** What an accepted configuration is known to have: the items in the order in which the
    loop check finished them, and heights that rise along the dependencies. */
module KconfigOrder {
  import opened Basics
  import opened KconfigModel
  import opened KconfigWalk

  // ---- the order in which the items are finished ----

  /** All members of the choice are done, except the one through which it was entered;
      the dependents of that one are. */
  ghost predicate Through(g: Graph, done: seq<Item>, c: nat, x: Option<nat>)
    requires c < |g.cfg.choices|
  {
    && (forall m <- g.cfg.choices[c].syms :: Some(m) == x || SymI(m) in done)
    && (x.Some? ==> HomeDone(g, x.value, c, set i | i in done))
  }

  ghost predicate HomeDone(g: Graph, s: nat, c: nat, done: set<Item>) {
    && s < |g.cfg.syms| && g.cfg.syms[s].choice == Some(c) && SymI(s) in g.dependents
    && forall d <- g.dependents[SymI(s)] :: d in done
  }

  ghost predicate Finished(g: Graph, done: seq<Item>, i: Item) {
    && i in g.dependents
    && match i
       case SymI(s) => forall d <- g.dependents[i] :: d in done
       case ChoiceI(c) => c < |g.cfg.choices| && exists x :: Through(g, done, c, x)
  }

  ghost predicate OrderOk(g: Graph, order: seq<Item>) {
    forall k {:trigger order[..k]} | 0 <= k < |order| :: Finished(g, order[..k], order[k])
  }

  ghost predicate Colours(g: Graph, st: State) {
    && st.visited.Keys == g.dependents.Keys && OrderOk(g, st.order)
    && (forall i | i in st.visited :: 0 <= st.visited[i] <= 2 && (st.visited[i] == 2 <==> i in st.order))
  }

  /** A choice is entered through a member only after the dependents of that member. */
  ghost predicate Arrived(g: Graph, e: Entry, done: set<Item>) {
    e.AsChoice? && e.skip.Some? ==> HomeDone(g, e.skip.value, e.c, done)
  }

  ghost predicate AllArrive(g: Graph, es: seq<Entry>, done: set<Item>) {
    es != [] ==> Arrived(g, es[0], done) && AllArrive(g, es[1..], done + {Target(es[0])})
  }

  lemma {:induction false} ArriveLater(g: Graph, es: seq<Entry>, done: set<Item>, more: set<Item>)
    requires AllArrive(g, es, done) && done <= more
    ensures AllArrive(g, es, more)
  {
    if es != [] { ArriveLater(g, es[1..], done + {Target(es[0])}, more + {Target(es[0])}); }
  }

  lemma {:induction false} DependentsArrive(g: Graph, ds: seq<Item>, rest: seq<Entry>, done: set<Item>)
    requires AllArrive(g, rest, done + set d | d in ds)
    ensures AllArrive(g, AsDependents(ds) + rest, done)
  {
    var es := AsDependents(ds) + rest;
    if ds == [] { assert es == rest; assert done + (set d | d in ds) == done; }
    else {
      assert es[0] == AsDependent(ds[0]);
      assert es[1..] == AsDependents(ds[1..]) + rest;
      assert done + {ds[0]} + (set d | d in ds[1..]) == done + set d | d in ds;
      DependentsArrive(g, ds[1..], rest, done + {ds[0]});
    }
  }

  lemma {:induction false} MembersArrive(g: Graph, ss: seq<nat>, skip: Option<nat>, done: set<Item>)
    ensures AllArrive(g, AsMembers(ss, skip), done)
  {
    if ss != [] {
      MembersArrive(g, ss[1..], skip, done);
      var es := AsMembers(ss, skip);
      if skip != Some(ss[0]) {
        assert es[0] == AsSym(ss[0], true) && es[1..] == AsMembers(ss[1..], skip);
        MembersArrive(g, ss[1..], skip, done + {SymI(ss[0])});
      } else { assert es == AsMembers(ss[1..], skip); }
    }
  }

  lemma NextArrive(g: Graph, e: Entry, done: set<Item>)
    requires GraphOk(g) && Target(e) in g.dependents && Linked(g, Target(e))
    ensures AllArrive(g, Next(g, e), done)
  {
    hide GraphOk;
    if e.AsChoice? { MembersArrive(g, g.cfg.choices[e.c].syms, e.skip, done); }
    else {
      var ds := g.dependents[SymI(e.s)];
      var rest := if g.cfg.syms[e.s].choice.Some? && !e.ignoreChoice then [AsChoice(g.cfg.syms[e.s].choice.value, Some(e.s))] else [];
      assert AllArrive(g, rest, done + set d | d in ds);
      DependentsArrive(g, ds, rest, done);
    }
  }

  lemma {:induction false} VisitInOrder(g: Graph, e: Entry, st: State)
    requires GraphOk(g) && Colours(g, st) && Target(e) in g.dependents && Arrived(g, e, set i | i in st.order)
    ensures var (r, st') := Visit(g, e, st); r.NoLoop? ==> Colours(g, st') && st.order <= st'.order && Target(e) in st'.order
    decreases |Unvisited(st.visited)|, 0
  {
    hide VisitAll, Unvisited, OnStack, GraphOk, Next, OrderOk, Arrived;
    var i := Target(e);
    if st.visited[i] == 0 {
      EnterFewer(st, i);
      NextAre(g, e);
      NextArrive(g, e, set j | j in st.order);
      var st0 := Enter(st, i);
      assert Colours(g, st0) by { assert st0.visited.Keys == st.visited.Keys; }
      AllInOrder(g, Next(g, e), st0);
      var (r, st1) := VisitAll(g, Next(g, e), st0);
      if r.NoLoop? { FinishedAfter(g, e, st.order, st1); }
    }
  }

  lemma {:induction false} AllInOrder(g: Graph, es: seq<Entry>, st: State)
    requires GraphOk(g) && Colours(g, st) && forall e <- es :: Target(e) in g.dependents
    requires AllArrive(g, es, set i | i in st.order)
    ensures var (r, st') := VisitAll(g, es, st);
            r.NoLoop? ==> Colours(g, st') && st.order <= st'.order && forall e <- es :: Target(e) in st'.order
    decreases |Unvisited(st.visited)|, |es|
  {
    hide Visit, Unvisited, OnStack, GraphOk, OrderOk, Arrived;
    if es != [] {
      var (r, st1) := Visit(g, es[0], st);
      VisitInOrder(g, es[0], st);
      if r.NoLoop? {
        SubsetSize(Unvisited(st1.visited), Unvisited(st.visited));
        assert forall j | j in st.order :: j in st1.order;
        ArriveLater(g, es[1..], (set i | i in st.order) + {Target(es[0])}, set i | i in st1.order);
        AllInOrder(g, es[1..], st1);
      }
    }
  }

  lemma FinishedAfter(g: Graph, e: Entry, before: seq<Item>, st: State)
    requires GraphOk(g) && Colours(g, st) && Target(e) in g.dependents && Linked(g, Target(e)) && before <= st.order
    requires Arrived(g, e, set i | i in before) && forall n <- Next(g, e) :: Target(n) in st.order
    ensures Colours(g, Leave(st, Target(e)))
  {
    var i := Target(e);
    var order := st.order + [i];
    NextAre(g, e);
    hide GraphOk, Next;
    assert Finished(g, st.order, i) by {
      if e.AsChoice? {
        forall m <- g.cfg.choices[e.c].syms ensures Some(m) == e.skip || SymI(m) in st.order {
          if Some(m) != e.skip { assert AsSym(m, true) in Next(g, e); }
        }
        assert forall j | j in before :: j in st.order;
        assert Through(g, st.order, e.c, e.skip);
      } else {
        forall d <- g.dependents[i] ensures d in st.order { assert AsDependent(d) in Next(g, e); }
      }
    }
    forall k | 0 <= k < |order| ensures Finished(g, order[..k], order[k]) { assert order[..k] == st.order[..k]; }
    assert Leave(st, i).visited.Keys == st.visited.Keys;
  }

  // ---- heights ----

  /** The first position of an item in the order. */
  ghost function Position(order: seq<Item>, i: Item): nat
    requires i in order
  {
    if order[0] == i then 0 else 1 + Position(order[1..], i)
  }

  lemma {:induction false} PositionIsFirst(order: seq<Item>, i: Item)
    requires i in order
    ensures var p := Position(order, i); p < |order| && order[p] == i && i !in order[..p]
  {
    if order[0] != i {
      PositionIsFirst(order[1..], i);
      var p := Position(order[1..], i);
      assert order[..p + 1] == [order[0]] + order[1..][..p];
    }
  }

  lemma FirstIn(order: seq<Item>, i: Item, k: nat)
    requires k <= |order| && i in order[..k]
    ensures i in order && Position(order, i) < k
  {
    PositionIsFirst(order, i);
    var j: nat :| j < k && order[..k][j] == i;
    assert forall q | k <= q <= |order| :: i == order[..q][j];
  }

  /** Finished later is lower; what was never visited is lowest. */
  ghost function Base(order: seq<Item>, i: Item): int {
    if i in order then |order| - Position(order, i) + 1 else if i.ChoiceI? then 1 else 0
  }

  /** The symbol is a member of a finished choice that was entered through it. */
  ghost predicate Gate(g: Graph, order: seq<Item>, i: Item) {
    && i.SymI? && i.s < |g.cfg.syms| && g.cfg.syms[i.s].choice.Some?
    && var c := ChoiceI(g.cfg.syms[i.s].choice.value);
       c in order && |order| >= Position(order, c) && i !in order[..Position(order, c)]
  }

  /** Higher for an item than for all it depends on: a symbol through which its choice was
      entered is put just above the choice. */
  ghost function Height(g: Graph, order: seq<Item>, i: Item): int {
    if Gate(g, order, i) then 2 * Base(order, ChoiceI(g.cfg.syms[i.s].choice.value)) + 1 else 2 * Base(order, i)
  }

  lemma BaseBounds(order: seq<Item>, i: Item)
    ensures 0 <= Base(order, i) <= |order| + 1 && (i in order ==> Base(order, i) >= 2)
  {
    if i in order { PositionIsFirst(order, i); }
  }

  lemma HeightBounds(g: Graph, order: seq<Item>, i: Item)
    ensures 0 <= Height(g, order, i) <= 2 * |order| + 3 && Height(g, order, i) >= 2 * Base(order, i)
    ensures i in order ==> Height(g, order, i) >= 4
    ensures i.ChoiceI? ==> Height(g, order, i) == 2 * Base(order, i)
  {
    BaseBounds(order, i);
    if Gate(g, order, i) {
      var c := ChoiceI(g.cfg.syms[i.s].choice.value);
      BaseBounds(order, c);
      PositionIsFirst(order, c);
      if i in order { PositionIsFirst(order, i); }
    }
  }

  /** A dependent is higher than what it depends on. */
  lemma DependentIsHigher(g: Graph, order: seq<Item>, s: nat, d: Item)
    requires GraphOk(g) && OrderOk(g, order) && SymI(s) in order && SymI(s) in g.dependents && d in g.dependents[SymI(s)]
    ensures d in order && Height(g, order, SymI(s)) < Height(g, order, d)
  {
    var i := SymI(s);
    assert Linked(g, i);
    hide GraphOk;
    PositionIsFirst(order, i);
    HeightBounds(g, order, d);
    if Gate(g, order, i) {
      var c := g.cfg.syms[s].choice.value;
      var p := Position(order, ChoiceI(c));
      PositionIsFirst(order, ChoiceI(c));
      assert Finished(g, order[..p], order[p]);
      var x :| Through(g, order[..p], c, x);
      assert x == Some(s);
      FirstIn(order, d, p);
    } else {
      assert Finished(g, order[..Position(order, i)], order[Position(order, i)]);
      FirstIn(order, d, Position(order, i));
    }
  }

  /** A member is higher than its choice. */
  lemma MemberIsHigher(g: Graph, order: seq<Item>, c: nat, m: nat)
    requires GraphOk(g) && OrderOk(g, order) && c < |g.cfg.choices| && m in g.cfg.choices[c].syms && SymI(m) in order
    ensures Height(g, order, ChoiceI(c)) < Height(g, order, SymI(m))
  {
    hide GraphOk;
    HeightBounds(g, order, ChoiceI(c));
    HeightBounds(g, order, SymI(m));
    if ChoiceI(c) in order {
      var p := Position(order, ChoiceI(c));
      PositionIsFirst(order, ChoiceI(c));
      assert Finished(g, order[..p], order[p]);
      if SymI(m) in order[..p] { FirstIn(order, SymI(m), p); }
      else {
        var x :| Through(g, order[..p], c, x);
        assert x == Some(m);
      }
    }
  }

  // ---- the loops that are always found ----

  /** A symbol calls for its own choice. */
  predicate Climb(e: Entry) { e.AsChoice? && e.skip.Some? }

  /** A loop that leads from symbols to their dependents and from choices to their members
      only. */
  ghost predicate DownCircle(g: Graph, es: seq<Entry>)
    requires GraphOk(g)
  {
    && es != [] && Walk(g, es) && (forall k | 0 <= k < |es| :: !Climb(es[k]))
    && exists n {:trigger Target(n)} :: Calls(g, es[|es| - 1], n) && Target(n) == Target(es[0]) && !Climb(n)
  }

  /** Every symbol that is a dependent or a member is among the defined ones. */
  ghost predicate AllDefined(g: Graph, defined: seq<nat>) {
    && (forall i, d | i in g.dependents && d in g.dependents[i] && d.SymI? :: d.s in defined)
    && (forall c, m | 0 <= c < |g.cfg.choices| && m in g.cfg.choices[c].syms :: m in defined)
  }

  /** The order that an accepted configuration leaves. */
  ghost predicate Ordered(g: Graph, defined: seq<nat>, order: seq<Item>) {
    OrderOk(g, order) && forall s <- defined :: SymI(s) in order
  }

  lemma AcceptedIsOrdered(g: Graph, defined: seq<nat>)
    requires GraphOk(g) && AllKnown(g, defined)
    ensures Checked(g, defined).0.NoLoop? ==> Ordered(g, defined, Checked(g, defined).1.order)
  {
    hide GraphOk, VisitAll;
    RootsArrive(g, defined, {});
    assert (set i | i in Start(g).order) == {};
    AllInOrder(g, Roots(defined), Start(g));
    forall s <- defined ensures AsSym(s, false) in Roots(defined) {
      var k :| 0 <= k < |defined| && defined[k] == s;
      assert Roots(defined)[k] == AsSym(s, false);
    }
  }

  lemma {:induction false} RootsArrive(g: Graph, defined: seq<nat>, done: set<Item>)
    ensures AllArrive(g, Roots(defined), done)
  {
    if defined != [] {
      RootsArrive(g, defined[1..], done + {SymI(defined[0])});
      assert Roots(defined)[1..] == Roots(defined[1..]);
    }
  }

  lemma StepRises(g: Graph, defined: seq<nat>, order: seq<Item>, e: Entry, n: Entry)
    requires GraphOk(g) && AllDefined(g, defined) && Ordered(g, defined, order)
    requires Target(e) in g.dependents && Calls(g, e, n) && !Climb(n) && (e.AsSym? ==> Target(e) in order)
    ensures Target(n) in order && Height(g, order, Target(e)) < Height(g, order, Target(n))
  {
    NextAre(g, e);
    hide Next, Height, OrderOk;
    if e.AsSym? { DependentIsHigher(g, order, e.s, Target(n)); } else { MemberIsHigher(g, order, e.c, n.s); }
  }

  lemma {:induction false} WalkRises(g: Graph, defined: seq<nat>, order: seq<Item>, es: seq<Entry>, k: nat)
    requires GraphOk(g) && AllDefined(g, defined) && Ordered(g, defined, order)
    requires k < |es| && Walk(g, es) && (forall j | 0 <= j < |es| :: !Climb(es[j])) && (es[0].AsSym? ==> Target(es[0]) in order)
    ensures Height(g, order, Target(es[0])) <= Height(g, order, Target(es[k])) && (es[k].AsSym? ==> Target(es[k]) in order)
  {
    hide GraphOk, AllDefined, Ordered, Calls, Height;
    if k > 0 {
      WalkRises(g, defined, order, es, k - 1);
      assert Calls(g, es[k - 1], es[k]);
      StepRises(g, defined, order, es[k - 1], es[k]);
    }
  }

  /** Only a loop in which some member calls for its own choice can escape the check. */
  lemma DownCirclesAreFound(g: Graph, defined: seq<nat>, es: seq<Entry>)
    requires GraphOk(g) && AllKnown(g, defined) && AllDefined(g, defined) && Checked(g, defined).0.NoLoop?
    ensures !DownCircle(g, es)
  {
    hide Checked, Height;
    var order := Checked(g, defined).1.order;
    AcceptedIsOrdered(g, defined);
    if DownCircle(g, es) {
      var last := |es| - 1;
      var n :| Calls(g, es[last], n) && Target(n) == Target(es[0]) && !Climb(n);
      NextAre(g, es[last]);
      hide Next, OrderOk, GraphOk, Linked;
      if es[0].AsSym? { assert n.s in defined; }
      WalkRises(g, defined, order, es, last);
      StepRises(g, defined, order, es[last], n);
    }
  }
}
