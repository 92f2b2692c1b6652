/** Three configurations that the loop check accepts and whose evaluation asks for itself
    without end, one for each blind spot; and one with a choice that is in order. */
module KconfigMissed {
  import opened Basics
  import opened KconfigModel
  import opened KconfigFresh
  import opened KconfigCoherence
  import opened KconfigDependents
  import opened KconfigWalk
  import opened KconfigLoops
  import opened KconfigLayers

  /** The evaluation of c comes to the value of d. */
  ghost predicate Asks(cfg: Config, u: User, env: Env, c: Cell, d: Cell)
    requires WellFormed(cfg)
  {
    CellOk(cfg, c) && d in Body(cfg, u, c, env).r
  }

  /** What the environment says of a cell is what its own calculation gives. */
  ghost predicate Settled(cfg: Config, u: User, env: Env, c: Cell)
    requires WellFormed(cfg)
  {
    CellOk(cfg, c) && env(c) == Body(cfg, u, c, env).v
  }

  function Sym(name: string, ty: Type, prompt: Expr, choice: Option<nat>): Symbol {
    Symbol(name, true, ty, [prompt], [], [], N, N, prompt, choice, false)
  }

  function Config3(syms: seq<Symbol>, choices: seq<Choice>): Config {
    Config(syms, choices, 0, (_, _) => None, (_, _) => "")
  }

  function NoModules(): Symbol { Symbol("MODULES", false, UNKNOWN, [], [], [], N, N, N, None, false) }

  lemma SymMentions(cfg: Config, s: nat)
    requires s < |cfg.syms| && cfg.syms[s].defined && |cfg.syms[s].prompts| == 1
    requires cfg.syms[s] == Sym(cfg.syms[s].name, cfg.syms[s].origType, cfg.syms[s].prompts[0], cfg.syms[s].choice)
    ensures Mentions(cfg, SymI(s)) == ExprItems(cfg.syms[s].prompts[0])
  {
    var p := cfg.syms[s].prompts[0];
    FourItems(p, N, N, p);
    assert DepExprs(cfg, SymI(s)) == [p, N, N, p];
  }

  lemma ChoiceMentions(cfg: Config, c: nat, p: Expr)
    requires c < |cfg.choices| && cfg.choices[c].prompts == [p] && cfg.choices[c].defaults == []
    ensures Mentions(cfg, ChoiceI(c)) == ExprItems(p)
  {
    assert DepExprs(cfg, ChoiceI(c)) == [p];
    assert [p][..0] == [] && [p][|[p]| - 1] == p;
    assert ExprsItems([p]) == ExprsItems([]) + ExprItems(p);
  }

  lemma Elements(list: seq<Item>)
    requires Once(list)
    ensures |list| >= 1 ==> list[0] in list
    ensures |list| >= 2 ==> exists i, j :: i in list && j in list && i != j
  {
    if |list| >= 2 { assert list[0] in list && list[1] in list && list[0] != list[1]; }
  }

  lemma NoDependents(cfg: Config, g: Graph, i: Item)
    requires GraphOf(cfg, g) && ItemOk(cfg, i) && forall j | ItemOk(cfg, j) :: i !in Mentions(cfg, j)
    ensures i in g.dependents && g.dependents[i] == []
  {
    hide Mentions;
    var list := g.dependents[i];
    Elements(list);
  }

  lemma OneDependent(cfg: Config, g: Graph, i: Item, d: Item)
    requires GraphOf(cfg, g) && ItemOk(cfg, i) && ItemOk(cfg, d) && forall j | ItemOk(cfg, j) :: i in Mentions(cfg, j) <==> j == d
    ensures i in g.dependents && g.dependents[i] == [d]
  {
    hide Mentions;
    var list := g.dependents[i];
    assert d in list && Once(list);
    Elements(list);
  }

  // ---- following the check by hand ----

  /** The calls find nothing and lead from one state to the other. */
  ghost predicate Quiet(g: Graph, es: seq<Entry>, st: State, st': State) {
    && GraphOk(g) && st.visited.Keys == g.dependents.Keys && (forall e <- es :: Target(e) in g.dependents)
    && VisitAll(g, es, st) == (NoLoop, st')
  }

  lemma QuietNone(g: Graph, st: State)
    requires GraphOk(g) && st.visited.Keys == g.dependents.Keys
    ensures Quiet(g, [], st, st)
  {
  }

  lemma QuietSeen(g: Graph, es: seq<Entry>, e: Entry, rest: seq<Entry>, st: State, st': State)
    requires es == [e] + rest && Quiet(g, rest, st, st') && Target(e) in g.dependents && st.visited[Target(e)] == 2
    ensures Quiet(g, es, st, st')
  {
    VisitSeen(g, e, st);
    assert es[1..] == rest;
  }

  /** A first visit: the calls it makes, then the calls after it. */
  lemma QuietVisit(g: Graph, es: seq<Entry>, e: Entry, rest: seq<Entry>, st: State, st1: State, st': State)
    requires es == [e] + rest && GraphOk(g) && st.visited.Keys == g.dependents.Keys && Target(e) in g.dependents && st.visited[Target(e)] == 0
    requires Linked(g, Target(e)) && Quiet(g, Next(g, e), Enter(st, Target(e)), st1) && Quiet(g, rest, Leave(st1, Target(e)), st')
    ensures Quiet(g, es, st, st')
  {
    hide Next, GraphOk;
    VisitUnfolds(g, e, st);
    assert es[1..] == rest;
  }

  // ---- a loop through MODULES ----

  /** MODULES, visible only if the tristate T is, and T itself. */
  function ModulesOnTristate(): Config {
    Config3([Sym("MODULES", BOOL, At(SymA(1)), None), Sym("T", TRISTATE, Y, None)], [])
  }

  lemma ModulesMentions(cfg: Config)
    requires cfg == ModulesOnTristate()
    ensures WellFormed(cfg) && Mentions(cfg, SymI(0)) == {SymI(1)} && Mentions(cfg, SymI(1)) == {}
  {
    forall s | 0 <= s < |cfg.syms| ensures SymbolOk(cfg, cfg.syms[s]) { assert s == 0 || s == 1; }
    SymMentions(cfg, 0);
    SymMentions(cfg, 1);
  }

  /** Two symbols outside choices, of which the second is a dependent of nothing and the
      first of the second. */
  ghost predicate TwoInLine(g: Graph) {
    && |g.cfg.syms| == 2 && (forall s | 0 <= s < 2 :: g.cfg.syms[s].defined && g.cfg.syms[s].choice.None?)
    && g.dependents.Keys == {SymI(0), SymI(1)} && g.dependents[SymI(0)] == [] && g.dependents[SymI(1)] == [SymI(0)]
  }

  lemma ModulesInLine(cfg: Config, g: Graph)
    requires cfg == ModulesOnTristate() && GraphOf(cfg, g)
    ensures TwoInLine(g)
  {
    ModulesMentions(cfg);
    hide Mentions, GraphOf, WellFormed;
    assert g.cfg == cfg && g.dependents.Keys == AllItems(cfg) by { ItsItems(cfg, g); }
    assert AllItems(cfg) == {SymI(0), SymI(1)};
    NoDependents(cfg, g, SymI(0));
    OneDependent(cfg, g, SymI(1), SymI(0));
  }

  lemma ItsItems(cfg: Config, g: Graph)
    requires GraphOf(cfg, g)
    ensures g.cfg == cfg && g.dependents.Keys == AllItems(cfg)
  {
  }

  lemma InLineIsQuiet(g: Graph) returns (st: State)
    requires GraphOk(g) && TwoInLine(g)
    ensures Quiet(g, Roots([0, 1]), Start(g), st)
  {
    hide GraphOk, Quiet;
    var a, b := AsSym(0, false), AsSym(1, false);
    var st0 := Enter(Start(g), SymI(0));
    var st1 := Leave(st0, SymI(0));
    var st2 := Enter(st1, SymI(1));
    st := Leave(st2, SymI(1));
    assert Next(g, a) == [] && Next(g, b) == [a];
    QuietNone(g, st0);
    QuietNone(g, st2); QuietSeen(g, [a], a, [], st2, st2);
    QuietNone(g, st); QuietVisit(g, [b], b, [], st1, st2, st);
    QuietVisit(g, Roots([0, 1]), a, [b], Start(g), st0, st);
  }

  lemma ModulesAccepted(cfg: Config, g: Graph)
    requires cfg == ModulesOnTristate() && GraphOf(cfg, g)
    ensures WellFormed(cfg) && Accepted(cfg, g)
  {
    ModulesMentions(cfg);
    ModulesInLine(cfg, g);
    DefinedAreAll(cfg, g);
    hide GraphOf, GraphOk, Quiet, WellFormed, TwoInLine, Accepted;
    assert DefinedSymbols(cfg, 0) == [] && DefinedSymbols(cfg, 1) == [0] && DefinedSymbols(cfg, 2) == [0, 1];
    var st := InLineIsQuiet(g);
    QuietIsAccepted(cfg, g, st);
  }

  lemma QuietIsAccepted(cfg: Config, g: Graph, st: State)
    requires WellFormed(cfg) && GraphOf(cfg, g) && Quiet(g, Roots(DefinedSymbols(cfg, |cfg.syms|)), Start(g), st)
    ensures Accepted(cfg, g)
  {
    hide GraphOf, GraphOk, WellFormed, VisitAll;
    DefinedAreAll(cfg, g);
  }

  /** Accepted; but once the user asks for T = m, MODULES asks for T and T for MODULES,
      whatever the other values are. */
  lemma ModulesLoopIsMissed(cfg: Config, g: Graph, u: User, env: Env)
    requires cfg == ModulesOnTristate() && GraphOf(cfg, g) && u == User(map[1 := UserTri(1)], map[], map[])
    requires WellFormed(cfg) ==> Settled(cfg, u, env, VisC(SymI(1)))
    ensures WellFormed(cfg) && Accepted(cfg, g) && GraphOk(g) && (forall es :: !Circle(g, es)) && !Rankable(cfg)
    ensures Asks(cfg, u, env, TriC(0), VisC(SymI(0))) && Asks(cfg, u, env, VisC(SymI(0)), TriC(1)) && Asks(cfg, u, env, TriC(1), TriC(0))
  {
    hide Accepted, GraphOf, Settled, WellFormed, Body, Rankable, Circle, GraphOk;
    ModulesMentions(cfg);
    ModulesAccepted(cfg, g);
    ExactWithoutChoices(cfg, g);
    ModulesAsk(cfg, u, env);
    NoRankAround(cfg, u, env, TriC(0), VisC(SymI(0)), TriC(1));
  }

  lemma ModulesAsk(cfg: Config, u: User, env: Env)
    requires cfg == ModulesOnTristate() && u == User(map[1 := UserTri(1)], map[], map[]) && WellFormed(cfg)
    requires Settled(cfg, u, env, VisC(SymI(1)))
    ensures Asks(cfg, u, env, TriC(0), VisC(SymI(0))) && Asks(cfg, u, env, VisC(SymI(0)), TriC(1)) && Asks(cfg, u, env, TriC(1), TriC(0))
  {
    OneMax(cfg, u, Y, env);
    OneMax(cfg, u, At(SymA(1)), env);
    assert T(env(VisC(SymI(1)))) == 2;
  }

  /** Cells that ask for each other in a circle cannot be ranked. */
  lemma NoRankAround(cfg: Config, u: User, env: Env, a: Cell, b: Cell, c: Cell)
    requires WellFormed(cfg) && UserOk(cfg, u)
    requires Asks(cfg, u, env, a, b) && Asks(cfg, u, env, b, c) && Asks(cfg, u, env, c, a)
    ensures !Rankable(cfg)
  {
    hide Body, MayRead, UserOk, WellFormed;
    BodyReadsAll(cfg, u, a, env); BodyReadsAll(cfg, u, b, env); BodyReadsAll(cfg, u, c, env);
    forall rank ensures !Ranked(cfg, rank) {
      assert !(ReadsBelow(cfg, rank, a) && ReadsBelow(cfg, rank, b) && ReadsBelow(cfg, rank, c));
    }
  }

  // ---- a choice ----

  /** A choice of X, B and A, in which B has the given condition. */
  function ThreeMembers(b: Expr): Config {
    Config3([NoModules(), Sym("X", BOOL, ChoiceE(0), Some(0)), Sym("B", BOOL, b, Some(0)), Sym("A", BOOL, ChoiceE(0), Some(0))],
            [Choice(BOOL, [Y], [], [1, 2, 3], false)])
  }

  lemma ThreeWellFormed(cfg: Config, b: Expr)
    requires cfg == ThreeMembers(b) && ExprOk(cfg, b)
    ensures WellFormed(cfg)
  {
    forall s | 0 <= s < |cfg.syms| ensures SymbolOk(cfg, cfg.syms[s]) { assert s == 0 || s == 1 || s == 2 || s == 3; }
  }

  lemma ThreeShape(cfg: Config, b: Expr)
    requires cfg == ThreeMembers(b)
    ensures |cfg.syms| == 4 && |cfg.choices| == 1 && cfg.choices[0].syms == [1, 2, 3] && !cfg.syms[0].defined
    ensures forall s | 1 <= s < 4 :: cfg.syms[s].defined && cfg.syms[s].choice == Some(0)
    ensures forall j | ItemOk(cfg, j) :: j == SymI(0) || j == SymI(1) || j == SymI(2) || j == SymI(3) || j == ChoiceI(0)
  {
  }

  lemma ThreeMentions(cfg: Config, b: Expr)
    requires cfg == ThreeMembers(b)
    ensures Mentions(cfg, SymI(0)) == {} && Mentions(cfg, SymI(1)) == Mentions(cfg, SymI(3)) == {ChoiceI(0)}
    ensures Mentions(cfg, SymI(2)) == ExprItems(b) && Mentions(cfg, ChoiceI(0)) == {}
  {
    SymMentions(cfg, 1); SymMentions(cfg, 2); SymMentions(cfg, 3);
    ChoiceMentions(cfg, 0, Y);
  }

  lemma ThreeContained(cfg: Config, b: Expr)
    requires cfg == ThreeMembers(b) && ExprOk(cfg, b) && ChoiceI(0) in ExprItems(b)
    ensures WellFormed(cfg) && ChoicesContained(cfg)
  {
    ThreeWellFormed(cfg, b);
    ThreeMentions(cfg, b);
    hide DepExprs, WellFormed;
    forall s: nat | s < |cfg.syms| && cfg.syms[s].choice.Some? ensures ChoiceI(cfg.syms[s].choice.value) in DependsOn(cfg, SymI(s)) {
      assert s == 1 || s == 2 || s == 3;
      assert Mentions(cfg, SymI(s)) <= DependsOn(cfg, SymI(s));
    }
  }

  // ---- a loop between members ----

  const BIfA: Expr := And(ChoiceE(0), At(SymA(3)))

  /** A choice of three, of which the second is a dependent of the third. */
  ghost predicate SecondOnThird(g: Graph) {
    && |g.cfg.syms| == 4 && (forall s | 1 <= s < 4 :: g.cfg.syms[s].choice == Some(0))
    && |g.cfg.choices| == 1 && g.cfg.choices[0].syms == [1, 2, 3]
    && g.dependents.Keys == {SymI(0), SymI(1), SymI(2), SymI(3), ChoiceI(0)}
    && g.dependents[SymI(1)] == g.dependents[SymI(2)] == [] && g.dependents[SymI(3)] == [SymI(2)]
  }

  lemma MembersInWalk(cfg: Config, g: Graph)
    requires cfg == ThreeMembers(BIfA) && GraphOf(cfg, g)
    ensures SecondOnThird(g)
  {
    hide Mentions, GraphOf, ThreeMembers;
    ThreeShape(cfg, BIfA);
    ThreeMentions(cfg, BIfA);
    assert ExprItems(BIfA) == {ChoiceI(0), SymI(3)};
    ItsItems(cfg, g);
    assert AllItems(cfg) == {SymI(0), SymI(1), SymI(2), SymI(3), ChoiceI(0)};
    NoDependents(cfg, g, SymI(1));
    NoDependents(cfg, g, SymI(2));
    OneDependent(cfg, g, SymI(3), SymI(2));
  }

  lemma MembersAreQuiet(g: Graph) returns (st: State)
    requires GraphOk(g) && SecondOnThird(g)
    ensures Quiet(g, Roots([1, 2, 3]), Start(g), st)
  {
    hide GraphOk, Quiet, SecondOnThird, Next, Linked;
    var b, a := AsSym(2, false), AsSym(3, false);
    CallsHere(g);
    var st7 := ChoiceIsQuiet(g);
    st := Leave(st7, SymI(1));
    assert st.visited.Keys == g.dependents.Keys;
    QuietNone(g, st);
    QuietSeen(g, [a], a, [], st, st);
    QuietSeen(g, [b, a], b, [a], st, st);
    QuietVisit(g, Roots([1, 2, 3]), AsSym(1, false), [b, a], Start(g), st7, st);
  }

  lemma CallsHere(g: Graph)
    requires GraphOk(g) && SecondOnThird(g)
    ensures g.dependents.Keys == {SymI(0), SymI(1), SymI(2), SymI(3), ChoiceI(0)}
    ensures Linked(g, SymI(1)) && Linked(g, SymI(2)) && Linked(g, SymI(3)) && Linked(g, ChoiceI(0))
    ensures Next(g, AsSym(1, false)) == [AsChoice(0, Some(1))] && Next(g, AsSym(2, true)) == [] && Next(g, AsSym(3, true)) == [AsSym(2, false)]
    ensures Next(g, AsChoice(0, Some(1))) == [AsSym(2, true), AsSym(3, true)]
  {
    assert Linked(g, SymI(1)) && Linked(g, SymI(2)) && Linked(g, SymI(3)) && Linked(g, ChoiceI(0));
    hide GraphOk;
    MembersOf();
  }

  lemma MembersOf()
    ensures AsMembers([1, 2, 3], Some(1)) == [AsSym(2, true), AsSym(3, true)]
  {
    assert [1, 2, 3][1..] == [2, 3] && [2, 3][1..] == [3] && [3][1..] == [];
    assert AsMembers([3], Some(1)) == [AsSym(3, true)] && AsMembers([2, 3], Some(1)) == [AsSym(2, true), AsSym(3, true)];
  }

  /** The choice entered through X: B is finished before A is looked at. */
  lemma ChoiceIsQuiet(g: Graph) returns (st: State)
    requires GraphOk(g) && SecondOnThird(g)
    ensures Linked(g, SymI(1)) && Start(g).visited.Keys == g.dependents.Keys && Start(g).visited[SymI(1)] == 0
    ensures Quiet(g, Next(g, AsSym(1, false)), Enter(Start(g), SymI(1)), st)
    ensures st.visited.Keys == g.dependents.Keys && st.visited[SymI(2)] == st.visited[SymI(3)] == 2
  {
    hide GraphOk, Quiet, SecondOnThird, Next, Linked;
    var c, b, a := AsChoice(0, Some(1)), AsSym(2, true), AsSym(3, true);
    CallsHere(g);
    var st1 := Enter(Start(g), SymI(1));
    var st2 := Enter(st1, ChoiceI(0));
    var st3 := Enter(st2, SymI(2));
    var st4 := Leave(st3, SymI(2));
    var st5 := Enter(st4, SymI(3));
    var st6 := Leave(st5, SymI(3));
    st := Leave(st6, ChoiceI(0));
    QuietNone(g, st3);
    QuietNone(g, st5); QuietSeen(g, [AsSym(2, false)], AsSym(2, false), [], st5, st5);
    QuietNone(g, st6); QuietVisit(g, [a], a, [], st4, st5, st6);
    QuietVisit(g, [b, a], b, [a], st2, st3, st6);
    QuietNone(g, st); QuietVisit(g, [c], c, [], st1, st6, st);
  }

  lemma AllButFirst(cfg: Config)
    requires |cfg.syms| >= 3 && !cfg.syms[0].defined && forall s | 1 <= s < |cfg.syms| :: cfg.syms[s].defined
    ensures |cfg.syms| == 3 ==> DefinedSymbols(cfg, 3) == [1, 2]
    ensures |cfg.syms| == 4 ==> DefinedSymbols(cfg, 4) == [1, 2, 3]
  {
    assert DefinedSymbols(cfg, 0) == [] && DefinedSymbols(cfg, 1) == [] && DefinedSymbols(cfg, 2) == [1];
    assert DefinedSymbols(cfg, 3) == [1, 2];
  }

  lemma MembersAccepted(cfg: Config, g: Graph)
    requires cfg == ThreeMembers(BIfA) && GraphOf(cfg, g)
    ensures WellFormed(cfg) && Accepted(cfg, g)
  {
    hide GraphOf, GraphOk, Quiet, WellFormed, SecondOnThird, Accepted, ThreeMembers;
    ThreeShape(cfg, BIfA);
    ThreeWellFormed(cfg, BIfA);
    MembersInWalk(cfg, g);
    DefinedAreAll(cfg, g);
    AllButFirst(cfg);
    var st := MembersAreQuiet(g);
    QuietIsAccepted(cfg, g, st);
  }

  /** Accepted; but once the user selects B, the value of A asks for the selection, the
      selection for the visibility of B, and that for the value of A. */
  lemma MembersLoopIsMissed(cfg: Config, g: Graph, u: User, env: Env)
    requires cfg == ThreeMembers(BIfA) && GraphOf(cfg, g) && u == User(map[], map[], map[0 := 2])
    requires WellFormed(cfg) ==> Settled(cfg, u, env, VisC(ChoiceI(0))) && Settled(cfg, u, env, VisC(SymI(3)))
    ensures WellFormed(cfg) && ChoicesContained(cfg) && Accepted(cfg, g) && !Rankable(cfg)
    ensures Asks(cfg, u, env, TriC(3), SelC(0)) && Asks(cfg, u, env, SelC(0), VisC(SymI(2))) && Asks(cfg, u, env, VisC(SymI(2)), TriC(3))
  {
    hide Accepted, GraphOf, Settled, ChoicesContained, WellFormed, Body, Rankable;
    ThreeContained(cfg, BIfA);
    MembersAccepted(cfg, g);
    MembersAsk(cfg, u, env);
    NoRankAround(cfg, u, env, TriC(3), SelC(0), VisC(SymI(2)));
  }

  lemma OneMax(cfg: Config, u: User, e: Expr, env: Env)
    requires ExprOk(cfg, e)
    ensures EvalMax(cfg, u, [e], env) == Ev(EvalE(cfg, u, e, env).v, EvalE(cfg, u, e, env).r, false)
  {
    assert [e][..0] == [] && [e][|[e]| - 1] == e;
    assert EvalMax(cfg, u, [], env) == Ev(0, {}, false);
  }

  lemma MembersAsk(cfg: Config, u: User, env: Env)
    requires cfg == ThreeMembers(BIfA) && u == User(map[], map[], map[0 := 2]) && WellFormed(cfg)
    requires Settled(cfg, u, env, VisC(ChoiceI(0))) && Settled(cfg, u, env, VisC(SymI(3)))
    ensures Asks(cfg, u, env, TriC(3), SelC(0)) && Asks(cfg, u, env, SelC(0), VisC(SymI(2))) && Asks(cfg, u, env, VisC(SymI(2)), TriC(3))
  {
    OneMax(cfg, u, Y, env);
    OneMax(cfg, u, ChoiceE(0), env);
    OneMax(cfg, u, BIfA, env);
    assert T(env(VisC(ChoiceI(0)))) == 2;
    assert ChoiceTri(cfg, u, 0, env).v == 2;
    assert T(env(VisC(SymI(3)))) == 2;
    assert TriC(3) in EvalE(cfg, u, BIfA, env).r;
  }

  // ---- a loop through a symbol in a menu inside the choice ----

  /** A choice of A alone that is visible only if S is, and S, which has the choice in its
      condition but is no member. */
  function InsideOut(): Config {
    Config3([NoModules(), Sym("A", BOOL, ChoiceE(0), Some(0)), Sym("S", BOOL, ChoiceE(0), None)],
            [Choice(BOOL, [At(SymA(2))], [], [1], false)])
  }

  lemma InsideOutShape(cfg: Config)
    requires cfg == InsideOut()
    ensures |cfg.syms| == 3 && |cfg.choices| == 1 && cfg.choices[0].syms == [1] && !cfg.syms[0].defined
    ensures cfg.syms[1].defined && cfg.syms[1].choice == Some(0) && cfg.syms[2].defined && cfg.syms[2].choice == None
    ensures forall j | ItemOk(cfg, j) :: j == SymI(0) || j == SymI(1) || j == SymI(2) || j == ChoiceI(0)
  {
  }

  lemma InsideOutWellFormed(cfg: Config)
    requires cfg == InsideOut()
    ensures WellFormed(cfg)
  {
    forall s | 0 <= s < |cfg.syms| ensures SymbolOk(cfg, cfg.syms[s]) { assert s == 0 || s == 1 || s == 2; }
  }

  lemma InsideOutMentions(cfg: Config)
    requires cfg == InsideOut()
    ensures Mentions(cfg, SymI(0)) == {} && Mentions(cfg, SymI(1)) == Mentions(cfg, SymI(2)) == {ChoiceI(0)}
    ensures Mentions(cfg, ChoiceI(0)) == {SymI(2)}
  {
    SymMentions(cfg, 1); SymMentions(cfg, 2);
    ChoiceMentions(cfg, 0, At(SymA(2)));
  }

  lemma InsideOutContained(cfg: Config)
    requires cfg == InsideOut()
    ensures WellFormed(cfg) && ChoicesContained(cfg)
  {
    InsideOutWellFormed(cfg);
    InsideOutMentions(cfg);
    hide DepExprs, WellFormed;
    assert Mentions(cfg, SymI(1)) <= DependsOn(cfg, SymI(1));
  }

  ghost predicate ChoiceOnOutsider(g: Graph) {
    && |g.cfg.syms| == 3 && g.cfg.syms[1].choice == Some(0) && g.cfg.syms[2].choice == None
    && |g.cfg.choices| == 1 && g.cfg.choices[0].syms == [1]
    && g.dependents.Keys == {SymI(0), SymI(1), SymI(2), ChoiceI(0)}
    && g.dependents[SymI(1)] == [] && g.dependents[SymI(2)] == [ChoiceI(0)]
  }

  lemma OutsiderInWalk(cfg: Config, g: Graph)
    requires cfg == InsideOut() && GraphOf(cfg, g)
    ensures ChoiceOnOutsider(g)
  {
    hide Mentions, GraphOf, InsideOut;
    InsideOutShape(cfg);
    InsideOutMentions(cfg);
    ItsItems(cfg, g);
    assert AllItems(cfg) == {SymI(0), SymI(1), SymI(2), ChoiceI(0)};
    NoDependents(cfg, g, SymI(1));
    OneDependent(cfg, g, SymI(2), ChoiceI(0));
  }

  lemma OutsiderCalls(g: Graph)
    requires GraphOk(g) && ChoiceOnOutsider(g)
    ensures g.dependents.Keys == {SymI(0), SymI(1), SymI(2), ChoiceI(0)}
    ensures Linked(g, SymI(1)) && Linked(g, SymI(2)) && Linked(g, ChoiceI(0))
    ensures Next(g, AsSym(1, false)) == [AsChoice(0, Some(1))] && Next(g, AsChoice(0, Some(1))) == [] && Next(g, AsSym(2, false)) == [AsChoice(0, None)]
  {
    assert Linked(g, SymI(1)) && Linked(g, SymI(2)) && Linked(g, ChoiceI(0));
    hide GraphOk;
    assert AsMembers([1], Some(1)) == [] by { assert [1][1..] == []; }
  }

  lemma OutsiderIsQuiet(g: Graph) returns (st: State)
    requires GraphOk(g) && ChoiceOnOutsider(g)
    ensures Quiet(g, Roots([1, 2]), Start(g), st)
  {
    hide GraphOk, Quiet, ChoiceOnOutsider, Next, Linked;
    OutsiderCalls(g);
    var a, c, s, d := AsSym(1, false), AsChoice(0, Some(1)), AsSym(2, false), AsChoice(0, None);
    var st1 := Enter(Start(g), SymI(1));
    var st2 := Enter(st1, ChoiceI(0));
    var st3 := Leave(st2, ChoiceI(0));
    var st4 := Leave(st3, SymI(1));
    var st5 := Enter(st4, SymI(2));
    st := Leave(st5, SymI(2));
    QuietNone(g, st2);
    QuietNone(g, st3); QuietVisit(g, [c], c, [], st1, st2, st3);
    QuietNone(g, st5); QuietSeen(g, [d], d, [], st5, st5);
    QuietNone(g, st); QuietVisit(g, [s], s, [], st4, st5, st);
    QuietVisit(g, Roots([1, 2]), a, [s], Start(g), st3, st);
  }

  lemma OutsiderAccepted(cfg: Config, g: Graph)
    requires cfg == InsideOut() && GraphOf(cfg, g)
    ensures WellFormed(cfg) && Accepted(cfg, g)
  {
    hide GraphOf, GraphOk, Quiet, WellFormed, ChoiceOnOutsider, Accepted, InsideOut;
    InsideOutShape(cfg);
    InsideOutWellFormed(cfg);
    OutsiderInWalk(cfg, g);
    DefinedAreAll(cfg, g);
    AllButFirst(cfg);
    var st := OutsiderIsQuiet(g);
    QuietIsAccepted(cfg, g, st);
  }

  /** Accepted; but the choice asks for S, the value of S for its visibility, and that for
      the choice, whatever the values are. */
  lemma OutsiderLoopIsMissed(cfg: Config, g: Graph, u: User, env: Env)
    requires cfg == InsideOut() && GraphOf(cfg, g)
    ensures WellFormed(cfg) && ChoicesContained(cfg) && Accepted(cfg, g) && !Rankable(cfg)
    ensures var c := VisC(ChoiceI(0)); Asks(cfg, u, env, c, TriC(2)) && Asks(cfg, u, env, TriC(2), VisC(SymI(2))) && Asks(cfg, u, env, VisC(SymI(2)), c)
  {
    hide Accepted, GraphOf, ChoicesContained, WellFormed, Body, Rankable;
    InsideOutContained(cfg);
    OutsiderAccepted(cfg, g);
    OutsiderAsks(cfg, u, env);
    var nobody := User(map[], map[], map[]);
    OutsiderAsks(cfg, nobody, env);
    NoRankAround(cfg, nobody, env, VisC(ChoiceI(0)), TriC(2), VisC(SymI(2)));
  }

  lemma OutsiderAsks(cfg: Config, u: User, env: Env)
    requires cfg == InsideOut() && WellFormed(cfg)
    ensures var c := VisC(ChoiceI(0)); Asks(cfg, u, env, c, TriC(2)) && Asks(cfg, u, env, TriC(2), VisC(SymI(2))) && Asks(cfg, u, env, VisC(SymI(2)), c)
  {
    OneMax(cfg, u, At(SymA(2)), env);
    OneMax(cfg, u, ChoiceE(0), env);
  }

  // ---- a choice in order ----

  /** The choice, its members' visibilities, the selection, the values. */
  ghost function Layers(): Rank {
    (c: Cell) =>
      match c
      case VisC(ChoiceI(_)) => 0
      case VisC(SymI(_)) => 1
      case SelC(_) => 2
      case TriC(_) => 3
      case StrC(_) => 4
  }

  /** With B free of conditions everything is in order: the dependencies are recorded and
      the cells ranked. */
  lemma OrderlyChoice(cfg: Config)
    requires cfg == ThreeMembers(ChoiceE(0))
    ensures WellFormed(cfg) && ChoicesContained(cfg) && Ranked(cfg, Layers())
  {
    ThreeContained(cfg, ChoiceE(0));
    forall c | CellOk(cfg, c) ensures ReadsBelow(cfg, Layers(), c) { OrderlyReads(cfg, c); }
  }

  lemma OrderlyReads(cfg: Config, c: Cell)
    requires cfg == ThreeMembers(ChoiceE(0)) && WellFormed(cfg) && CellOk(cfg, c)
    ensures ReadsBelow(cfg, Layers(), c)
  {
    hide WellFormed;
    if c.SelC? { assert cfg.choices[c.c].syms == [1, 2, 3]; }
    else if ItemOf(c).SymI? { assert ItemOf(c).s == 0 || ItemOf(c).s == 1 || ItemOf(c).s == 2 || ItemOf(c).s == 3; }
  }
}
