/** Why the choices have to be contained: a choice whose default selection is a symbol
    outside it -- a configuration that draws only a warning -- can be left with a
    stale selection. */
module KconfigStale {
  import opened Basics
  import opened KconfigModel
  import opened KconfigFresh
  import opened KconfigCoherence

  function Plain(name: string, prompts: seq<Expr>): Symbol {
    Symbol(name, true, BOOL, prompts, [], [], N, N, Y, None, false)
  }

  /** MODULES, undefined; Y1, always visible; X, visible while Y1 is set; and the only
      symbol A of a choice whose default selection is X. */
  ghost function Escaping(): Config {
    Config([Symbol("MODULES", false, UNKNOWN, [], [], [], N, N, N, None, false),
            Plain("Y1", [Y]), Plain("X", [At(SymA(1))]),
            Plain("A", [ChoiceE(0)]).(directDep := ChoiceE(0), choice := Some(0))],
           [Choice(BOOL, [Y], [ChoiceDefault(2, Y)], [3], false)],
           0, (_, _) => None, (_, _) => "")
  }

  ghost function Layers(): Rank {
    (c: Cell) =>
      match c
      case VisC(SymI(s)) => if s == 1 then 0 else 2
      case VisC(ChoiceI(_)) => 0
      case TriC(s) => if s == 1 then 1 else 4
      case StrC(_) => 5
      case SelC(_) => 3
  }

  lemma EscapingIsWellFormed()
    ensures WellFormed(Escaping()) && !ChoicesContained(Escaping())
  {
    var cfg := Escaping();
    forall s | 0 <= s < |cfg.syms| ensures SymbolOk(cfg, cfg.syms[s]) {
      assert s == 0 || s == 1 || s == 2 || s == 3;
    }
    assert CondExprs(cfg.choices[0].defaults) == [Y];
    assert DepExprs(cfg, ChoiceI(0)) == [Y] + [Y];
    ExprsItemsConcat([Y], [Y]);
    assert ExprsItems([Y]) == {};
    assert SymI(cfg.choices[0].defaults[0].sym) !in DependsOn(cfg, ChoiceI(0));
  }

  /** What the cells may ask for, spelled out. */
  ghost function Asked(c: Cell): set<Cell> {
    match c
    case VisC(SymI(s)) => if s == 2 then {TriC(1)} else if s == 3 then {VisC(ChoiceI(0))} else {}
    case VisC(ChoiceI(_)) => {}
    case TriC(s) =>
      if s == 0 then {} else if s == 3 then {VisC(SymI(3)), SelC(0)} else {VisC(SymI(s))}
    case StrC(s) => if s == 0 then {} else {TriC(s)}
    case SelC(_) => {VisC(ChoiceI(0)), VisC(SymI(2)), VisC(SymI(3))}
  }

  lemma OneExprReads(cfg: Config, e: Expr)
    requires ExprOk(cfg, e)
    ensures ExprsReads(cfg, [e]) == ExprReads(cfg, e)
  {
    assert [e][0] == e;
  }

  lemma EscapingReads(c: Cell)
    requires WellFormed(Escaping()) && CellOk(Escaping(), c)
    ensures MayRead(Escaping(), c) == Asked(c)
  {
    var cfg := Escaping();
    hide WellFormed;
    match c
    case VisC(SymI(s)) =>
      if s == 0 {} else { assert |cfg.syms[s].prompts| == 1; OneExprReads(cfg, cfg.syms[s].prompts[0]); }
    case VisC(ChoiceI(_)) => OneExprReads(cfg, Y);
    case TriC(s) => assert s == 0 || s == 1 || s == 2 || s == 3;
    case StrC(s) => assert s == 0 || s == 1 || s == 2 || s == 3;
    case SelC(k) =>
      assert cfg.choices[k].defaults[1..] == [];
      assert ChoiceDefaultsReads(cfg, cfg.choices[k].defaults) == {VisC(SymI(2))};
  }

  lemma AskedBelow(c: Cell, d: Cell)
    requires CellOk(Escaping(), c) && d in Asked(c)
    ensures CellOk(Escaping(), d) && Layers()(d) < Layers()(c)
  {
  }

  lemma EscapingIsRankedAs(cfg: Config, rank: Rank)
    requires cfg == Escaping() && rank == Layers()
    ensures WellFormed(cfg) && Ranked(cfg, rank)
  {
    EscapingIsWellFormed();
    hide WellFormed, MayRead, Asked, Layers, Escaping, CellOk;
    forall c | CellOk(cfg, c) ensures ReadsBelow(cfg, rank, c) {
      EscapingReads(c);
      forall d <- MayRead(cfg, c) ensures CellOk(cfg, d) && rank(d) < rank(c) { AskedBelow(c, d); }
    }
  }

  /** The user with Y1 set to the given value. */
  function Setting(t: Tri): User { User(map[1 := UserTri(t)], map[], map[]) }

  lemma OneExprValue(cfg: Config, u: User, e: Expr, env: Env)
    requires ExprOk(cfg, e)
    ensures EvalMax(cfg, u, [e], env).v == EvalE(cfg, u, e, env).v
  {
    assert [e][..0] == [];
  }

  lemma FreshY1(cfg: Config, rank: Rank, t: Tri)
    requires cfg == Escaping() && rank == Layers() && t != 1
    ensures WellFormed(cfg) && Ranked(cfg, rank) && UserOk(cfg, Setting(t))
    ensures Fresh(cfg, rank, Setting(t), TriC(1)) == TriV(t)
  {
    EscapingIsRankedAs(cfg, rank);
    hide WellFormed, Ranked;
    var u, env := Setting(t), FreshEnv(cfg, rank, Setting(t));
    FreshSolves(cfg, rank, u, VisC(SymI(1)));
    OneExprValue(cfg, u, Y, env);
    FreshSolves(cfg, rank, u, TriC(1));
  }

  /** Freshly, X is visible exactly when Y1 is set; A always is. */
  lemma FreshVisibilities(cfg: Config, rank: Rank, t: Tri)
    requires cfg == Escaping() && rank == Layers() && t != 1
    ensures WellFormed(cfg) && Ranked(cfg, rank) && UserOk(cfg, Setting(t))
    ensures Fresh(cfg, rank, Setting(t), VisC(ChoiceI(0))) == TriV(2)
    ensures Fresh(cfg, rank, Setting(t), VisC(SymI(2))) == TriV(t)
    ensures Fresh(cfg, rank, Setting(t), VisC(SymI(3))) == TriV(2)
  {
    FreshY1(cfg, rank, t);
    hide WellFormed, Ranked;
    var u, env := Setting(t), FreshEnv(cfg, rank, Setting(t));
    FreshSolves(cfg, rank, u, VisC(SymI(2)));
    OneExprValue(cfg, u, At(SymA(1)), env);
    FreshSolves(cfg, rank, u, VisC(ChoiceI(0)));
    OneExprValue(cfg, u, Y, env);
    FreshSolves(cfg, rank, u, VisC(SymI(3)));
    OneExprValue(cfg, u, ChoiceE(0), env);
  }

  lemma SelectionFromVisibility(cfg: Config, u: User, env: Env)
    requires cfg == Escaping() && WellFormed(cfg) && u.mode == map[] && u.selection == map[]
    requires env(VisC(ChoiceI(0))) == TriV(2) && env(VisC(SymI(3))) == TriV(2)
    ensures SelBody(cfg, u, 0, env).v == if T(env(VisC(SymI(2)))) != 0 then Some(2) else Some(3)
  {
    hide WellFormed;
    var ds := cfg.choices[0].defaults;
    assert ds[0] == ChoiceDefault(2, Y) && ds[1..] == [];
    assert SelDefault(cfg, u, ds[1..], env).v == None;
    assert cfg.choices[0].syms == [3];
    assert FirstVisible([3], env).v == Some(3);
  }

  lemma OneChoice(cfg: Config)
    requires cfg == Escaping()
    ensures CellOk(cfg, SelC(0))
  {
  }

  /** Freshly, the choice selects X while Y1 is set and A when it is not. */
  lemma FreshSelections(cfg: Config, rank: Rank, t: Tri)
    requires cfg == Escaping() && rank == Layers() && t != 1
    ensures WellFormed(cfg) && Ranked(cfg, rank) && UserOk(cfg, Setting(t))
    ensures Fresh(cfg, rank, Setting(t), SelC(0)) == SelV(Some(if t == 2 then 2 else 3))
  {
    hide WellFormed, Ranked, SelBody, Escaping, Layers, Fresh;
    FreshVisibilities(cfg, rank, t);
    OneChoice(cfg);
    FreshSolves(cfg, rank, Setting(t), SelC(0));
    SelectionFromVisibility(cfg, Setting(t), FreshEnv(cfg, rank, Setting(t)));
  }

  /** Everything the selection depends on, cached while Y1 is set. */
  ghost function Warm(cfg: Config, rank: Rank): Cache
    requires WellFormed(cfg)
  {
    map c | c in WarmCells() :: Fresh(cfg, rank, Setting(2), c)
  }

  function WarmCells(): set<Cell> { {SelC(0), VisC(ChoiceI(0)), VisC(SymI(1)), VisC(SymI(2)), VisC(SymI(3)), TriC(1)} }

  lemma WarmAsksWarm(c: Cell)
    requires c in WarmCells()
    ensures CellOk(Escaping(), c) && Asked(c) <= WarmCells()
  {
  }

  lemma WarmIsCoherent(cfg: Config, rank: Rank)
    requires cfg == Escaping() && rank == Layers()
    ensures WellFormed(cfg) && Ranked(cfg, rank) && UserOk(cfg, Setting(2))
    ensures Coherent(cfg, rank, Setting(2), Warm(cfg, rank))
  {
    hide WellFormed, Ranked, Body, MayRead, Escaping, Layers, Asked, WarmCells, Fresh, CellOk;
    EscapingIsRankedAs(cfg, rank);
    forall c ensures CellCoherent(cfg, rank, Setting(2), Warm(cfg, rank), c) {
      if c in Warm(cfg, rank) {
        WarmAsksWarm(c);
        BodyReadsAll(cfg, Setting(2), c, FreshEnv(cfg, rank, Setting(2)));
        EscapingReads(c);
      }
    }
  }

  lemma OnlyXDependsOnY1(j: Item)
    requires CellOk(Escaping(), VisC(j))
    ensures SymI(1) in DependsOn(Escaping(), j) ==> j == SymI(2)
    ensures SymI(2) !in DependsOn(Escaping(), j)
  {
    var cfg := Escaping();
    match j
    case SymI(s) =>
      if s != 0 {
        var p, dep := cfg.syms[s].prompts, cfg.syms[s].directDep;
        assert |p| == 1 && DepExprs(cfg, j) == [p[0], N, N, dep];
        FourItems(p[0], N, N, dep);
        assert s == 1 || s == 2 || s == 3;
      }
    case ChoiceI(c) =>
      assert cfg.choices[c].defaults[1..] == [];
      assert CondExprs(cfg.choices[c].defaults) == [Y];
      assert DepExprs(cfg, j) == [Y] + [Y];
      ExprsItemsConcat([Y], [Y]);
      assert ExprsItems([Y]) == {};
  }

  lemma Y1AndXAreClosed(cfg: Config, cache: Cache, gone: set<Item>)
    requires cfg == Escaping() && gone == {SymI(1), SymI(2)}
    ensures Closed(cfg, cache, gone)
  {
    hide DependsOn;
    forall i, j | CellOk(cfg, VisC(j)) && i in gone && i in DependsOn(cfg, j) && VisC(j) in cache ensures j in gone {
      OnlyXDependsOnY1(j);
    }
  }

  lemma OnlyY1Changes(cfg: Config, cache: Cache, gone: set<Item>)
    requires cfg == Escaping() && gone == {SymI(1), SymI(2)}
    ensures Changes(cfg, Setting(2), Setting(0), cache, gone)
  {
  }

  /** A cache that still holds X as the selection is not coherent once Y1 is cleared. */
  lemma XIsStale(cfg: Config, rank: Rank, cache: Cache)
    requires cfg == Escaping() && rank == Layers()
    requires SelC(0) in cache && cache[SelC(0)] == SelV(Some(2))
    ensures WellFormed(cfg) && !Coherent(cfg, rank, Setting(0), cache)
  {
    FreshSelections(cfg, rank, 0);
    hide WellFormed, Ranked, Body, Fresh;
    assert !CellCoherent(cfg, rank, Setting(0), cache, SelC(0));
  }

  lemma XStaysCached(cfg: Config, rank: Rank, gone: set<Item>)
    requires cfg == Escaping() && rank == Layers() && gone == {SymI(1), SymI(2)}
    ensures WellFormed(cfg)
    ensures var left := Without(Warm(cfg, rank), gone); SelC(0) in left && left[SelC(0)] == SelV(Some(2))
  {
    hide WellFormed, Ranked, Body, Fresh, Escaping, Layers;
    FreshSelections(cfg, rank, 2);
  }

  /** Clearing Y1 after everything has been evaluated invalidates Y1 and X and nothing
      else -- that set is closed under the recorded dependents -- and leaves X cached as
      the selection of the choice, where a fresh evaluation gives A. */
  lemma StaleSelection(cfg: Config, rank: Rank, gone: set<Item>)
    requires cfg == Escaping() && rank == Layers() && gone == {SymI(1), SymI(2)}
    ensures WellFormed(cfg) && Ranked(cfg, rank) && UserOk(cfg, Setting(2)) && UserOk(cfg, Setting(0))
    ensures Coherent(cfg, rank, Setting(2), Warm(cfg, rank)) && Closed(cfg, Warm(cfg, rank), gone)
    ensures Changes(cfg, Setting(2), Setting(0), Warm(cfg, rank), gone)
    ensures !Coherent(cfg, rank, Setting(0), Without(Warm(cfg, rank), gone))
  {
    hide WellFormed, Ranked, Body, Closed, Changes, Coherent, Fresh, Escaping, Layers, Warm, Without, UserOk;
    WarmIsCoherent(cfg, rank);
    FreshSelections(cfg, rank, 0);
    Y1AndXAreClosed(cfg, Warm(cfg, rank), gone);
    OnlyY1Changes(cfg, Warm(cfg, rank), gone);
    XStaysCached(cfg, rank, gone);
    XIsStale(cfg, rank, Without(Warm(cfg, rank), gone));
  }
}
