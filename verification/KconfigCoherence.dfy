/** Which items are recorded as depending on which, and why clearing only the
    recorded, still cached dependents of a changed item keeps the cache right. */
module KconfigCoherence {
  import opened KconfigModel
  import opened KconfigFresh

  // ---- _build_dep and _add_choice_deps ----

  function AtomItems(a: Atom): set<Item> { if a.SymA? then {SymI(a.s)} else {} }

  /** The symbols and choices in an expression, constants left out. */
  function ExprItems(e: Expr): set<Item> {
    match e
    case At(a) => AtomItems(a)
    case ChoiceE(c) => {ChoiceI(c)}
    case And(l, r) => ExprItems(l) + ExprItems(r)
    case Or(l, r) => ExprItems(l) + ExprItems(r)
    case Not(x) => ExprItems(x)
    case Rel(_, a, b) => AtomItems(a) + AtomItems(b)
  }

  function ExprsItems(es: seq<Expr>): set<Item> {
    if es == [] then {} else ExprsItems(es[..|es| - 1]) + ExprItems(es[|es| - 1])
  }

  function DefaultExprs(ds: seq<Default>): seq<Expr> {
    if ds == [] then [] else [ds[0].value, ds[0].cond] + DefaultExprs(ds[1..])
  }

  function RangeExprs(gs: seq<Range>): seq<Expr> {
    if gs == [] then [] else [At(gs[0].low), At(gs[0].high), gs[0].cond] + RangeExprs(gs[1..])
  }

  function CondExprs(ds: seq<ChoiceDefault>): seq<Expr> {
    if ds == [] then [] else [ds[0].cond] + CondExprs(ds[1..])
  }

  /** The expressions _build_dep goes through for an item, in its order. */
  function DepExprs(cfg: Config, i: Item): seq<Expr>
    requires CellOk(cfg, VisC(i))
  {
    match i
    case SymI(s) =>
      var sym := cfg.syms[s];
      if !sym.defined then [] else
      sym.prompts + DefaultExprs(sym.defaults) + [sym.revDep, sym.weakRevDep] + RangeExprs(sym.ranges) + [sym.directDep]
    case ChoiceI(c) => cfg.choices[c].prompts + CondExprs(cfg.choices[c].defaults)
  }

  /** The items that an item is recorded as depending on. */
  function DependsOn(cfg: Config, i: Item): set<Item>
    requires CellOk(cfg, VisC(i))
  {
    ExprsItems(DepExprs(cfg, i)) +
    if i.ChoiceI? then set s | s in cfg.choices[i.c].syms :: SymI(s) else {}
  }

  lemma {:induction false} ExprsItemsConcat(a: seq<Expr>, b: seq<Expr>)
    ensures ExprsItems(a + b) == ExprsItems(a) + ExprsItems(b)
  {
    if b == [] { assert a + b == a; }
    else {
      ExprsItemsConcat(a, b[..|b| - 1]);
      assert (a + b)[..|a + b| - 1] == a + b[..|b| - 1];
    }
  }

  lemma {:induction false} ExprsItemsMember(es: seq<Expr>, i: nat)
    requires i < |es|
    ensures ExprItems(es[i]) <= ExprsItems(es)
  {
    if i < |es| - 1 { ExprsItemsMember(es[..|es| - 1], i); }
  }

  lemma FourItems(a: Expr, b: Expr, c: Expr, d: Expr)
    ensures ExprsItems([a, b, c, d]) == ExprItems(a) + ExprItems(b) + ExprItems(c) + ExprItems(d)
  {
    assert [a, b, c, d][..3] == [a, b, c] && [a, b, c][..2] == [a, b] && [a, b][..1] == [a] && [a][..0] == [];
    assert ExprsItems([a]) == ExprItems(a);
    assert ExprsItems([a, b]) == ExprItems(a) + ExprItems(b);
    assert ExprsItems([a, b, c]) == ExprsItems([a, b]) + ExprItems(c);
  }

  // ---- every read is recorded ----

  /** A value asks for the visibility of its own item, a string for its own tristate value. */
  ghost predicate OwnRead(c: Cell, d: Cell) {
    (!c.VisC? && d == VisC(ItemOf(c))) || (c.StrC? && d == TriC(c.s))
  }

  /** The type of a tristate symbol or choice depends on MODULES, which no set records. */
  ghost predicate ReadsModules(cfg: Config, c: Cell, d: Cell)
    requires CellOk(cfg, c)
  {
    && d == TriC(cfg.modules)
    && (cfg.choices != [] || (ItemOf(c).SymI? && cfg.syms[ItemOf(c).s].origType == TRISTATE))
  }

  /** What the dependency sets must guarantee for invalidation to be sound: an item
      asked for is recorded, or is MODULES, whose invalidation clears everything. */
  ghost predicate Recorded(cfg: Config, c: Cell, r: set<Cell>)
    requires CellOk(cfg, c)
  {
    forall d <- r :: OwnRead(c, d) || ReadsModules(cfg, c, d) || ItemOf(d) in DependsOn(cfg, ItemOf(c))
  }

  ghost predicate AllRecorded(cfg: Config)
    requires WellFormed(cfg)
  {
    forall c {:trigger Recorded(cfg, c, MayRead(cfg, c))} | CellOk(cfg, c) :: Recorded(cfg, c, MayRead(cfg, c))
  }

  /** Each choice symbol's conditions mention the choice, and the default selections
      of a choice are among its own symbols (or mentioned in its conditions). */
  ghost predicate ChoicesContained(cfg: Config)
    requires WellFormed(cfg)
  {
    && (forall s: nat | s < |cfg.syms| && cfg.syms[s].choice.Some? ::
          ChoiceI(cfg.syms[s].choice.value) in DependsOn(cfg, SymI(s)))
    && (forall k: nat, i: nat | k < |cfg.choices| && i < |cfg.choices[k].defaults| ::
          SymI(cfg.choices[k].defaults[i].sym) in DependsOn(cfg, ChoiceI(k)))
  }

  /** What expressions ask for: values of symbols and visibilities of choices. */
  ghost predicate FromExpr(d: Cell) { d.TriC? || d.StrC? || (d.VisC? && d.i.ChoiceI?) }

  lemma {:induction false} ExprRecorded(cfg: Config, e: Expr)
    requires ExprOk(cfg, e)
    ensures forall d <- ExprReads(cfg, e) :: (d == TriC(cfg.modules) && cfg.choices != []) || (ItemOf(d) in ExprItems(e) && FromExpr(d))
  {
    match e
    case And(l, r) => ExprRecorded(cfg, l); ExprRecorded(cfg, r);
    case Or(l, r) => ExprRecorded(cfg, l); ExprRecorded(cfg, r);
    case Not(x) => ExprRecorded(cfg, x);
    case _ =>
  }

  lemma {:induction false} ExprsRecorded(cfg: Config, es: seq<Expr>)
    requires ExprsOk(cfg, es)
    ensures forall d <- ExprsReads(cfg, es) :: (d == TriC(cfg.modules) && cfg.choices != []) || (ItemOf(d) in ExprsItems(es) && FromExpr(d))
  {
    forall d <- ExprsReads(cfg, es) ensures (d == TriC(cfg.modules) && cfg.choices != []) || (ItemOf(d) in ExprsItems(es) && FromExpr(d)) {
      var i :| 0 <= i < |es| && d in ExprReads(cfg, es[i]);
      ExprRecorded(cfg, es[i]);
      ExprsItemsMember(es, i);
    }
  }

  lemma {:induction false} DefaultsRecorded(cfg: Config, ds: seq<Default>)
    requires DefaultsOk(cfg, ds)
    ensures forall d <- DefaultsReads(cfg, ds) :: (d == TriC(cfg.modules) && cfg.choices != []) || (ItemOf(d) in ExprsItems(DefaultExprs(ds)) && FromExpr(d))
    ensures StrDefaultsOk(cfg, ds) ==>
      forall d <- StrDefaultsReads(cfg, ds) :: (d == TriC(cfg.modules) && cfg.choices != []) || (ItemOf(d) in ExprsItems(DefaultExprs(ds)) && FromExpr(d))
  {
    if ds != [] {
      DefaultsRecorded(cfg, ds[1..]);
      ExprRecorded(cfg, ds[0].value); ExprRecorded(cfg, ds[0].cond);
      ExprsItemsConcat([ds[0].value, ds[0].cond], DefaultExprs(ds[1..]));
      ExprsItemsMember([ds[0].value, ds[0].cond], 0); ExprsItemsMember([ds[0].value, ds[0].cond], 1);
    }
  }

  lemma {:induction false} RangesRecorded(cfg: Config, gs: seq<Range>)
    requires RangesOk(cfg, gs)
    ensures forall d <- RangesReads(cfg, gs) :: (d == TriC(cfg.modules) && cfg.choices != []) || (ItemOf(d) in ExprsItems(RangeExprs(gs)) && FromExpr(d))
  {
    if gs != [] {
      var here := [At(gs[0].low), At(gs[0].high), gs[0].cond];
      RangesRecorded(cfg, gs[1..]);
      ExprRecorded(cfg, gs[0].cond);
      ExprsItemsConcat(here, RangeExprs(gs[1..]));
      ExprsItemsMember(here, 0); ExprsItemsMember(here, 1); ExprsItemsMember(here, 2);
    }
  }

  lemma {:induction false} CondsRecorded(cfg: Config, ds: seq<ChoiceDefault>)
    requires ChoiceDefaultsOk(cfg, ds)
    ensures forall d <- ChoiceDefaultsReads(cfg, ds) ::
      (d == TriC(cfg.modules) && cfg.choices != []) || (ItemOf(d) in ExprsItems(CondExprs(ds)) && FromExpr(d)) || exists i :: 0 <= i < |ds| && d == VisC(SymI(ds[i].sym))
  {
    if ds != [] {
      CondsRecorded(cfg, ds[1..]);
      ExprRecorded(cfg, ds[0].cond);
      ExprsItemsConcat([ds[0].cond], CondExprs(ds[1..]));
      ExprsItemsMember([ds[0].cond], 0);
      forall d <- ChoiceDefaultsReads(cfg, ds)
        ensures (d == TriC(cfg.modules) && cfg.choices != []) || (ItemOf(d) in ExprsItems(CondExprs(ds)) && FromExpr(d)) || exists i :: 0 <= i < |ds| && d == VisC(SymI(ds[i].sym))
      {
        if d == VisC(SymI(ds[0].sym)) {}
        else if i :| 0 <= i < |ds| - 1 && d == VisC(SymI(ds[1..][i].sym)) { assert ds[1..][i] == ds[i + 1]; }
      }
    }
  }

  lemma DepExprsParts(cfg: Config, s: nat)
    requires WellFormed(cfg) && s < |cfg.syms| && cfg.syms[s].defined
    ensures var sym, all := cfg.syms[s], DependsOn(cfg, SymI(s));
      && ExprsItems(sym.prompts) <= all && ExprsItems(DefaultExprs(sym.defaults)) <= all
      && ExprsItems(RangeExprs(sym.ranges)) <= all
      && ExprItems(sym.revDep) <= all && ExprItems(sym.weakRevDep) <= all && ExprItems(sym.directDep) <= all
  {
    var sym := cfg.syms[s];
    var a := sym.prompts + DefaultExprs(sym.defaults);
    var b := a + [sym.revDep, sym.weakRevDep];
    var c := b + RangeExprs(sym.ranges);
    ExprsItemsConcat(sym.prompts, DefaultExprs(sym.defaults));
    ExprsItemsConcat(a, [sym.revDep, sym.weakRevDep]);
    ExprsItemsMember([sym.revDep, sym.weakRevDep], 0); ExprsItemsMember([sym.revDep, sym.weakRevDep], 1);
    ExprsItemsConcat(b, RangeExprs(sym.ranges));
    ExprsItemsConcat(c, [sym.directDep]);
    ExprsItemsMember([sym.directDep], 0);
  }

  /** The dependency sets record every possible read exactly when the choices are
      contained: nothing else in the configuration can escape invalidation. */
  lemma RecordedIffContained(cfg: Config)
    requires WellFormed(cfg)
    ensures AllRecorded(cfg) <==> ChoicesContained(cfg)
  {
    if AllRecorded(cfg) {
      forall s: nat | s < |cfg.syms| && cfg.syms[s].choice.Some?
        ensures ChoiceI(cfg.syms[s].choice.value) in DependsOn(cfg, SymI(s))
      {
        assert Recorded(cfg, VisC(SymI(s)), MayRead(cfg, VisC(SymI(s))));
        assert VisC(ChoiceI(cfg.syms[s].choice.value)) in MayRead(cfg, VisC(SymI(s)));
      }
      forall k: nat, i: nat | k < |cfg.choices| && i < |cfg.choices[k].defaults|
        ensures SymI(cfg.choices[k].defaults[i].sym) in DependsOn(cfg, ChoiceI(k))
      {
        ChoiceDefaultRead(cfg, cfg.choices[k].defaults, i);
        assert Recorded(cfg, SelC(k), MayRead(cfg, SelC(k)));
        assert VisC(SymI(cfg.choices[k].defaults[i].sym)) in MayRead(cfg, SelC(k));
      }
    }
    if ChoicesContained(cfg) {
      forall c | CellOk(cfg, c) ensures Recorded(cfg, c, MayRead(cfg, c)) {
        if ItemOf(c).ChoiceI? { ChoiceCellRecorded(cfg, c); } else { SymbolCellRecorded(cfg, c); }
      }
    }
  }

  lemma {:induction false} ChoiceDefaultRead(cfg: Config, ds: seq<ChoiceDefault>, i: nat)
    requires ChoiceDefaultsOk(cfg, ds) && i < |ds|
    ensures VisC(SymI(ds[i].sym)) in ChoiceDefaultsReads(cfg, ds)
  {
    if i > 0 { ChoiceDefaultRead(cfg, ds[1..], i - 1); }
  }

  lemma ChoiceCellRecorded(cfg: Config, c: Cell)
    requires WellFormed(cfg) && ChoicesContained(cfg) && CellOk(cfg, c) && ItemOf(c).ChoiceI?
    ensures Recorded(cfg, c, MayRead(cfg, c))
  {
    var k := ItemOf(c).c;
    var ch := cfg.choices[k];
    ExprsRecorded(cfg, ch.prompts);
    CondsRecorded(cfg, ch.defaults);
    ExprsItemsConcat(ch.prompts, CondExprs(ch.defaults));
  }

  lemma SymbolCellRecorded(cfg: Config, c: Cell)
    requires WellFormed(cfg) && ChoicesContained(cfg) && CellOk(cfg, c) && ItemOf(c).SymI?
    ensures Recorded(cfg, c, MayRead(cfg, c))
  {
    var s := ItemOf(c).s;
    var sym := cfg.syms[s];
    if sym.defined {
      DepExprsParts(cfg, s);
      ExprsRecorded(cfg, sym.prompts);
      DefaultsRecorded(cfg, sym.defaults);
      RangesRecorded(cfg, sym.ranges);
      ExprRecorded(cfg, sym.revDep); ExprRecorded(cfg, sym.weakRevDep); ExprRecorded(cfg, sym.directDep);
    }
  }

  // ---- coherence, and what invalidation leaves of it ----

  type Cache = map<Cell, Value>

  /** The cached value is the fresh one, and whatever its evaluation asked for is
      cached too. */
  ghost predicate CellCoherent(cfg: Config, rank: Rank, u: User, cache: Cache, c: Cell)
    requires WellFormed(cfg)
  {
    c in cache ==>
      && CellOk(cfg, c)
      && cache[c] == Fresh(cfg, rank, u, c)
      && Body(cfg, u, c, FreshEnv(cfg, rank, u)).r <= cache.Keys
  }

  ghost predicate Coherent(cfg: Config, rank: Rank, u: User, cache: Cache)
    requires WellFormed(cfg)
  {
    forall c {:trigger CellCoherent(cfg, rank, u, cache, c)} :: CellCoherent(cfg, rank, u, cache, c)
  }

  predicate ItemDefined(cfg: Config, i: Item)
    requires CellOk(cfg, VisC(i))
  {
    i.SymI? ==> cfg.syms[i.s].defined
  }

  /** `gone` contains the recorded dependents of its members that had a cached
      visibility -- and everything, once it contains MODULES. */
  ghost predicate Closed(cfg: Config, cache: Cache, gone: set<Item>) {
    && (forall i, j | CellOk(cfg, VisC(j)) && i in gone && i in DependsOn(cfg, j) && VisC(j) in cache :: j in gone)
    && (SymI(cfg.modules) in gone ==> forall j | CellOk(cfg, VisC(j)) && ItemDefined(cfg, j) :: j in gone)
  }

  /** Every difference between the two users' inputs is at an item in `gone`, or at a
      symbol that has no prompt, or at one with nothing cached. */
  ghost predicate Changes(cfg: Config, u: User, u': User, cache: Cache, gone: set<Item>) {
    && (forall s: nat | s < |cfg.syms| ::
          SymI(s) in gone || SameValue(u, u', s) || cfg.syms[s].prompts == [] || VisC(SymI(s)) !in cache)
    && (forall c: nat | c < |cfg.choices| ::
          ChoiceI(c) in gone || (SameMode(u, u', c) && SameSelection(u, u', c)))
  }

  /** A cell whose value is not a constant asks for the visibility of its own item. */
  lemma AsksForVisibility(cfg: Config, u: User, c: Cell, env: Env)
    requires WellFormed(cfg) && CellOk(cfg, c) && !c.VisC? && Body(cfg, u, c, env).r != {}
    ensures if c.StrC? && IsBoolTri(cfg.syms[c.s].origType) then
        TriC(c.s) in Body(cfg, u, c, env).r && VisC(ItemOf(c)) in Body(cfg, u, TriC(c.s), env).r
      else VisC(ItemOf(c)) in Body(cfg, u, c, env).r
    ensures ItemDefined(cfg, ItemOf(c))
  {
    match c
    case TriC(s) => assert IsBoolTri(cfg.syms[s].origType);
    case StrC(s) => assert cfg.syms[s].origType != UNKNOWN;
    case SelC(k) => assert VisC(ChoiceI(k)) in ChoiceTri(cfg, u, k, env).r;
  }

  lemma CachedVisibility(cfg: Config, rank: Rank, u: User, cache: Cache, c: Cell)
    requires WellFormed(cfg) && Coherent(cfg, rank, u, cache)
    requires c in cache && CellOk(cfg, c) && (c.VisC? || Body(cfg, u, c, FreshEnv(cfg, rank, u)).r != {})
    ensures VisC(ItemOf(c)) in cache
    ensures !c.VisC? ==> ItemDefined(cfg, ItemOf(c))
  {
    assert CellCoherent(cfg, rank, u, cache, c);
    if !c.VisC? {
      AsksForVisibility(cfg, u, c, FreshEnv(cfg, rank, u));
      if c.StrC? { assert CellCoherent(cfg, rank, u, cache, TriC(c.s)); }
    }
  }

  lemma UndefinedReadsNothing(cfg: Config, c: Cell)
    requires WellFormed(cfg) && CellOk(cfg, c) && !ItemDefined(cfg, ItemOf(c))
    ensures MayRead(cfg, c) == {}
  {
  }

  lemma PromptlessIsInvisible(cfg: Config, rank: Rank, u: User, s: nat)
    requires WellFormed(cfg) && Ranked(cfg, rank) && UserOk(cfg, u) && s < |cfg.syms| && cfg.syms[s].prompts == []
    ensures T(Fresh(cfg, rank, u, VisC(SymI(s)))) == 0
  {
    FreshSolves(cfg, rank, u, VisC(SymI(s)));
  }

  /** What a surviving cell asked for survives too: the pruning is safe. */
  lemma ReadsSurvive(cfg: Config, rank: Rank, u: User, cache: Cache, gone: set<Item>, c: Cell, d: Cell)
    requires WellFormed(cfg) && Ranked(cfg, rank) && UserOk(cfg, u) && ChoicesContained(cfg)
    requires Coherent(cfg, rank, u, cache) && Closed(cfg, cache, gone)
    requires c in cache && CellOk(cfg, c) && ItemOf(c) !in gone && d in Body(cfg, u, c, FreshEnv(cfg, rank, u)).r
    ensures d in cache && CellOk(cfg, d) && ItemOf(d) !in gone && rank(d) < rank(c)
  {
    hide Body, MayRead;
    var env := FreshEnv(cfg, rank, u);
    assert CellCoherent(cfg, rank, u, cache, c);
    BodyReadsAll(cfg, u, c, env);
    assert ReadsBelow(cfg, rank, c);
    CachedVisibility(cfg, rank, u, cache, c);
    RecordedIffContained(cfg);
    if !ItemDefined(cfg, ItemOf(c)) { UndefinedReadsNothing(cfg, c); }
    assert Recorded(cfg, c, MayRead(cfg, c));
  }

  lemma OwnInputSurvives(cfg: Config, rank: Rank, u: User, u': User, cache: Cache, gone: set<Item>, c: Cell)
    requires WellFormed(cfg) && Ranked(cfg, rank) && UserOk(cfg, u)
    requires Coherent(cfg, rank, u, cache) && Changes(cfg, u, u', cache, gone)
    requires c in cache && CellOk(cfg, c) && ItemOf(c) !in gone
    ensures SameOwn(cfg, u, u', c, FreshEnv(cfg, rank, u))
  {
    assert CellCoherent(cfg, rank, u, cache, c);
    if (c.TriC? || c.StrC?) {
      if Body(cfg, u, c, FreshEnv(cfg, rank, u)).r != {} { CachedVisibility(cfg, rank, u, cache, c); }
      if cfg.syms[c.s].prompts == [] { PromptlessIsInvisible(cfg, rank, u, c.s); }
    }
  }

  /** The pruned invalidation is enough: a value left in the cache is still the fresh
      one under the changed input, and was computed from the same cells. */
  lemma {:induction false} SurvivorIsFresh(cfg: Config, rank: Rank, u: User, u': User, cache: Cache, gone: set<Item>, c: Cell)
    requires WellFormed(cfg) && Ranked(cfg, rank) && UserOk(cfg, u) && UserOk(cfg, u') && ChoicesContained(cfg)
    requires Coherent(cfg, rank, u, cache) && Closed(cfg, cache, gone) && Changes(cfg, u, u', cache, gone)
    requires c in cache && CellOk(cfg, c) && ItemOf(c) !in gone
    ensures Fresh(cfg, rank, u', c) == Fresh(cfg, rank, u, c)
    ensures Body(cfg, u', c, FreshEnv(cfg, rank, u')) == Body(cfg, u, c, FreshEnv(cfg, rank, u))
    decreases rank(c)
  {
    hide Body, MayRead;
    var env, env' := FreshEnv(cfg, rank, u), FreshEnv(cfg, rank, u');
    var r := Body(cfg, u, c, env).r;
    assert CellCoherent(cfg, rank, u, cache, c);
    forall d | d in r ensures env(d) == env'(d) && ItemOf(d) !in gone {
      ReadsSurvive(cfg, rank, u, cache, gone, c, d);
      SurvivorIsFresh(cfg, rank, u, u', cache, gone, d);
    }
    forall k: nat | VisC(ChoiceI(k)) in r ensures SameMode(u, u', k) {
      BodyReadsAll(cfg, u, c, env);
      assert ReadsBelow(cfg, rank, c);
      assert CellOk(cfg, VisC(ChoiceI(k)));
      assert ItemOf(VisC(ChoiceI(k))) !in gone;
    }
    OwnInputSurvives(cfg, rank, u, u', cache, gone, c);
    BodySame(cfg, u, u', c, env, env');
    FreshSolves(cfg, rank, u, c);
    FreshSolves(cfg, rank, u', c);
  }

  /** The cache without the cells of the items in `gone`. */
  function Without(cache: Cache, gone: set<Item>): Cache {
    map c | c in cache && ItemOf(c) !in gone :: cache[c]
  }

  lemma InvalidationKeepsCoherence(cfg: Config, rank: Rank, u: User, u': User, cache: Cache, gone: set<Item>)
    requires WellFormed(cfg) && Ranked(cfg, rank) && UserOk(cfg, u) && UserOk(cfg, u') && ChoicesContained(cfg)
    requires Coherent(cfg, rank, u, cache) && Closed(cfg, cache, gone) && Changes(cfg, u, u', cache, gone)
    ensures Coherent(cfg, rank, u', Without(cache, gone))
  {
    hide Body;
    forall c ensures CellCoherent(cfg, rank, u', Without(cache, gone), c) {
      assert CellCoherent(cfg, rank, u, cache, c);
      if c in Without(cache, gone) {
        SurvivorIsFresh(cfg, rank, u, u', cache, gone, c);
        forall d | d in Body(cfg, u, c, FreshEnv(cfg, rank, u)).r ensures d in Without(cache, gone) {
          ReadsSurvive(cfg, rank, u, cache, gone, c, d);
        }
      }
    }
  }
}
