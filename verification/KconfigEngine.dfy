/** The value engine itself: lazily cached visibilities, values and selections, and
    the pruned invalidation behind set_value() and unset_value().

    The attributes of all Symbol and Choice objects are kept in maps keyed by the
    item, so an attribute that is None is a key that is absent. */
module KconfigEngine {
  import opened Basics
  import opened KconfigModel
  import opened KconfigFresh
  import opened KconfigCoherence
  import opened KconfigDependents
  import opened KconfigStrings

  /** The cell whose calculation also decides _write_to_conf. */
  function ValueCell(cfg: Config, s: nat): Cell
    requires s < |cfg.syms|
  {
    if IsBoolTri(cfg.syms[s].origType) then TriC(s) else StrC(s)
  }

  ghost predicate WriteFlagsOk(cfg: Config, rank: Rank, u: User, cache: Cache, flags: seq<bool>)
    requires WellFormed(cfg)
  {
    && |flags| == |cfg.syms|
    && forall s | 0 <= s < |cfg.syms| ::
         && (cfg.syms[s].origType == UNKNOWN ==> !flags[s])
         && (ValueCell(cfg, s) in cache ==> flags[s] == Body(cfg, u, ValueCell(cfg, s), FreshEnv(cfg, rank, u)).w)
  }

  /** Caching a value that was calculated from cached cells keeps the cache coherent. */
  lemma StoreKeepsCoherence(cfg: Config, rank: Rank, u: User, cache: Cache, c: Cell, v: Value)
    requires WellFormed(cfg) && Ranked(cfg, rank) && UserOk(cfg, u) && Coherent(cfg, rank, u, cache)
    requires CellOk(cfg, c)
    requires v == Body(cfg, u, c, FreshEnv(cfg, rank, u)).v && Body(cfg, u, c, FreshEnv(cfg, rank, u)).r <= cache.Keys
    ensures Coherent(cfg, rank, u, cache[c := v])
    ensures v == Fresh(cfg, rank, u, c)
  {
    hide Body;
    FreshSolves(cfg, rank, u, c);
    var cache' := cache[c := v];
    forall d ensures CellCoherent(cfg, rank, u, cache', d) {
      assert CellCoherent(cfg, rank, u, cache, d);
    }
  }

  lemma StoreKeepsFlags(cfg: Config, rank: Rank, u: User, cache: Cache, c: Cell, v: Value, flags: seq<bool>, flags': seq<bool>)
    requires WellFormed(cfg) && WriteFlagsOk(cfg, rank, u, cache, flags) && CellOk(cfg, c)
    requires c.VisC? || c.SelC? || c != ValueCell(cfg, c.s) ==> flags' == flags
    requires (c.TriC? || c.StrC?) && c == ValueCell(cfg, c.s) ==>
      && flags' == flags[c.s := Body(cfg, u, c, FreshEnv(cfg, rank, u)).w]
      && (cfg.syms[c.s].origType == UNKNOWN ==> !flags'[c.s])
    ensures WriteFlagsOk(cfg, rank, u, cache[c := v], flags')
  {
    hide Body;
  }

  lemma CachedIsFresh(cfg: Config, rank: Rank, u: User, cache: Cache, c: Cell)
    requires WellFormed(cfg) && Coherent(cfg, rank, u, cache) && c in cache
    ensures CellOk(cfg, c) && cache[c] == Fresh(cfg, rank, u, c)
  {
    hide Body;
    assert CellCoherent(cfg, rank, u, cache, c);
  }

  lemma ReadsRankBelow(cfg: Config, rank: Rank, c: Cell)
    requires WellFormed(cfg) && Ranked(cfg, rank) && CellOk(cfg, c)
    ensures forall d <- MayRead(cfg, c) :: CellOk(cfg, d) && rank(d) < rank(c)
  {
    hide MayRead;
    assert ReadsBelow(cfg, rank, c);
  }

  lemma FlagsLength(cfg: Config, rank: Rank, u: User, cache: Cache, flags: seq<bool>)
    requires WellFormed(cfg) && WriteFlagsOk(cfg, rank, u, cache, flags)
    ensures |flags| == |cfg.syms|
  {
  }

  lemma InvalidationKeepsFlags(cfg: Config, rank: Rank, u: User, u': User, cache: Cache, gone: set<Item>, flags: seq<bool>)
    requires WellFormed(cfg) && Ranked(cfg, rank) && UserOk(cfg, u) && UserOk(cfg, u') && ChoicesContained(cfg)
    requires Coherent(cfg, rank, u, cache) && Closed(cfg, cache, gone) && Changes(cfg, u, u', cache, gone)
    requires WriteFlagsOk(cfg, rank, u, cache, flags)
    ensures WriteFlagsOk(cfg, rank, u', Without(cache, gone), flags)
  {
    hide Body;
    forall s | 0 <= s < |cfg.syms| && ValueCell(cfg, s) in Without(cache, gone)
      ensures flags[s] == Body(cfg, u', ValueCell(cfg, s), FreshEnv(cfg, rank, u')).w
    {
      SurvivorIsFresh(cfg, rank, u, u', cache, gone, ValueCell(cfg, s));
    }
  }

  // ---- user values ----

  /** The forms of value that set_value() accepts for a symbol. */
  predicate ValidFor(cfg: Config, ty: Type, v: UserValue) {
    match v
    case UserTri(t) => ty == TRISTATE || (ty == BOOL && t != 1)
    case UserStr(x) =>
      || ty == STRING
      || (ty == INT && cfg.num(x, 10).Some?)
      || (ty == HEX && cfg.num(x, 16).Some? && cfg.num(x, 16).value >= 0)
  }

  ghost predicate UserValuesOk(cfg: Config, u: User) {
    && (forall s | s in u.value :: s < |cfg.syms| && ValidFor(cfg, cfg.syms[s].origType, u.value[s]))
    && (forall c | c in u.mode :: c < |cfg.choices| && ValidFor(cfg, cfg.choices[c].origType, UserTri(u.mode[c])))
  }

  /** STR_TO_TRI: "n", "m" and "y" stand for 0, 1 and 2 on bool and tristate symbols. */
  function Normalize(ty: Type, v: UserValue): UserValue {
    if IsBoolTri(ty) && v.UserStr? && v.str in {"n", "m", "y"} then
      UserTri(if v.str == "n" then 0 else if v.str == "m" then 1 else 2)
    else v
  }

  lemma FlagIsFresh(cfg: Config, rank: Rank, u: User, cache: Cache, flags: seq<bool>, s: nat)
    requires WellFormed(cfg) && Coherent(cfg, rank, u, cache) && WriteFlagsOk(cfg, rank, u, cache, flags)
    requires s < |cfg.syms| && StrC(s) in cache
    ensures |flags| == |cfg.syms| && flags[s] == Body(cfg, u, ValueCell(cfg, s), FreshEnv(cfg, rank, u)).w
  {
    if IsBoolTri(cfg.syms[s].origType) {
      assert CellCoherent(cfg, rank, u, cache, StrC(s));
      assert TriC(s) in Body(cfg, u, StrC(s), FreshEnv(cfg, rank, u)).r;
    }
  }

  /** The .config line of a symbol with the given value and _write_to_conf flag. */
  function ConfigLine(sym: Symbol, prefix: string, val: string, write: bool): string {
    if !write then ""
    else if IsBoolTri(sym.origType) then
      if val != "n" then prefix + sym.name + "=" + val + "\n" else "# " + prefix + sym.name + " is not set\n"
    else if IsIntHex(sym.origType) then prefix + sym.name + "=" + val + "\n"
    else prefix + sym.name + "=\"" + Escape(val) + "\"\n"
  }

  // ---- what invalidation clears ----

  function CachedItems(cache: Cache): set<Item> { set c | c in cache && c.VisC? :: c.i }

  /** The recorded dependents of the items in `gone` have no cached visibility left. */
  ghost predicate Cleared(cfg: Config, cache: Cache, gone: set<Item>) {
    forall i, j | ItemOk(cfg, j) && i in gone && i in DependsOn(cfg, j) :: VisC(j) !in cache
  }

  /** Everything is gone once MODULES is. */
  ghost predicate AllIfModules(cfg: Config, gone: set<Item>) {
    SymI(cfg.modules) in gone ==> forall j | ItemOk(cfg, j) && ItemDefined(cfg, j) :: j in gone
  }

  lemma ClearedStays(cfg: Config, cache: Cache, cache': Cache, gone: set<Item>, more: set<Item>, both: set<Item>)
    requires Cleared(cfg, cache, gone) && Cleared(cfg, cache', more)
    requires cache'.Keys <= cache.Keys && both <= gone + more
    ensures Cleared(cfg, cache', both)
  {
    hide DependsOn;
  }

  lemma DirectDependentsCleared(cfg: Config, dependents: Dependents, cache: Cache, i: Item, gone: set<Item>)
    requires DependentsOk(cfg, dependents) && ItemOk(cfg, i)
    requires Cleared(cfg, cache, gone - {i}) && forall j <- dependents[i] :: VisC(j) !in cache
    ensures Cleared(cfg, cache, gone)
  {
    hide DependsOn;
    assert i in dependents;
    forall k, j | ItemOk(cfg, j) && k in gone && k in DependsOn(cfg, j) ensures VisC(j) !in cache {
      if k == i { assert j in dependents[i]; } else { assert k in gone - {i}; }
    }
  }

  lemma DependentsExist(cfg: Config, dependents: Dependents, i: Item)
    requires DependentsOk(cfg, dependents) && ItemOk(cfg, i)
    ensures i in dependents && forall j <- dependents[i] :: ItemOk(cfg, j)
  {
    hide DependsOn;
  }

  lemma UndefinedDependsOnNothing(cfg: Config, j: Item)
    requires ItemOk(cfg, j) && !ItemDefined(cfg, j)
    ensures DependsOn(cfg, j) == {}
  {
  }

  lemma DependentIsDefined(cfg: Config, dependents: Dependents, i: Item, j: Item)
    requires DependentsOk(cfg, dependents) && ItemOk(cfg, i) && j in dependents[i]
    ensures ItemOk(cfg, j) && ItemDefined(cfg, j)
  {
    DependentsExist(cfg, dependents, i);
    if !ItemDefined(cfg, j) { UndefinedDependsOnNothing(cfg, j); }
    hide DependsOn;
    assert i in DependsOn(cfg, j);
  }

  lemma AllCleared(cfg: Config, cache: Cache, gone: set<Item>)
    requires forall j :: j in gone <==> ItemOk(cfg, j) && ItemDefined(cfg, j)
    ensures Cleared(cfg, Without(cache, gone), gone)
  {
  }

  lemma NothingCleared(cfg: Config, cache: Cache)
    ensures forall i :: Cleared(cfg, cache, {i} - {i})
  {
    assert forall i: Item :: {i} - {i} == {};
  }

  lemma WithoutTwice(cache: Cache, a: set<Item>, b: set<Item>)
    ensures Without(Without(cache, a), b) == Without(cache, a + b)
  {
  }

  lemma FewerCachedItems(before: Cache, i: Item, after: Cache, j: Item)
    requires CachedItems(after) <= CachedItems(before) - {i} && j in CachedItems(after)
    ensures |CachedItems(after) - {j}| < |CachedItems(before) - {i}|
  {
    var smaller, larger := CachedItems(after) - {j}, CachedItems(before) - {i};
    assert larger == (larger - {j}) + {j};
    SubsetSize(smaller, larger - {j});
  }

  /** A user's input with one symbol set: y on a choice symbol also selects it. */
  function WithValue(cfg: Config, u: User, s: nat, v: UserValue): User
    requires s < |cfg.syms|
  {
    var set1 := u.(value := u.value[s := v]);
    if cfg.syms[s].choice.Some? && v == UserTri(2) then
      set1.(selection := u.selection[cfg.syms[s].choice.value := s])
    else set1
  }

  /** The inputs differ at `root` only -- or, when it is a choice, also at its symbols. */
  ghost predicate ChangesAt(cfg: Config, u: User, u': User, root: Item) {
    && (forall s: nat | s < |cfg.syms| ::
          || SymI(s) == root || SameValue(u, u', s) || cfg.syms[s].prompts == []
          || (cfg.syms[s].choice.Some? && root == ChoiceI(cfg.syms[s].choice.value)))
    && (forall c: nat | c < |cfg.choices| ::
          ChoiceI(c) == root || (SameMode(u, u', c) && SameSelection(u, u', c)))
  }

  lemma ValueStaysOk(cfg: Config, u: User, s: nat, v: UserValue)
    requires UserOk(cfg, u) && UserValuesOk(cfg, u)
    requires s < |cfg.syms| && ValidFor(cfg, cfg.syms[s].origType, v)
    ensures var u' := u.(value := u.value[s := v]);
      UserOk(cfg, u') && UserValuesOk(cfg, u') && ChangesAt(cfg, u, u', SymI(s))
  {
  }

  lemma SelectionStaysOk(cfg: Config, u: User, s: nat, v: UserValue)
    requires WellFormed(cfg) && UserOk(cfg, u) && UserValuesOk(cfg, u)
    requires s < |cfg.syms| && ValidFor(cfg, cfg.syms[s].origType, v) && cfg.syms[s].choice.Some?
    ensures var c := cfg.syms[s].choice.value;
      var u' := u.(value := u.value[s := v], selection := u.selection[c := s]);
      UserOk(cfg, u') && UserValuesOk(cfg, u') && ChangesAt(cfg, u, u', ChoiceI(c))
  {
    var c := cfg.syms[s].choice.value;
    assert c < |cfg.choices| && s in cfg.choices[c].syms;
    hide WellFormed, ValidFor;
  }

  lemma UnsetChoiceStaysOk(cfg: Config, u: User, c: nat)
    requires UserOk(cfg, u) && UserValuesOk(cfg, u) && c < |cfg.choices|
    ensures var u' := u.(mode := u.mode - {c}, selection := u.selection - {c});
      UserOk(cfg, u') && UserValuesOk(cfg, u') && ChangesAt(cfg, u, u', ChoiceI(c))
  {
  }

  lemma UnsetStaysOk(cfg: Config, u: User, s: nat)
    requires UserOk(cfg, u) && UserValuesOk(cfg, u) && s < |cfg.syms|
    ensures var u' := u.(value := u.value - {s});
      UserOk(cfg, u') && UserValuesOk(cfg, u') && ChangesAt(cfg, u, u', SymI(s))
  {
  }

  lemma ClearedIsClosed(cfg: Config, cache: Cache, gone: set<Item>)
    requires Cleared(cfg, Without(cache, gone), gone) && AllIfModules(cfg, gone)
    ensures Closed(cfg, cache, gone)
  {
    hide DependsOn;
  }

  lemma ChangesCovered(cfg: Config, u: User, u': User, cache: Cache, root: Item, gone: set<Item>)
    requires WellFormed(cfg) && ChoicesContained(cfg) && ItemOk(cfg, root)
    requires ChangesAt(cfg, u, u', root) && root in gone && Closed(cfg, cache, gone)
    ensures Changes(cfg, u, u', cache, gone)
  {
    hide DependsOn;
    forall s: nat | s < |cfg.syms|
      ensures SymI(s) in gone || SameValue(u, u', s) || cfg.syms[s].prompts == [] || VisC(SymI(s)) !in cache
    {
      if cfg.syms[s].choice.Some? && root == ChoiceI(cfg.syms[s].choice.value) {
        assert root in DependsOn(cfg, SymI(s));
      }
    }
  }

  lemma NothingGone(cfg: Config, u: User, u': User, cache: Cache, s: nat)
    requires WellFormed(cfg) && s < |cfg.syms| && cfg.syms[s].prompts == [] && ChangesAt(cfg, u, u', SymI(s))
    ensures Closed(cfg, cache, {}) && Changes(cfg, u, u', cache, {})
  {
    hide DependsOn;
  }

  /** Nothing cached was lost or changed. */
  ghost predicate Grown(before: Cache, after: Cache) {
    forall c | c in before :: c in after && after[c] == before[c]
  }

  class Engine {
    const cfg: Config
    ghost const rank: Rank
    const dependents: Dependents
    var user: User
    var cache: Cache
    var writeToConf: seq<bool>

    ghost predicate Valid()
      reads this
    {
      && WellFormed(cfg) && Ranked(cfg, rank) && ChoicesContained(cfg) && DependentsOk(cfg, dependents)
      && UserOk(cfg, user) && UserValuesOk(cfg, user)
      && Coherent(cfg, rank, user, cache)
      && WriteFlagsOk(cfg, rank, user, cache, writeToConf)
    }

    ghost function Now(): Env
      requires WellFormed(cfg)
      reads this
    {
      FreshEnv(cfg, rank, user)
    }

    constructor (cfg: Config, ghost rank: Rank)
      requires WellFormed(cfg) && Ranked(cfg, rank) && ChoicesContained(cfg)
      ensures Valid() && this.cfg == cfg && this.rank == rank
      ensures user == User(map[], map[], map[]) && cache == map[]
    {
      this.cfg, this.rank := cfg, rank;
      var built := BuildDep(cfg);
      var all := AddChoiceDeps(cfg, built);
      dependents := all;
      user := User(map[], map[], map[]);
      cache := map[];
      writeToConf := seq(|cfg.syms|, _ => false);
    }

    method AtomTriValue(a: Atom, ghost bound: nat) returns (v: Tri)
      requires Valid() && AtomOk(cfg, a) && (a.SymA? ==> rank(TriC(a.s)) < bound)
      modifies this`cache, this`writeToConf
      ensures Valid() && Grown(old(cache), cache)
      ensures v == AtomTri(a, Now()).v && AtomTri(a, Now()).r <= cache.Keys
      decreases bound, 0, 0
    {
      hide Coherent, WriteFlagsOk, Ranked, ChoicesContained, DependentsOk, UserOk, UserValuesOk;
      match a
      case SymA(s) => v := TriValue(s);
      case TriA(t) => v := t;
    }

    method AtomStrValue(a: Atom, ghost bound: nat) returns (v: string)
      requires Valid() && AtomOk(cfg, a) && (a.SymA? ==> rank(StrC(a.s)) < bound)
      modifies this`cache, this`writeToConf
      ensures Valid() && Grown(old(cache), cache)
      ensures v == AtomStr(a, Now()).v && AtomStr(a, Now()).r <= cache.Keys
      decreases bound, 0, 0
    {
      hide Coherent, WriteFlagsOk, Ranked, ChoicesContained, DependentsOk, UserOk, UserValuesOk;
      match a
      case SymA(s) => v := StrValue(s);
      case TriA(t) => v := TriStr(t);
    }

    method AtomNumber(a: Atom, ghost bound: nat) returns (v: Option<int>)
      requires Valid() && AtomOk(cfg, a) && forall d <- AtomReads(a) :: rank(d) < bound
      modifies this`cache, this`writeToConf
      ensures Valid() && Grown(old(cache), cache)
      ensures v == AtomNum(cfg, a, Now()).v && AtomNum(cfg, a, Now()).r <= cache.Keys
      decreases bound, 0, 1
    {
      hide Coherent, WriteFlagsOk, Ranked, ChoicesContained, DependentsOk, UserOk, UserValuesOk;
      if IsBoolTri(AtomType(cfg, a)) {
        var t := AtomTriValue(a, bound);
        v := Some(t);
      } else {
        var x := AtomStrValue(a, bound);
        v := cfg.num(x, Base(AtomType(cfg, a)));
      }
    }

    method Compared(a: Atom, b: Atom, ghost bound: nat) returns (comp: int)
      requires Valid() && AtomOk(cfg, a) && AtomOk(cfg, b) && forall d <- AtomReads(a) + AtomReads(b) :: rank(d) < bound
      modifies this`cache, this`writeToConf
      ensures Valid() && Grown(old(cache), cache)
      ensures comp == RelComp(cfg, a, b, Now()).v && RelComp(cfg, a, b, Now()).r <= cache.Keys
      decreases bound, 0, 2
    {
      hide Coherent, WriteFlagsOk, Ranked, ChoicesContained, DependentsOk, UserOk, UserValuesOk, StrCmp, WellFormed;
      if !(AtomType(cfg, a) == STRING && AtomType(cfg, b) == STRING) {
        var na := AtomNumber(a, bound);
        if na.Some? {
          var nb := AtomNumber(b, bound);
          if nb.Some? { return na.value - nb.value; }
        }
      }
      var sa := AtomStrValue(a, bound);
      var sb := AtomStrValue(b, bound);
      comp := StrCmp(sa, sb);
    }

    method ChoiceTriValue(c: nat, ghost bound: nat) returns (v: Tri)
      requires Valid() && c < |cfg.choices| && forall d <- ChoiceReads(cfg, c) :: rank(d) < bound
      modifies this`cache, this`writeToConf
      ensures Valid() && Grown(old(cache), cache)
      ensures v == ChoiceTri(cfg, user, c, Now()).v && ChoiceTri(cfg, user, c, Now()).r <= cache.Keys
      decreases bound, 0, 0
    {
      hide Coherent, WriteFlagsOk, Ranked, ChoicesContained, DependentsOk, UserOk, UserValuesOk;
      var ch := cfg.choices[c];
      v := if ch.isOptional then 0 else 1;
      if c in user.mode { v := Max(v, user.mode[c]); }
      var vis := Visibility(ChoiceI(c));
      v := Min(v, vis);
      if v == 1 {
        if ch.origType == BOOL { v := 2; }
        else if ch.origType == TRISTATE {
          var m := TriValue(cfg.modules);
          if m == 0 { v := 2; }
        }
      }
    }

    method ExprValue(e: Expr, ghost bound: nat) returns (v: Tri)
      requires Valid() && ExprOk(cfg, e) && forall d <- ExprReads(cfg, e) :: rank(d) < bound
      modifies this`cache, this`writeToConf
      ensures Valid() && Grown(old(cache), cache)
      ensures v == EvalE(cfg, user, e, Now()).v && EvalE(cfg, user, e, Now()).r <= cache.Keys
      decreases bound, 1, e
    {
      hide Coherent, WriteFlagsOk, Ranked, ChoicesContained, DependentsOk, UserOk, UserValuesOk;
      match e
      case At(a) => v := AtomTriValue(a, bound);
      case ChoiceE(c) => v := ChoiceTriValue(c, bound);
      case And(l, r) =>
        v := ExprValue(l, bound);
        if v != 0 {
          var y := ExprValue(r, bound);
          v := Min(v, y);
        }
      case Or(l, r) =>
        v := ExprValue(l, bound);
        if v != 2 {
          var y := ExprValue(r, bound);
          v := Max(v, y);
        }
      case Not(x) =>
        var y := ExprValue(x, bound);
        v := 2 - y;
      case Rel(rel, a, b) =>
        var comp := Compared(a, b, bound);
        v := Compare(rel, comp);
    }

    method PromptValue(es: seq<Expr>, ghost bound: nat) returns (v: Tri)
      requires Valid() && ExprsOk(cfg, es) && forall d <- ExprsReads(cfg, es) :: rank(d) < bound
      modifies this`cache, this`writeToConf
      ensures Valid() && Grown(old(cache), cache)
      ensures v == EvalMax(cfg, user, es, Now()).v && EvalMax(cfg, user, es, Now()).r <= cache.Keys
      decreases bound, 2
    {
      hide Coherent, WriteFlagsOk, Ranked, ChoicesContained, DependentsOk, UserOk, UserValuesOk;
      v := 0;
      var i := 0;
      while i < |es|
        invariant 0 <= i <= |es| && Valid() && Grown(old(cache), cache)
        invariant v == EvalMax(cfg, user, es[..i], Now()).v && EvalMax(cfg, user, es[..i], Now()).r <= cache.Keys
      {
        assert es[..i + 1][..i] == es[..i];
        assert forall d | d in ExprReads(cfg, es[i]) :: d in ExprsReads(cfg, es);
        var y := ExprValue(es[i], bound);
        v := Max(v, y);
        i := i + 1;
      }
      assert es[..|es|] == es;
    }

    method TypeOf(s: nat, ghost bound: nat) returns (ty: Type)
      requires Valid() && s < |cfg.syms| && forall d <- TypeReads(cfg, s) :: rank(d) < bound
      modifies this`cache, this`writeToConf
      ensures Valid() && Grown(old(cache), cache)
      ensures ty == SymType(cfg, user, s, Now()).v && SymType(cfg, user, s, Now()).r <= cache.Keys
      decreases bound, 2
    {
      hide Coherent, WriteFlagsOk, Ranked, ChoicesContained, DependentsOk, UserOk, UserValuesOk;
      var sym := cfg.syms[s];
      ty := sym.origType;
      if ty == TRISTATE {
        if sym.choice.Some? {
          var k := ChoiceTriValue(sym.choice.value, bound);
          if k == 2 { return BOOL; }
        }
        var m := TriValue(cfg.modules);
        if m == 0 { ty := BOOL; }
      }
    }

    method SymbolVisibility(s: nat) returns (v: Tri)
      requires Valid() && s < |cfg.syms|
      modifies this`cache, this`writeToConf
      ensures Valid() && Grown(old(cache), cache)
      ensures v == SymVis(cfg, user, s, Now()).v && SymVis(cfg, user, s, Now()).r <= cache.Keys
      decreases rank(VisC(SymI(s))), 3
    {
      hide Coherent, WriteFlagsOk, Ranked, ChoicesContained, DependentsOk, UserOk, UserValuesOk;
      var sym := cfg.syms[s];
      ghost var bound := rank(VisC(SymI(s)));
      ReadsRankBelow(cfg, rank, VisC(SymI(s)));
      v := PromptValue(sym.prompts, bound);
      if sym.choice.Some? {
        var ch := cfg.choices[sym.choice.value];
        if ch.origType == TRISTATE && sym.origType != TRISTATE {
          var k := ChoiceTriValue(sym.choice.value, bound);
          if k != 2 { return 0; }
        }
        if sym.origType == TRISTATE && v == 1 {
          var k := ChoiceTriValue(sym.choice.value, bound);
          if k == 2 { return 0; }
        }
      }
      if v == 1 {
        var ty := TypeOf(s, bound);
        if ty != TRISTATE { v := 2; }
      }
    }

    method ChoiceVisibility(c: nat) returns (v: Tri)
      requires Valid() && c < |cfg.choices|
      modifies this`cache, this`writeToConf
      ensures Valid() && Grown(old(cache), cache)
      ensures v == ChoiceVis(cfg, user, c, Now()).v && ChoiceVis(cfg, user, c, Now()).r <= cache.Keys
      decreases rank(VisC(ChoiceI(c))), 3
    {
      hide Coherent, WriteFlagsOk, Ranked, ChoicesContained, DependentsOk, UserOk, UserValuesOk;
      var ch := cfg.choices[c];
      ghost var bound := rank(VisC(ChoiceI(c)));
      ReadsRankBelow(cfg, rank, VisC(ChoiceI(c)));
      v := PromptValue(ch.prompts, bound);
      if v == 1 {
        if ch.origType != TRISTATE { v := 2; }
        else {
          var m := TriValue(cfg.modules);
          if m == 0 { v := 2; }
        }
      }
    }

    /** The property `visibility`. */
    method Visibility(i: Item) returns (v: Tri)
      requires Valid() && CellOk(cfg, VisC(i))
      modifies this`cache, this`writeToConf
      ensures Valid() && Grown(old(cache), cache)
      ensures VisC(i) in cache && v == T(Fresh(cfg, rank, user, VisC(i)))
      decreases rank(VisC(i)), 4
    {
      hide Coherent, WriteFlagsOk, Ranked, ChoicesContained, DependentsOk, UserOk, UserValuesOk;
      if VisC(i) in cache { CachedIsFresh(cfg, rank, user, cache, VisC(i)); return T(cache[VisC(i)]); }
      match i {
        case SymI(s) => v := SymbolVisibility(s);
        case ChoiceI(c) => v := ChoiceVisibility(c);
      }
      StoreKeepsCoherence(cfg, rank, user, cache, VisC(i), TriV(v));
      StoreKeepsFlags(cfg, rank, user, cache, VisC(i), TriV(v), writeToConf, writeToConf);
      cache := cache[VisC(i) := TriV(v)];
    }

    /** The first default that applies, as a tristate value, and whether it makes the symbol be written. */
    method DefaultTri(ds: seq<Default>, ghost bound: nat) returns (v: Tri, w: bool)
      requires Valid() && DefaultsOk(cfg, ds) && forall d <- DefaultsReads(cfg, ds) :: rank(d) < bound
      modifies this`cache, this`writeToConf
      ensures Valid() && Grown(old(cache), cache)
      ensures v == TriDefault(cfg, user, ds, Now()).v && TriDefault(cfg, user, ds, Now()).r <= cache.Keys
      ensures w == TriDefault(cfg, user, ds, Now()).w
      decreases bound, 2
    {
      hide Coherent, WriteFlagsOk, Ranked, ChoicesContained, DependentsOk, UserOk, UserValuesOk;
      var i := 0;
      while i < |ds|
        invariant 0 <= i <= |ds| && Valid() && Grown(old(cache), cache)
        invariant DefaultsReads(cfg, ds[i..]) <= DefaultsReads(cfg, ds)
        invariant TriDefault(cfg, user, ds, Now()).v == TriDefault(cfg, user, ds[i..], Now()).v
        invariant TriDefault(cfg, user, ds, Now()).w == TriDefault(cfg, user, ds[i..], Now()).w
        invariant TriDefault(cfg, user, ds, Now()).r <= cache.Keys + TriDefault(cfg, user, ds[i..], Now()).r
      {
        assert ds[i..][0] == ds[i] && ds[i..][1..] == ds[i + 1..];
        var k := ExprValue(ds[i].cond, bound);
        if k != 0 {
          var x := ExprValue(ds[i].value, bound);
          return Min(x, k), Min(x, k) != 0;
        }
        i := i + 1;
      }
      v, w := 0, false;
    }

    method BaseTri(s: nat, vis: Tri, ghost bound: nat) returns (v: Tri, w: bool)
      requires Valid() && s < |cfg.syms| && IsBoolTri(cfg.syms[s].origType) && cfg.syms[s].choice.None?
      requires bound == rank(TriC(s))
      modifies this`cache, this`writeToConf
      ensures Valid() && Grown(old(cache), cache)
      ensures v == TriBase(cfg, user, s, vis, Now()).v && TriBase(cfg, user, s, vis, Now()).r <= cache.Keys
      ensures w == TriBase(cfg, user, s, vis, Now()).w
      decreases bound, 3
    {
      hide Coherent, WriteFlagsOk, Ranked, ChoicesContained, DependentsOk, UserOk, UserValuesOk;
      var sym := cfg.syms[s];
      ReadsRankBelow(cfg, rank, TriC(s));
      w := vis != 0;
      if vis != 0 && s in user.value {
        v := Min(if user.value[s].UserTri? then user.value[s].t else 0, vis);
      } else {
        var dw;
        v, dw := DefaultTri(sym.defaults, bound);
        w := w || dw;
        var k := ExprValue(sym.weakRevDep, bound);
        if k != 0 {
          var dd := ExprValue(sym.directDep, bound);
          if dd != 0 { v, w := Max(k, v), true; }
        }
      }
    }

    method PlainTri(s: nat, vis: Tri, ghost bound: nat) returns (v: Tri, w: bool)
      requires Valid() && s < |cfg.syms| && IsBoolTri(cfg.syms[s].origType) && cfg.syms[s].choice.None?
      requires bound == rank(TriC(s))
      modifies this`cache, this`writeToConf
      ensures Valid() && Grown(old(cache), cache)
      ensures v == TriPlain(cfg, user, s, vis, Now()).v && TriPlain(cfg, user, s, vis, Now()).r <= cache.Keys
      ensures w == TriPlain(cfg, user, s, vis, Now()).w
      decreases bound, 4
    {
      hide Coherent, WriteFlagsOk, Ranked, ChoicesContained, DependentsOk, UserOk, UserValuesOk;
      var sym := cfg.syms[s];
      ReadsRankBelow(cfg, rank, TriC(s));
      v, w := BaseTri(s, vis, bound);
      var k := ExprValue(sym.revDep, bound);
      if k != 0 {
        var _ := ExprValue(sym.directDep, bound);
        v, w := Max(k, v), true;
      }
      if v == 1 {
        var ty := TypeOf(s, bound);
        if ty == BOOL { v := 2; }
        else {
          var wk := ExprValue(sym.weakRevDep, bound);
          if wk == 2 { v := 2; }
        }
      }
    }

    method FreshTri(s: nat) returns (v: Tri, w: bool)
      requires Valid() && s < |cfg.syms| && IsBoolTri(cfg.syms[s].origType)
      modifies this`cache, this`writeToConf
      ensures Valid() && Grown(old(cache), cache)
      ensures v == TriBody(cfg, user, s, Now()).v && TriBody(cfg, user, s, Now()).r <= cache.Keys
      ensures w == TriBody(cfg, user, s, Now()).w
      decreases rank(TriC(s)), 5
    {
      hide Coherent, WriteFlagsOk, Ranked, ChoicesContained, DependentsOk, UserOk, UserValuesOk;
      var sym := cfg.syms[s];
      ReadsRankBelow(cfg, rank, TriC(s));
      var vis := Visibility(SymI(s));
      v, w := 0, vis != 0;
      if sym.choice.None? { v, w := PlainTri(s, vis, rank(TriC(s))); }
      else if vis == 2 {
        var sel := Selection(sym.choice.value);
        v := if sel == Some(s) then 2 else 0;
      }
      else if vis != 0 && s in user.value && user.value[s] != UserTri(0) { v := 1; }
    }

    /** The property `tri_value` of a symbol. */
    method TriValue(s: nat) returns (v: Tri)
      requires Valid() && s < |cfg.syms|
      modifies this`cache, this`writeToConf
      ensures Valid() && Grown(old(cache), cache)
      ensures TriC(s) in cache && v == T(Fresh(cfg, rank, user, TriC(s)))
      decreases rank(TriC(s)), 6
    {
      hide Coherent, WriteFlagsOk, Ranked, ChoicesContained, DependentsOk, UserOk, UserValuesOk;
      if TriC(s) in cache { CachedIsFresh(cfg, rank, user, cache, TriC(s)); return T(cache[TriC(s)]); }
      v := 0;
      ghost var flags := writeToConf;
      if IsBoolTri(cfg.syms[s].origType) {
        var w;
        v, w := FreshTri(s);
        flags := writeToConf;
        FlagsLength(cfg, rank, user, cache, flags);
        writeToConf := writeToConf[s := w];
      }
      hide TriBody, StrBody;
      StoreKeepsCoherence(cfg, rank, user, cache, TriC(s), TriV(v));
      StoreKeepsFlags(cfg, rank, user, cache, TriC(s), TriV(v), flags, writeToConf);
      cache := cache[TriC(s) := TriV(v)];
    }

    method ChosenRange(gs: seq<Range>, base: nat, ghost bound: nat) returns (v: Option<(int, int)>)
      requires Valid() && RangesOk(cfg, gs) && forall d <- RangesReads(cfg, gs) :: rank(d) < bound
      modifies this`cache, this`writeToConf
      ensures Valid() && Grown(old(cache), cache)
      ensures v == ActiveRange(cfg, user, gs, base, Now()).v && ActiveRange(cfg, user, gs, base, Now()).r <= cache.Keys
      decreases bound, 2
    {
      hide Coherent, WriteFlagsOk, Ranked, ChoicesContained, DependentsOk, UserOk, UserValuesOk;
      var i := 0;
      while i < |gs|
        invariant 0 <= i <= |gs| && Valid() && Grown(old(cache), cache)
        invariant RangesReads(cfg, gs[i..]) <= RangesReads(cfg, gs)
        invariant ActiveRange(cfg, user, gs, base, Now()).v == ActiveRange(cfg, user, gs[i..], base, Now()).v
        invariant ActiveRange(cfg, user, gs, base, Now()).r <= cache.Keys + ActiveRange(cfg, user, gs[i..], base, Now()).r
      {
        assert gs[i..][0] == gs[i] && gs[i..][1..] == gs[i + 1..];
        var k := ExprValue(gs[i].cond, bound);
        if k != 0 {
          var lo := AtomStrValue(gs[i].low, bound);
          var hi := AtomStrValue(gs[i].high, bound);
          return Some((NumOr0(cfg, lo, base), NumOr0(cfg, hi, base)));
        }
        i := i + 1;
      }
      v := None;
    }

    method DefaultStr(ds: seq<Default>, ghost bound: nat) returns (v: Option<string>)
      requires Valid() && StrDefaultsOk(cfg, ds) && forall d <- StrDefaultsReads(cfg, ds) :: rank(d) < bound
      modifies this`cache, this`writeToConf
      ensures Valid() && Grown(old(cache), cache)
      ensures v == StrDefault(cfg, user, ds, Now()).v && StrDefault(cfg, user, ds, Now()).r <= cache.Keys
      decreases bound, 2
    {
      hide Coherent, WriteFlagsOk, Ranked, ChoicesContained, DependentsOk, UserOk, UserValuesOk;
      var i := 0;
      while i < |ds|
        invariant 0 <= i <= |ds| && Valid() && Grown(old(cache), cache)
        invariant StrDefaultsReads(cfg, ds[i..]) <= StrDefaultsReads(cfg, ds)
        invariant StrDefault(cfg, user, ds, Now()).v == StrDefault(cfg, user, ds[i..], Now()).v
        invariant StrDefault(cfg, user, ds, Now()).r <= cache.Keys + StrDefault(cfg, user, ds[i..], Now()).r
      {
        assert ds[i..][0] == ds[i] && ds[i..][1..] == ds[i + 1..];
        var k := ExprValue(ds[i].cond, bound);
        if k != 0 {
          var x := AtomStrValue(ds[i].value.a, bound);
          return Some(x);
        }
        i := i + 1;
      }
      v := None;
    }

    method NumberValue(s: nat, vis: Tri, ghost bound: nat) returns (v: string, w: bool)
      requires Valid() && s < |cfg.syms| && IsIntHex(cfg.syms[s].origType) && bound == rank(StrC(s))
      modifies this`cache, this`writeToConf
      ensures Valid() && Grown(old(cache), cache)
      ensures v == NumberBody(cfg, user, s, vis, Now()).v && NumberBody(cfg, user, s, vis, Now()).r <= cache.Keys
      ensures w == NumberBody(cfg, user, s, vis, Now()).w
      decreases bound, 3
    {
      hide Coherent, WriteFlagsOk, Ranked, ChoicesContained, DependentsOk, UserOk, UserValuesOk;
      var sym := cfg.syms[s];
      ReadsRankBelow(cfg, rank, StrC(s));
      var range := ChosenRange(sym.ranges, Base(sym.origType), bound);
      var mine := UserNumber(cfg, user, s, Base(sym.origType), range);
      if vis != 0 && mine.Some? { return mine.value, true; }
      var d := DefaultStr(sym.defaults, bound);
      v := Clamp(cfg, sym.origType, if d.Some? then d.value else "", range);
      w := vis != 0 || d.Some?;
    }

    method FreshStr(s: nat) returns (v: string, w: bool)
      requires Valid() && s < |cfg.syms|
      modifies this`cache, this`writeToConf
      ensures Valid() && Grown(old(cache), cache)
      ensures v == StrBody(cfg, user, s, Now()).v && StrBody(cfg, user, s, Now()).r <= cache.Keys
      ensures w == StrBody(cfg, user, s, Now()).w
      decreases rank(StrC(s)), 4
    {
      hide Coherent, WriteFlagsOk, Ranked, ChoicesContained, DependentsOk, UserOk, UserValuesOk;
      var sym := cfg.syms[s];
      ReadsRankBelow(cfg, rank, StrC(s));
      if IsBoolTri(sym.origType) {
        var t := TriValue(s);
        return TriStr(t), false;
      }
      if sym.origType == UNKNOWN { return sym.name, false; }
      var vis := Visibility(SymI(s));
      w := vis != 0;
      if IsIntHex(sym.origType) { v, w := NumberValue(s, vis, rank(StrC(s))); }
      else if vis != 0 && s in user.value {
        v := if user.value[s].UserStr? then user.value[s].str else "";
      } else {
        var d := DefaultStr(sym.defaults, rank(StrC(s)));
        v := if d.Some? then d.value else "";
        w := w || d.Some?;
      }
      if sym.auto { w := false; }
    }

    /** The property `str_value`. */
    method StrValue(s: nat) returns (v: string)
      requires Valid() && s < |cfg.syms|
      modifies this`cache, this`writeToConf
      ensures Valid() && Grown(old(cache), cache)
      ensures StrC(s) in cache && v == S(Fresh(cfg, rank, user, StrC(s)))
      decreases rank(StrC(s)), 5
    {
      hide Coherent, WriteFlagsOk, Ranked, ChoicesContained, DependentsOk, UserOk, UserValuesOk;
      if StrC(s) in cache { CachedIsFresh(cfg, rank, user, cache, StrC(s)); return S(cache[StrC(s)]); }
      var w;
      v, w := FreshStr(s);
      ghost var flags := writeToConf;
      FlagsLength(cfg, rank, user, cache, flags);
      // tri_value has set the flag of a bool or tristate symbol already
      if !IsBoolTri(cfg.syms[s].origType) { writeToConf := writeToConf[s := w]; }
      assert cfg.syms[s].origType == UNKNOWN ==> !w;
      hide TriBody, StrBody;
      StoreKeepsCoherence(cfg, rank, user, cache, StrC(s), StrV(v));
      StoreKeepsFlags(cfg, rank, user, cache, StrC(s), StrV(v), flags, writeToConf);
      cache := cache[StrC(s) := StrV(v)];
    }

    method DefaultSelection(ds: seq<ChoiceDefault>, ghost bound: nat) returns (v: Option<nat>)
      requires Valid() && ChoiceDefaultsOk(cfg, ds) && forall d <- ChoiceDefaultsReads(cfg, ds) :: rank(d) < bound
      modifies this`cache, this`writeToConf
      ensures Valid() && Grown(old(cache), cache)
      ensures v == SelDefault(cfg, user, ds, Now()).v && SelDefault(cfg, user, ds, Now()).r <= cache.Keys
      decreases bound, 2
    {
      hide Coherent, WriteFlagsOk, Ranked, ChoicesContained, DependentsOk, UserOk, UserValuesOk;
      var i := 0;
      while i < |ds|
        invariant 0 <= i <= |ds| && Valid() && Grown(old(cache), cache)
        invariant ChoiceDefaultsReads(cfg, ds[i..]) <= ChoiceDefaultsReads(cfg, ds)
        invariant SelDefault(cfg, user, ds, Now()).v == SelDefault(cfg, user, ds[i..], Now()).v
        invariant SelDefault(cfg, user, ds, Now()).r <= cache.Keys + SelDefault(cfg, user, ds[i..], Now()).r
      {
        assert ds[i..][0] == ds[i] && ds[i..][1..] == ds[i + 1..];
        var k := ExprValue(ds[i].cond, bound);
        if k != 0 {
          var vis := Visibility(SymI(ds[i].sym));
          if vis != 0 { return Some(ds[i].sym); }
        }
        i := i + 1;
      }
      v := None;
    }

    method FirstVisibleSymbol(ss: seq<nat>, ghost bound: nat) returns (v: Option<nat>)
      requires Valid() && forall s <- ss :: s < |cfg.syms| && rank(VisC(SymI(s))) < bound
      modifies this`cache, this`writeToConf
      ensures Valid() && Grown(old(cache), cache)
      ensures v == FirstVisible(ss, Now()).v && FirstVisible(ss, Now()).r <= cache.Keys
      decreases bound, 2
    {
      hide Coherent, WriteFlagsOk, Ranked, ChoicesContained, DependentsOk, UserOk, UserValuesOk;
      var i := 0;
      while i < |ss|
        invariant 0 <= i <= |ss| && Valid() && Grown(old(cache), cache)
        invariant FirstVisible(ss, Now()).v == FirstVisible(ss[i..], Now()).v
        invariant FirstVisible(ss, Now()).r <= cache.Keys + FirstVisible(ss[i..], Now()).r
      {
        assert ss[i..][0] == ss[i] && ss[i..][1..] == ss[i + 1..];
        var vis := Visibility(SymI(ss[i]));
        if vis != 0 { return Some(ss[i]); }
        i := i + 1;
      }
      v := None;
    }

    method FreshSelection(c: nat, ghost bound: nat) returns (v: Option<nat>)
      requires Valid() && c < |cfg.choices| && bound == rank(SelC(c))
      modifies this`cache, this`writeToConf
      ensures Valid() && Grown(old(cache), cache)
      ensures v == SelBody(cfg, user, c, Now()).v && SelBody(cfg, user, c, Now()).r <= cache.Keys
      decreases bound, 3
    {
      hide Coherent, WriteFlagsOk, Ranked, ChoicesContained, DependentsOk, UserValuesOk;
      var ch := cfg.choices[c];
      ReadsRankBelow(cfg, rank, SelC(c));
      assert forall s | s in ch.syms :: VisC(SymI(s)) in MayRead(cfg, SelC(c));
      var k := ChoiceTriValue(c, bound);
      if k != 2 { return None; }
      if c in user.selection {
        var vis := Visibility(SymI(user.selection[c]));
        if vis != 0 { return Some(user.selection[c]); }
      }
      v := DefaultSelection(ch.defaults, bound);
      if v.None? { v := FirstVisibleSymbol(ch.syms, bound); }
    }

    /** The property `selection` of a choice. */
    method Selection(c: nat) returns (v: Option<nat>)
      requires Valid() && c < |cfg.choices|
      modifies this`cache, this`writeToConf
      ensures Valid() && Grown(old(cache), cache)
      ensures SelC(c) in cache && v == O(Fresh(cfg, rank, user, SelC(c)))
      decreases rank(SelC(c)), 4
    {
      hide Coherent, WriteFlagsOk, Ranked, ChoicesContained, DependentsOk, UserOk, UserValuesOk;
      if SelC(c) in cache { CachedIsFresh(cfg, rank, user, cache, SelC(c)); return O(cache[SelC(c)]); }
      v := FreshSelection(c, rank(SelC(c)));
      StoreKeepsCoherence(cfg, rank, user, cache, SelC(c), SelV(v));
      StoreKeepsFlags(cfg, rank, user, cache, SelC(c), SelV(v), writeToConf, writeToConf);
      cache := cache[SelC(c) := SelV(v)];
    }

    /** The property `config_string`: the line written to .config, if any. */
    method ConfigString(s: nat, prefix: string) returns (line: string)
      requires Valid() && s < |cfg.syms|
      modifies this`cache, this`writeToConf
      ensures Valid() && Grown(old(cache), cache)
      ensures line == ConfigLine(cfg.syms[s], prefix, S(Fresh(cfg, rank, user, StrC(s))),
                                 Body(cfg, user, ValueCell(cfg, s), Now()).w)
    {
      hide Coherent, Ranked, ChoicesContained, DependentsOk, UserOk, UserValuesOk, Body;
      var val := StrValue(s);
      FlagIsFresh(cfg, rank, user, cache, writeToConf, s);
      line := ConfigLine(cfg.syms[s], prefix, val, writeToConf[s]);
    }

    // ---- invalidation ----

    method InvalidateAll() returns (ghost gone: set<Item>)
      modifies this`cache
      ensures cache == Without(old(cache), gone)
      ensures forall j :: j in gone <==> ItemOk(cfg, j) && ItemDefined(cfg, j)
    {
      cache := map c | c in cache && !(CellOk(cfg, c) && ItemDefined(cfg, ItemOf(c))) :: cache[c];
      gone := set j | j in AllItems(cfg) && ItemDefined(cfg, j);
    }

    /** _rec_invalidate: clears an item and, recursively, its dependents -- but only
        those with a cached visibility.  Dependency cycles between a choice and its
        symbols end the recursion, as the number of cached visibilities drops. */
    method RecInvalidate(i: Item) returns (ghost gone: set<Item>)
      requires WellFormed(cfg) && DependentsOk(cfg, dependents) && ItemOk(cfg, i) && ItemDefined(cfg, i)
      modifies this`cache
      ensures cache == Without(old(cache), gone) && i in gone
      ensures Cleared(cfg, cache, gone) && AllIfModules(cfg, gone)
      ensures SymI(cfg.modules) in gone || forall g | g in gone && g != i :: VisC(g) in old(cache)
      decreases |CachedItems(cache) - {i}|
    {
      hide DependsOn, Cleared, WellFormed, DependentsOk;
      DependentsExist(cfg, dependents, i);
      if i == SymI(cfg.modules) {
        gone := InvalidateAll();
        AllCleared(cfg, old(cache), gone);
      } else {
        cache := map c | c in cache && ItemOf(c) != i :: cache[c];
        gone := {i};
        var todo := dependents[i];
        NothingCleared(cfg, cache);
        while todo != {}
          invariant todo <= dependents[i]
          invariant cache == Without(old(cache), gone) && i in gone
          invariant Cleared(cfg, cache, gone - {i}) && AllIfModules(cfg, gone)
          invariant SymI(cfg.modules) in gone || forall g | g in gone && g != i :: VisC(g) in old(cache)
          invariant forall j | j in dependents[i] && j !in todo :: VisC(j) !in cache
        {
          var item :| item in todo;
          todo := todo - {item};
          if VisC(item) in cache {
            ghost var before := cache;
            FewerCachedItems(old(cache), i, cache, item);
            DependentIsDefined(cfg, dependents, i, item);
            ghost var more := RecInvalidate(item);
            WithoutTwice(old(cache), gone, more);
            ClearedStays(cfg, before, cache, gone - {i}, more, (gone + more) - {i});
            gone := gone + more;
          }
        }
        DirectDependentsCleared(cfg, dependents, cache, i, gone);
      }
    }

    /** Invalidates from `root` after the user's input has changed from `before`. */
    method Refresh(root: Item, ghost before: User)
      requires WellFormed(cfg) && Ranked(cfg, rank) && ChoicesContained(cfg) && DependentsOk(cfg, dependents)
      requires ItemOk(cfg, root) && ItemDefined(cfg, root)
      requires UserOk(cfg, before) && UserOk(cfg, user) && UserValuesOk(cfg, user)
      requires Coherent(cfg, rank, before, cache) && WriteFlagsOk(cfg, rank, before, cache, writeToConf)
      requires ChangesAt(cfg, before, user, root)
      modifies this`cache
      ensures Valid()
    {
      hide Coherent, Ranked, ChoicesContained, UserOk, UserValuesOk, WriteFlagsOk;
      ghost var gone := RecInvalidate(root);
      ClearedIsClosed(cfg, old(cache), gone);
      ChangesCovered(cfg, before, user, old(cache), root, gone);
      InvalidationKeepsCoherence(cfg, rank, before, user, old(cache), gone);
      InvalidationKeepsFlags(cfg, rank, before, user, old(cache), gone, writeToConf);
    }

    /** _rec_invalidate_if_has_prompt: a user value has no effect on a promptless symbol. */
    method RefreshIfPrompt(s: nat, ghost before: User)
      requires WellFormed(cfg) && Ranked(cfg, rank) && ChoicesContained(cfg) && DependentsOk(cfg, dependents)
      requires s < |cfg.syms|
      requires UserOk(cfg, before) && UserOk(cfg, user) && UserValuesOk(cfg, user)
      requires Coherent(cfg, rank, before, cache) && WriteFlagsOk(cfg, rank, before, cache, writeToConf)
      requires ChangesAt(cfg, before, user, SymI(s))
      modifies this`cache
      ensures Valid()
    {
      hide Coherent, Ranked, ChoicesContained, UserOk, UserValuesOk, WriteFlagsOk;
      if cfg.syms[s].prompts != [] {
        Refresh(SymI(s), before);
      } else {
        assert Without(cache, {}) == cache;
        NothingGone(cfg, before, user, cache, s);
        InvalidationKeepsCoherence(cfg, rank, before, user, cache, {});
        InvalidationKeepsFlags(cfg, rank, before, user, cache, {}, writeToConf);
      }
    }

    /** Symbol.unset_value */
    method UnsetValue(s: nat)
      requires Valid() && s < |cfg.syms|
      modifies this`user, this`cache
      ensures Valid() && user == old(user).(value := old(user).value - {s})
    {
      hide Coherent, Ranked, ChoicesContained, WriteFlagsOk, DependentsOk;
      if s in user.value {
        ghost var before := user;
        UnsetStaysOk(cfg, user, s);
        hide UserOk, UserValuesOk, ChangesAt;
        user := user.(value := user.value - {s});
        RefreshIfPrompt(s, before);
      } else {
        assert user.value - {s} == user.value;
      }
    }

    /** Choice.set_value: whether the value is a mode that the choice accepts. */
    method SetMode(c: nat, value: UserValue) returns (ok: bool)
      requires Valid() && c < |cfg.choices|
      modifies this`user, this`cache
      ensures Valid()
      ensures var v := Normalize(TRISTATE, value);
              && ok == (v.UserTri? && ValidFor(cfg, cfg.choices[c].origType, v))
              && user == if ok then old(user).(mode := old(user).mode[c := v.t]) else old(user)
    {
      hide Coherent, Ranked, ChoicesContained, WriteFlagsOk, DependentsOk;
      var v := Normalize(TRISTATE, value);
      if !v.UserTri? { return false; }
      if c in user.mode && user.mode[c] == v.t {
        assert user.mode[c := v.t] == user.mode;
        return true;
      }
      if !ValidFor(cfg, cfg.choices[c].origType, v) { return false; }
      ok := true;
      ghost var before := user;
      user := user.(mode := user.mode[c := v.t]);
      Refresh(ChoiceI(c), before);
    }

    /** Choice.unset_value */
    method UnsetChoice(c: nat)
      requires Valid() && c < |cfg.choices|
      modifies this`user, this`cache
      ensures Valid()
      ensures user == old(user).(mode := old(user).mode - {c}, selection := old(user).selection - {c})
    {
      hide Coherent, Ranked, ChoicesContained, WriteFlagsOk, DependentsOk, UserOk, UserValuesOk, ChangesAt, WellFormed;
      if c in user.mode || c in user.selection {
        ghost var before := user;
        UnsetChoiceStaysOk(cfg, user, c);
        user := user.(mode := user.mode - {c}, selection := user.selection - {c});
        Refresh(ChoiceI(c), before);
      } else {
        assert user.mode - {c} == user.mode && user.selection - {c} == user.selection;
      }
    }

    /** Symbol.set_value: whether the value has a form that the symbol accepts. */
    method SetValue(s: nat, value: UserValue) returns (ok: bool)
      requires Valid() && s < |cfg.syms|
      modifies this`user, this`cache
      ensures Valid()
      ensures ok == ValidFor(cfg, cfg.syms[s].origType, Normalize(cfg.syms[s].origType, value))
      ensures user == if ok then WithValue(cfg, old(user), s, Normalize(cfg.syms[s].origType, value)) else old(user)
    {
      hide Coherent, Ranked, ChoicesContained, WriteFlagsOk, DependentsOk;
      var sym := cfg.syms[s];
      var v := Normalize(sym.origType, value);
      if s in user.value && user.value[s] == v && sym.choice.None? {
        assert user.value[s := v] == user.value && ValidFor(cfg, sym.origType, user.value[s]);
        return true;
      }
      if !ValidFor(cfg, sym.origType, v) { return false; }
      ok := true;
      ValueStaysOk(cfg, user, s, v);
      if sym.choice.Some? { SelectionStaysOk(cfg, user, s, v); }
      hide UserOk, UserValuesOk, ChangesAt, Normalize, ValidFor;
      ghost var before := user;
      user := user.(value := user.value[s := v]);
      if sym.choice.Some? && v == UserTri(2) {
        user := user.(selection := user.selection[sym.choice.value := s]);
        Refresh(ChoiceI(sym.choice.value), before);
      } else {
        RefreshIfPrompt(s, before);
      }
    }
  }
}
