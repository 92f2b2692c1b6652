/** _build_dep and _add_choice_deps: filling in the _dependents sets. */
module KconfigDependents {
  import opened KconfigModel
  import opened KconfigCoherence

  type Dependents = map<Item, set<Item>>

  predicate ItemOk(cfg: Config, i: Item) { CellOk(cfg, VisC(i)) }

  /** `dependents[i]` holds exactly the items that are recorded as depending on i. */
  ghost predicate DependentsOk(cfg: Config, dependents: Dependents) {
    && (forall i | i in dependents :: ItemOk(cfg, i))
    && (forall i | ItemOk(cfg, i) :: i in dependents)
    && (forall i, j | i in dependents && j in dependents[i] :: ItemOk(cfg, j))
    && (forall i, j | i in dependents && ItemOk(cfg, j) :: j in dependents[i] <==> i in DependsOn(cfg, j))
  }

  method DependOnAtom(dependents: Dependents, sc: Item, a: Atom) returns (added: Dependents)
    requires AtomItems(a) <= dependents.Keys
    ensures added.Keys == dependents.Keys
    ensures forall i | i in dependents ::
      added[i] == dependents[i] + if i in AtomItems(a) then {sc} else {}
  {
    added := dependents;
    if a.SymA? { added := added[SymI(a.s) := added[SymI(a.s)] + {sc}]; }
  }

  /** _depend_on */
  method DependOn(dependents: Dependents, sc: Item, e: Expr) returns (added: Dependents)
    requires ExprItems(e) <= dependents.Keys
    ensures added.Keys == dependents.Keys
    ensures forall i | i in dependents ::
      added[i] == dependents[i] + if i in ExprItems(e) then {sc} else {}
    decreases e
  {
    added := dependents;
    match e
    case At(a) => added := DependOnAtom(added, sc, a);
    case ChoiceE(c) => added := added[ChoiceI(c) := added[ChoiceI(c)] + {sc}];
    case And(l, r) => added := DependOn(added, sc, l); added := DependOn(added, sc, r);
    case Or(l, r) => added := DependOn(added, sc, l); added := DependOn(added, sc, r);
    case Not(x) => added := DependOn(added, sc, x);
    case Rel(_, a, b) => added := DependOnAtom(added, sc, a); added := DependOnAtom(added, sc, b);
  }

  method DependOnAll(dependents: Dependents, sc: Item, es: seq<Expr>) returns (added: Dependents)
    requires ExprsItems(es) <= dependents.Keys
    ensures added.Keys == dependents.Keys
    ensures forall i | i in dependents ::
      added[i] == dependents[i] + if i in ExprsItems(es) then {sc} else {}
  {
    added := dependents;
    var k := 0;
    while k < |es|
      invariant 0 <= k <= |es| && added.Keys == dependents.Keys
      invariant forall i | i in dependents ::
        added[i] == dependents[i] + if i in ExprsItems(es[..k]) then {sc} else {}
    {
      ExprsItemsMember(es, k);
      assert es[..k + 1][..k] == es[..k];
      added := DependOn(added, sc, es[k]);
      k := k + 1;
    }
    assert es[..|es|] == es;
  }

  lemma {:induction false} ItemsExist(cfg: Config, e: Expr)
    requires ExprOk(cfg, e)
    ensures forall i <- ExprItems(e) :: ItemOk(cfg, i)
  {
    match e
    case And(l, r) => ItemsExist(cfg, l); ItemsExist(cfg, r);
    case Or(l, r) => ItemsExist(cfg, l); ItemsExist(cfg, r);
    case Not(x) => ItemsExist(cfg, x);
    case _ =>
  }

  lemma {:induction false} AllItemsExist(cfg: Config, es: seq<Expr>)
    requires ExprsOk(cfg, es)
    ensures forall i <- ExprsItems(es) :: ItemOk(cfg, i)
  {
    if es != [] {
      AllItemsExist(cfg, es[..|es| - 1]);
      ItemsExist(cfg, es[|es| - 1]);
    }
  }

  lemma {:induction false} PropertiesOk(cfg: Config, ds: seq<Default>, gs: seq<Range>, cs: seq<ChoiceDefault>)
    requires DefaultsOk(cfg, ds) && RangesOk(cfg, gs) && ChoiceDefaultsOk(cfg, cs)
    ensures ExprsOk(cfg, DefaultExprs(ds)) && ExprsOk(cfg, RangeExprs(gs)) && ExprsOk(cfg, CondExprs(cs))
    decreases |ds| + |gs| + |cs|
  {
    if ds != [] { PropertiesOk(cfg, ds[1..], gs, cs); }
    if gs != [] { PropertiesOk(cfg, ds, gs[1..], cs); }
    if cs != [] { PropertiesOk(cfg, ds, gs, cs[1..]); }
  }

  lemma DependsOnExists(cfg: Config, i: Item)
    requires WellFormed(cfg) && ItemOk(cfg, i)
    ensures forall j <- DependsOn(cfg, i) :: ItemOk(cfg, j)
  {
    match i {
      case SymI(s) => PropertiesOk(cfg, cfg.syms[s].defaults, cfg.syms[s].ranges, []);
      case ChoiceI(c) => PropertiesOk(cfg, [], [], cfg.choices[c].defaults);
    }
    AllItemsExist(cfg, DepExprs(cfg, i));
  }

  function AllItems(cfg: Config): (all: set<Item>)
    ensures forall i :: i in all <==> ItemOk(cfg, i)
  {
    (set s | 0 <= s < |cfg.syms| :: SymI(s)) + (set c | 0 <= c < |cfg.choices| :: ChoiceI(c))
  }

  /** The dependencies found so far: those of the items in `done`. */
  ghost predicate BuiltFor(cfg: Config, dependents: Dependents, done: set<Item>) {
    && dependents.Keys == AllItems(cfg)
    && forall i, j | i in dependents ::
         j in dependents[i] <==> j in done && ItemOk(cfg, j) && i in ExprsItems(DepExprs(cfg, j))
  }

  method BuildItem(cfg: Config, dependents: Dependents, sc: Item, ghost done: set<Item>) returns (added: Dependents)
    requires WellFormed(cfg) && ItemOk(cfg, sc) && BuiltFor(cfg, dependents, done)
    ensures BuiltFor(cfg, added, done + {sc})
  {
    DependsOnExists(cfg, sc);
    hide DepExprs;
    added := DependOnAll(dependents, sc, DepExprs(cfg, sc));
  }

  /** _build_dep */
  method BuildDep(cfg: Config) returns (dependents: Dependents)
    requires WellFormed(cfg)
    ensures BuiltFor(cfg, dependents, AllItems(cfg))
  {
    hide DepExprs, WellFormed;
    dependents := map i | i in AllItems(cfg) :: {};
    ghost var done := {};
    var s := 0;
    while s < |cfg.syms|
      invariant 0 <= s <= |cfg.syms| && BuiltFor(cfg, dependents, done)
      invariant done == set k | 0 <= k < s :: SymI(k)
    {
      dependents := BuildItem(cfg, dependents, SymI(s), done);
      done := done + {SymI(s)};
      s := s + 1;
    }
    var c := 0;
    ghost var syms := done;
    while c < |cfg.choices|
      invariant 0 <= c <= |cfg.choices| && BuiltFor(cfg, dependents, done)
      invariant done == syms + set k | 0 <= k < c :: ChoiceI(k)
    {
      dependents := BuildItem(cfg, dependents, ChoiceI(c), done);
      done := done + {ChoiceI(c)};
      c := c + 1;
    }
    assert done == AllItems(cfg);
  }

  method AddMembers(built: Dependents, choice: Item, syms: seq<nat>) returns (dependents: Dependents)
    requires forall s <- syms :: SymI(s) in built
    ensures dependents.Keys == built.Keys
    ensures forall i | i in built ::
      dependents[i] == built[i] + if i.SymI? && i.s in syms then {choice} else {}
  {
    dependents := built;
    var k := 0;
    while k < |syms|
      invariant 0 <= k <= |syms| && dependents.Keys == built.Keys
      invariant forall i | i in built ::
        dependents[i] == built[i] + if i.SymI? && i.s in syms[..k] then {choice} else {}
    {
      assert syms[..k + 1] == syms[..k] + [syms[k]];
      dependents := dependents[SymI(syms[k]) := dependents[SymI(syms[k])] + {choice}];
      k := k + 1;
    }
    assert syms[..k] == syms;
  }

  /** Whether j depends on i, once the choices below `n` have been added. */
  ghost predicate MemberEdge(cfg: Config, built: Dependents, dependents: Dependents, n: nat, i: Item, j: Item)
    requires n <= |cfg.choices| && i in built && i in dependents
  {
    j in dependents[i] <==> j in built[i] || (j.ChoiceI? && j.c < n && i.SymI? && i.s in cfg.choices[j.c].syms)
  }

  /** The choices below `n` have been added to the dependents of their symbols. */
  ghost predicate MembersAdded(cfg: Config, built: Dependents, dependents: Dependents, n: nat)
    requires n <= |cfg.choices|
  {
    && built.Keys == dependents.Keys == AllItems(cfg)
    && forall i, j {:trigger MemberEdge(cfg, built, dependents, n, i, j)} | i in dependents ::
         i in built && MemberEdge(cfg, built, dependents, n, i, j)
  }

  lemma AllAdded(cfg: Config, built: Dependents, dependents: Dependents)
    requires WellFormed(cfg) && BuiltFor(cfg, built, AllItems(cfg))
    requires MembersAdded(cfg, built, dependents, |cfg.choices|)
    ensures DependentsOk(cfg, dependents)
  {
    hide DepExprs, WellFormed;
    forall i, j | i in dependents
      ensures i in built
      ensures j in dependents[i] <==> j in built[i] || (j.ChoiceI? && j.c < |cfg.choices| && i.SymI? && i.s in cfg.choices[j.c].syms)
    {
      assert MemberEdge(cfg, built, dependents, |cfg.choices|, i, j);
    }
  }

  lemma MembersExist(cfg: Config, c: nat)
    requires WellFormed(cfg) && c < |cfg.choices|
    ensures forall s <- cfg.choices[c].syms :: SymI(s) in AllItems(cfg)
  {
    assert ChoiceOk(cfg, cfg.choices[c]);
  }

  /** _add_choice_deps: choices also depend on the choice symbols themselves. */
  method AddChoiceDeps(cfg: Config, built: Dependents) returns (dependents: Dependents)
    requires WellFormed(cfg) && BuiltFor(cfg, built, AllItems(cfg))
    ensures DependentsOk(cfg, dependents)
  {
    hide WellFormed, MembersAdded, DependentsOk, DepExprs;
    dependents := built;
    NoneAdded(cfg, built);
    var c := 0;
    while c < |cfg.choices|
      invariant 0 <= c <= |cfg.choices| && MembersAdded(cfg, built, dependents, c)
    {
      dependents := AddChoice(cfg, built, dependents, c);
      c := c + 1;
    }
    AllAdded(cfg, built, dependents);
  }

  lemma NoneAdded(cfg: Config, built: Dependents)
    requires built.Keys == AllItems(cfg)
    ensures MembersAdded(cfg, built, built, 0)
  {
  }

  method AddChoice(cfg: Config, ghost built: Dependents, was: Dependents, c: nat) returns (dependents: Dependents)
    requires WellFormed(cfg) && c < |cfg.choices| && MembersAdded(cfg, built, was, c)
    ensures MembersAdded(cfg, built, dependents, c + 1)
  {
    hide WellFormed;
    MembersExist(cfg, c);
    dependents := AddMembers(was, ChoiceI(c), cfg.choices[c].syms);
    forall i, j {:trigger MemberEdge(cfg, built, dependents, c + 1, i, j)} | i in dependents
      ensures i in built && MemberEdge(cfg, built, dependents, c + 1, i, j)
    {
      assert MemberEdge(cfg, built, was, c, i, j);
      assert dependents[i] == was[i] + if i.SymI? && i.s in cfg.choices[c].syms then {ChoiceI(c)} else {};
    }
  }
}
