/** What the loop check buys.  For a configuration that it accepts, with choices or without,
    fresh evaluation is well founded exactly when no cell comes to need itself through one
    of three kinds of reads that the check does not follow. */
module KconfigLayers {
  import opened Basics
  import opened KconfigModel
  import opened KconfigFresh
  import opened KconfigCoherence
  import opened KconfigDependents
  import opened KconfigWalk
  import opened KconfigOrder
  import opened KconfigLoops

  /** The items in the expressions of an item: what _build_dep records, before the choices
      are added to the dependents of their members. */
  function Mentions(cfg: Config, i: Item): set<Item>
    requires ItemOk(cfg, i)
  {
    ExprsItems(DepExprs(cfg, i))
  }

  /** Nothing is listed twice. */
  ghost predicate Once(list: seq<Item>) { forall j, k | 0 <= j < k < |list| :: list[j] != list[k] }

  /** The graph that the loop check walks, its sets listed in any order. */
  ghost predicate GraphOf(cfg: Config, g: Graph) {
    && g.cfg == cfg && g.dependents.Keys == AllItems(cfg) && (forall i | i in g.dependents :: Once(g.dependents[i]))
    && forall i, j {:trigger j in g.dependents[i]} | i in g.dependents ::
         j in g.dependents[i] <==> ItemOk(cfg, j) && i in Mentions(cfg, j)
  }

  // ---- the reads that the loop check does not follow ----

  /** MODULES; a choice, from an item that mentions it without being a member; the members
      of a choice, from its selection. */
  datatype BlindSpot = Modules | Mode(c: nat) | Selection(c: nat)

  ghost predicate Outsider(cfg: Config, c: nat, i: Item)
    requires c < |cfg.choices|
  {
    ItemOk(cfg, i) && ChoiceI(c) in Mentions(cfg, i) && !(i.SymI? && i.s in cfg.choices[c].syms)
  }

  ghost function BlindSpots(cfg: Config): set<BlindSpot> {
    {Modules} + (set c | 0 <= c < |cfg.choices| && (exists i :: Outsider(cfg, c, i)) :: Mode(c)) +
    (set c | 0 <= c < |cfg.choices| :: Selection(c))
  }

  /** The read of d for c belongs to the blind spot. */
  predicate Blind(cfg: Config, b: BlindSpot, c: Cell, d: Cell) {
    match b
    case Modules => d == TriC(cfg.modules)
    case Mode(k) => d == VisC(ChoiceI(k))
    case Selection(k) => c == SelC(k) && d.VisC? && d.i.SymI?
  }

  /** A set of cells that can be computed first: it holds all that its cells may ask for,
      everything that is asked for through the blind spot, and no cell that asks so. */
  ghost predicate Early(cfg: Config, b: BlindSpot, early: set<Cell>)
    requires WellFormed(cfg)
  {
    && (forall c <- early :: CellOk(cfg, c) && MayRead(cfg, c) <= early)
    && (forall c, d | CellOk(cfg, c) && d in MayRead(cfg, c) && Blind(cfg, b, c, d) :: d in early && c !in early)
  }

  ghost predicate Clear(cfg: Config, b: BlindSpot)
    requires WellFormed(cfg)
  {
    exists early :: Early(cfg, b, early)
  }

  ghost predicate Rankable(cfg: Config)
    requires WellFormed(cfg)
  {
    exists rank :: Ranked(cfg, rank)
  }

  // ---- a ranking leaves the blind spots clear ----

  function AllCells(cfg: Config): (all: set<Cell>)
    ensures forall c :: c in all <==> CellOk(cfg, c)
  {
    (set i | i in AllItems(cfg) :: VisC(i)) + (set s | 0 <= s < |cfg.syms| :: TriC(s)) +
    (set s | 0 <= s < |cfg.syms| :: StrC(s)) + (set k | 0 <= k < |cfg.choices| :: SelC(k))
  }

  ghost function Bound(cfg: Config, rank: Rank, b: BlindSpot): nat {
    match b
    case Modules => rank(TriC(cfg.modules)) + 1
    case Mode(k) => rank(VisC(ChoiceI(k))) + 1
    case Selection(k) => rank(SelC(k))
  }

  lemma RankedIsClear(cfg: Config, rank: Rank, b: BlindSpot)
    requires WellFormed(cfg) && Ranked(cfg, rank)
    ensures Clear(cfg, b)
  {
    hide MayRead, WellFormed, CellOk;
    var early := set c | c in AllCells(cfg) && rank(c) < Bound(cfg, rank, b);
    forall c | c in early ensures CellOk(cfg, c) && MayRead(cfg, c) <= early { assert ReadsBelow(cfg, rank, c); }
    forall c, d | CellOk(cfg, c) && d in MayRead(cfg, c) && Blind(cfg, b, c, d) ensures d in early && c !in early {
      assert ReadsBelow(cfg, rank, c);
    }
    assert Early(cfg, b, early);
  }

  // ---- and the other way round ----

  /** The ways in which a cell may ask for another. */
  ghost predicate Way(cfg: Config, c: Cell, d: Cell)
    requires CellOk(cfg, c)
  {
    || d == TriC(cfg.modules) || OwnRead(c, d)
    || (FromExpr(d) && ItemOf(d) in Mentions(cfg, ItemOf(c)))
    || (ItemOf(c).SymI? && HomeRead(cfg, c, d))
    || (c.SelC? && d.VisC? && d.i.SymI?)
  }

  ghost predicate HomeRead(cfg: Config, c: Cell, d: Cell)
    requires CellOk(cfg, c) && ItemOf(c).SymI?
  {
    && cfg.syms[ItemOf(c).s].choice.Some?
    && var k := cfg.syms[ItemOf(c).s].choice.value;
       d == VisC(ChoiceI(k)) || (c.TriC? && d == SelC(k))
  }

  lemma ChoiceWays(cfg: Config, c: Cell)
    requires WellFormed(cfg) && CellOk(cfg, c) && ItemOf(c).ChoiceI?
    ensures forall d <- MayRead(cfg, c) :: Way(cfg, c, d)
  {
    var ch := cfg.choices[ItemOf(c).c];
    ExprsRecorded(cfg, ch.prompts);
    CondsRecorded(cfg, ch.defaults);
    ExprsItemsConcat(ch.prompts, CondExprs(ch.defaults));
  }

  lemma SymbolWays(cfg: Config, c: Cell)
    requires WellFormed(cfg) && CellOk(cfg, c) && ItemOf(c).SymI?
    ensures forall d <- MayRead(cfg, c) :: Way(cfg, c, d)
  {
    var s := ItemOf(c).s;
    var sym := cfg.syms[s];
    if sym.defined {
      DepExprsParts(cfg, s);
      ExprsRecorded(cfg, sym.prompts);
      DefaultsRecorded(cfg, sym.defaults);
      RangesRecorded(cfg, sym.ranges);
      ExprRecorded(cfg, sym.revDep); ExprRecorded(cfg, sym.weakRevDep); ExprRecorded(cfg, sym.directDep);
    } else { UndefinedReadsNothing(cfg, c); }
  }

  ghost function Within(c: Cell): nat {
    match c case VisC(_) => 0 case TriC(_) => 1 case StrC(_) => 2 case SelC(_) => 1
  }

  /** By the height of the item; within an item visibility, value, string. */
  ghost function ByHeight(g: Graph, order: seq<Item>, c: Cell): nat {
    HeightBounds(g, order, ItemOf(c));
    4 * Height(g, order, ItemOf(c)) + Within(c)
  }

  lemma GraphIsOk(cfg: Config, g: Graph)
    requires WellFormed(cfg) && GraphOf(cfg, g)
    ensures GraphOk(g)
  {
    hide Mentions;
    forall i | i in g.dependents ensures Linked(g, i) {
      match i
      case SymI(s) =>
      case ChoiceI(c) => MembersExist(cfg, c);
    }
  }

  /** All defined symbols have been finished. */
  ghost predicate Complete(cfg: Config, order: seq<Item>) {
    forall s | 0 <= s < |cfg.syms| && cfg.syms[s].defined :: SymI(s) in order
  }

  lemma MentionedIsLower(cfg: Config, g: Graph, order: seq<Item>, i: Item, s: nat)
    requires WellFormed(cfg) && GraphOf(cfg, g) && OrderOk(g, order) && Complete(cfg, order)
    requires ItemOk(cfg, i) && ItemOk(cfg, SymI(s)) && SymI(s) in Mentions(cfg, i) && (i.SymI? ==> cfg.syms[i.s].defined)
    ensures Height(g, order, SymI(s)) < Height(g, order, i)
  {
    GraphIsOk(cfg, g);
    hide Mentions, OrderOk, Height;
    assert i in g.dependents[SymI(s)];
    if SymI(s) in order { DependentIsHigher(g, order, s, i); }
    else { NeverVisited(cfg, g, order, i, s); }
  }

  lemma NeverVisited(cfg: Config, g: Graph, order: seq<Item>, i: Item, s: nat)
    requires WellFormed(cfg) && g.cfg == cfg && s < |cfg.syms| && Complete(cfg, order)
    requires SymI(s) !in order && (i.SymI? ==> i in order)
    ensures Height(g, order, SymI(s)) < Height(g, order, i)
  {
    HeightBounds(g, order, i);
    assert SymbolOk(cfg, cfg.syms[s]);
  }

  lemma OwnIsLower(g: Graph, order: seq<Item>, c: Cell, d: Cell)
    requires OwnRead(c, d)
    ensures ByHeight(g, order, d) < ByHeight(g, order, c)
  {
    hide Height;
  }

  /** A read of a symbol that is followed is of a value that an expression asks for. */
  lemma SymbolReadMentions(cfg: Config, c: Cell, d: Cell)
    requires CellOk(cfg, c) && Way(cfg, c, d) && ItemOf(d).SymI? && !OwnRead(c, d)
    requires forall b <- BlindSpots(cfg) :: !Blind(cfg, b, c, d)
    ensures ItemOf(d) in Mentions(cfg, ItemOf(c))
  {
    hide Mentions;
    assert !Blind(cfg, Modules, c, d);
    if c.SelC? { assert !Blind(cfg, Selection(c.c), c, d); }
  }

  lemma HigherItem(g: Graph, order: seq<Item>, c: Cell, d: Cell)
    requires Height(g, order, ItemOf(d)) < Height(g, order, ItemOf(c))
    ensures ByHeight(g, order, d) < ByHeight(g, order, c)
  {
    hide Height;
  }

  /** A read that the check follows goes to a lower item, or stays in its item. */
  lemma FollowedIsLower(cfg: Config, g: Graph, order: seq<Item>, c: Cell, d: Cell)
    requires WellFormed(cfg) && GraphOf(cfg, g) && OrderOk(g, order) && Complete(cfg, order)
    requires CellOk(cfg, c) && CellOk(cfg, d) && ItemDefined(cfg, ItemOf(c)) && Way(cfg, c, d)
    requires forall b <- BlindSpots(cfg) :: !Blind(cfg, b, c, d)
    ensures ByHeight(g, order, d) < ByHeight(g, order, c)
  {
    hide Mentions, OrderOk, Height, GraphOf, WellFormed, GraphOk, Way, Blind, BlindSpots, ByHeight;
    GraphIsOk(cfg, g);
    ItsGraph(cfg, g);
    if OwnRead(c, d) { OwnIsLower(g, order, c, d); }
    else if ItemOf(d).SymI? {
      SymbolReadMentions(cfg, c, d);
      MentionedIsLower(cfg, g, order, ItemOf(c), ItemOf(d).s);
      HigherItem(g, order, c, d);
    } else {
      ChoiceReadByMember(cfg, c, d);
      MemberIsHigher(g, order, ItemOf(d).c, ItemOf(c).s);
      HigherItem(g, order, c, d);
    }
  }

  lemma ItsGraph(cfg: Config, g: Graph)
    requires GraphOf(cfg, g)
    ensures g.cfg == cfg
  {
  }

  lemma ChoiceReadByMember(cfg: Config, c: Cell, d: Cell)
    requires WellFormed(cfg) && CellOk(cfg, c) && CellOk(cfg, d) && Way(cfg, c, d) && ItemOf(d).ChoiceI? && !OwnRead(c, d)
    requires forall b <- BlindSpots(cfg) :: !Blind(cfg, b, c, d)
    ensures ItemOf(c).SymI? && ItemOf(c).s in cfg.choices[ItemOf(d).c].syms
  {
    hide Mentions;
    var k := ItemOf(d).c;
    assert Outsider(cfg, k, ItemOf(c)) ==> Mode(k) in BlindSpots(cfg);
    assert d == VisC(ChoiceI(k)) ==> Blind(cfg, Mode(k), c, d);
  }

  lemma ReadsAreOk(cfg: Config, c: Cell, d: Cell)
    requires WellFormed(cfg) && CellOk(cfg, c) && d in MayRead(cfg, c)
    ensures CellOk(cfg, d) && ItemDefined(cfg, ItemOf(c)) && Way(cfg, c, d)
  {
    if !ItemDefined(cfg, ItemOf(c)) { UndefinedReadsNothing(cfg, c); }
    if ItemOf(c).ChoiceI? { ChoiceWays(cfg, c); } else { SymbolWays(cfg, c); }
    DependsOnExists(cfg, ItemOf(c));
    hide MayRead, DepExprs;
    assert Mentions(cfg, ItemOf(c)) <= DependsOn(cfg, ItemOf(c));
    assert FromExpr(d) && ItemOf(d) in Mentions(cfg, ItemOf(c)) ==> ItemOk(cfg, ItemOf(d));
    if ItemOf(c).SymI? { assert SymbolOk(cfg, cfg.syms[ItemOf(c).s]); }
    if c.SelC? && d.VisC? && d.i.SymI? { SelectionReadsOk(cfg, c.c, d); }
  }

  lemma SelectionReadsOk(cfg: Config, k: nat, d: Cell)
    requires WellFormed(cfg) && k < |cfg.choices| && d in MayRead(cfg, SelC(k)) && d.VisC? && d.i.SymI?
    ensures CellOk(cfg, d)
  {
    assert ChoiceOk(cfg, cfg.choices[k]);
    CondsRecorded(cfg, cfg.choices[k].defaults);
    MembersExist(cfg, k);
  }

  // ---- the ranking ----

  /** How many blind spots a cell comes after. */
  ghost function Level(early: map<BlindSpot, set<Cell>>, c: Cell): nat { |set b | b in early && c !in early[b]| }

  ghost predicate AllEarly(cfg: Config, early: map<BlindSpot, set<Cell>>)
    requires WellFormed(cfg)
  {
    early.Keys == BlindSpots(cfg) && forall b | b in early :: Early(cfg, b, early[b])
  }

  lemma LevelFalls(cfg: Config, early: map<BlindSpot, set<Cell>>, c: Cell, d: Cell)
    requires WellFormed(cfg) && CellOk(cfg, c) && d in MayRead(cfg, c) && AllEarly(cfg, early)
    ensures Level(early, d) <= Level(early, c)
    ensures (exists b <- BlindSpots(cfg) :: Blind(cfg, b, c, d)) ==> Level(early, d) < Level(early, c)
  {
    hide MayRead, Blind, BlindSpots;
    var after, before := set b | b in early && c !in early[b], set b | b in early && d !in early[b];
    forall b | b in before ensures b in after { assert Early(cfg, b, early[b]); }
    SubsetSize(before, after);
    if b :| b in BlindSpots(cfg) && Blind(cfg, b, c, d) {
      assert Early(cfg, b, early[b]);
      assert b in after && b !in before;
      SubsetSize(before, after - {b});
    }
  }

  ghost function LayerRank(g: Graph, order: seq<Item>, early: map<BlindSpot, set<Cell>>): Rank {
    (c: Cell) => Mixed(Level(early, c), ByHeight(g, order, c), 8 * |order| + 15)
  }

  /** First by a, then by x. */
  ghost function Mixed(a: nat, x: nat, k: nat): nat { a * k + x }

  lemma Lexicographic(a: nat, b: nat, x: nat, y: nat, k: nat)
    requires x < k && y < k && (a < b || (a == b && x < y))
    ensures Mixed(a, x, k) < Mixed(b, y, k)
  {
    if a < b { assert (a + 1) * k <= b * k; }
  }

  lemma ReadIsBelow(cfg: Config, g: Graph, order: seq<Item>, early: map<BlindSpot, set<Cell>>, c: Cell, d: Cell)
    requires WellFormed(cfg) && GraphOf(cfg, g) && OrderOk(g, order) && Complete(cfg, order) && AllEarly(cfg, early)
    requires CellOk(cfg, c) && d in MayRead(cfg, c)
    ensures CellOk(cfg, d) && LayerRank(g, order, early)(d) < LayerRank(g, order, early)(c)
  {
    hide MayRead, Way, GraphOf, OrderOk, WellFormed, Height, Level, AllEarly, Blind, BlindSpots, Complete;
    ReadsAreOk(cfg, c, d);
    LevelFalls(cfg, early, c, d);
    HeightBounds(g, order, ItemOf(c));
    HeightBounds(g, order, ItemOf(d));
    if forall b <- BlindSpots(cfg) :: !Blind(cfg, b, c, d) { FollowedIsLower(cfg, g, order, c, d); }
    Lexicographic(Level(early, d), Level(early, c), ByHeight(g, order, d), ByHeight(g, order, c), 8 * |order| + 15);
  }

  lemma ClearIsRanked(cfg: Config, g: Graph, order: seq<Item>, early: map<BlindSpot, set<Cell>>)
    requires WellFormed(cfg) && GraphOf(cfg, g) && OrderOk(g, order) && Complete(cfg, order) && AllEarly(cfg, early)
    ensures Ranked(cfg, LayerRank(g, order, early))
  {
    hide MayRead, GraphOf, OrderOk, WellFormed, LayerRank, AllEarly, Complete;
    var rank := LayerRank(g, order, early);
    forall c | CellOk(cfg, c) ensures ReadsBelow(cfg, rank, c) {
      forall d <- MayRead(cfg, c) ensures CellOk(cfg, d) && rank(d) < rank(c) { ReadIsBelow(cfg, g, order, early, c, d); }
    }
  }

  lemma ChooseEarly(cfg: Config) returns (early: map<BlindSpot, set<Cell>>)
    requires WellFormed(cfg) && forall b <- BlindSpots(cfg) :: Clear(cfg, b)
    ensures AllEarly(cfg, early)
  {
    hide BlindSpots, Early;
    early := map b | b in BlindSpots(cfg) :: var e :| Early(cfg, b, e); e;
  }

  /** For a configuration that the loop check accepts, evaluation is well founded if and
      only if its blind spots are clear. */
  lemma RankableIffClear(cfg: Config, g: Graph, order: seq<Item>)
    requires WellFormed(cfg) && GraphOf(cfg, g) && OrderOk(g, order) && Complete(cfg, order)
    ensures Rankable(cfg) <==> forall b <- BlindSpots(cfg) :: Clear(cfg, b)
  {
    hide GraphOf, OrderOk, Complete, WellFormed, BlindSpots, Ranked, Clear;
    if Rankable(cfg) {
      var rank :| Ranked(cfg, rank);
      forall b <- BlindSpots(cfg) ensures Clear(cfg, b) { RankedIsClear(cfg, rank, b); }
    }
    if forall b <- BlindSpots(cfg) :: Clear(cfg, b) {
      var early := ChooseEarly(cfg);
      ClearIsRanked(cfg, g, order, early);
    }
  }

  // ---- the checks made after parsing ----

  /** unique_defined_syms */
  function DefinedSymbols(cfg: Config, n: nat): (defined: seq<nat>)
    requires n <= |cfg.syms|
    ensures forall s :: s in defined <==> 0 <= s < n && cfg.syms[s].defined
  {
    if n == 0 then [] else DefinedSymbols(cfg, n - 1) + if cfg.syms[n - 1].defined then [n - 1] else []
  }

  lemma OnceMore(list: seq<Item>, i: Item)
    requires Once(list) && i !in list
    ensures Once(list + [i])
  {
    assert forall j | 0 <= j < |list| :: list[j] in list;
  }

  /** The elements of a set, in whatever order they come. */
  method Listed(items: set<Item>) returns (list: seq<Item>)
    ensures (forall i :: i in list <==> i in items) && Once(list)
  {
    list := [];
    var todo := items;
    while todo != {}
      invariant todo <= items && forall i :: i in list <==> i in items - todo
      invariant Once(list)
    {
      var i :| i in todo;
      OnceMore(list, i);
      todo, list := todo - {i}, list + [i];
    }
  }

  /** The graph of the _dependents sets. */
  method ListDependents(cfg: Config, dependents: Dependents) returns (g: Graph)
    requires WellFormed(cfg) && BuiltFor(cfg, dependents, AllItems(cfg))
    ensures GraphOf(cfg, g)
  {
    hide DepExprs, WellFormed;
    var lists: map<Item, seq<Item>> := map[];
    var todo := dependents.Keys;
    while todo != {}
      invariant todo <= dependents.Keys && lists.Keys == dependents.Keys - todo
      invariant forall i | i in lists :: Once(lists[i])
      invariant forall i, j {:trigger j in lists[i]} | i in lists :: j in lists[i] <==> j in dependents[i]
    {
      var i :| i in todo;
      var list := Listed(dependents[i]);
      lists, todo := lists[i := list], todo - {i};
    }
    g := Graph(cfg, lists);
  }

  lemma DefinedAreAll(cfg: Config, g: Graph)
    requires WellFormed(cfg) && GraphOf(cfg, g)
    ensures GraphOk(g) && var defined := DefinedSymbols(cfg, |cfg.syms|); AllKnown(g, defined) && AllDefined(g, defined)
  {
    GraphIsOk(cfg, g);
    hide GraphOk;
    forall c, m | 0 <= c < |cfg.choices| && m in cfg.choices[c].syms ensures m < |cfg.syms| && cfg.syms[m].defined {
      assert ChoiceOk(cfg, cfg.choices[c]);
    }
  }

  /** The configuration is accepted by the loop check. */
  ghost predicate Accepted(cfg: Config, g: Graph)
    requires WellFormed(cfg) && GraphOf(cfg, g)
  {
    DefinedAreAll(cfg, g);
    Checked(g, DefinedSymbols(cfg, |cfg.syms|)).0.NoLoop?
  }

  lemma AcceptedIsComplete(cfg: Config, g: Graph) returns (order: seq<Item>)
    requires WellFormed(cfg) && GraphOf(cfg, g) && Accepted(cfg, g)
    ensures OrderOk(g, order) && Complete(cfg, order)
  {
    DefinedAreAll(cfg, g);
    AcceptedIsOrdered(g, DefinedSymbols(cfg, |cfg.syms|));
    order := Checked(g, DefinedSymbols(cfg, |cfg.syms|)).1.order;
  }

  /** What parsing ends with: build the dependency sets, then look for loops from every
      defined symbol. */
  method CheckConfig(cfg: Config) returns (r: Outcome, ghost g: Graph)
    requires WellFormed(cfg)
    ensures GraphOf(cfg, g) && GraphOk(g) && (r.NoLoop? <==> Accepted(cfg, g))
    ensures r.NoLoop? || (r.Raised? && exists es :: Circle(g, es) && r.loop == Report(es))
    ensures r.NoLoop? ==> forall es :: !DownCircle(g, es)
    ensures r.NoLoop? ==> (Rankable(cfg) <==> forall b <- BlindSpots(cfg) :: Clear(cfg, b))
  {
    hide BuiltFor, GraphOf, WellFormed, Rankable, GraphOk, AllDefined, Circle, DownCircle, Clear, BlindSpots, OrderOk,
         Complete, Checked;
    var dependents := BuildDep(cfg);
    var graph := ListDependents(cfg, dependents);
    g := graph;
    DefinedAreAll(cfg, g);
    ghost var order;
    r, order := CheckAll(graph, DefinedSymbols(cfg, |cfg.syms|));
    if r.NoLoop? {
      order := AcceptedIsComplete(cfg, g);
      RankableIffClear(cfg, g, order);
    }
  }

  lemma OnlySymbols(g: Graph, es: seq<Entry>, k: nat)
    requires GraphOk(g) && g.cfg.choices == [] && Walk(g, es) && k < |es|
    ensures es[k].AsSym?
  {
    assert Linked(g, Target(es[k]));
  }

  /** Without choices the loop check is exact: it accepts if and only if there is no loop. */
  lemma ExactWithoutChoices(cfg: Config, g: Graph)
    requires WellFormed(cfg) && GraphOf(cfg, g) && cfg.choices == []
    ensures GraphOk(g) && (Accepted(cfg, g) <==> forall es :: !Circle(g, es))
  {
    DefinedAreAll(cfg, g);
    hide GraphOf, GraphOk, AllDefined, Checked;
    var defined := DefinedSymbols(cfg, |cfg.syms|);
    RaisedIsCircle(g, defined);
    if Accepted(cfg, g) {
      forall es ensures !Circle(g, es) {
        DownCirclesAreFound(g, defined, es);
        if Circle(g, es) { CircleIsDown(g, es); }
      }
    }
  }

  lemma CircleIsDown(g: Graph, es: seq<Entry>)
    requires GraphOk(g) && g.cfg.choices == [] && Circle(g, es)
    ensures DownCircle(g, es)
  {
    forall k | 0 <= k < |es| ensures es[k].AsSym? { OnlySymbols(g, es, k); }
  }
}
