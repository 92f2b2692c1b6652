/** Fresh, cache-free evaluation: well founded when the cells can be ranked, and
    determined by the cells an evaluation really asks for. */
module KconfigFresh {
  import opened KconfigModel

  // ---- an evaluation depends only on what it asked for ----

  ghost predicate SameMode(u: User, u': User, c: nat) {
    (c in u.mode <==> c in u'.mode) && (c in u.mode ==> u.mode[c] == u'.mode[c])
  }

  ghost predicate SameValue(u: User, u': User, s: nat) {
    (s in u.value <==> s in u'.value) && (s in u.value ==> u.value[s] == u'.value[s])
  }

  ghost predicate SameSelection(u: User, u': User, c: nat) {
    (c in u.selection <==> c in u'.selection) && (c in u.selection ==> u.selection[c] == u'.selection[c])
  }

  /** The two runs supply the same answers for the cells in `r`. */
  ghost predicate Agree(u: User, u': User, env: Env, env': Env, r: set<Cell>) {
    && (forall d <- r :: env(d) == env'(d))
    && (forall c: nat :: VisC(ChoiceI(c)) in r ==> SameMode(u, u', c))
  }

  /** The user's own input to the cell: it counts only while the symbol is visible. */
  ghost predicate SameOwn(cfg: Config, u: User, u': User, c: Cell, env: Env)
    requires CellOk(cfg, c)
  {
    match c
    case VisC(_) => true
    case TriC(s) =>
      !IsBoolTri(cfg.syms[s].origType) || SameValue(u, u', s) || T(env(VisC(SymI(s)))) == 0
    case StrC(s) =>
      IsBoolTri(cfg.syms[s].origType) || cfg.syms[s].origType == UNKNOWN || SameValue(u, u', s) ||
      T(env(VisC(SymI(s)))) == 0
    case SelC(k) => SameSelection(u, u', k)
  }

  lemma RelSame(cfg: Config, u: User, u': User, a: Atom, b: Atom, env: Env, env': Env)
    requires AtomOk(cfg, a) && AtomOk(cfg, b)
    requires Agree(u, u', env, env', RelComp(cfg, a, b, env).r)
    ensures RelComp(cfg, a, b, env') == RelComp(cfg, a, b, env)
  {
  }

  lemma {:induction false} EvalESame(cfg: Config, u: User, u': User, e: Expr, env: Env, env': Env)
    requires ExprOk(cfg, e)
    requires Agree(u, u', env, env', EvalE(cfg, u, e, env).r)
    ensures EvalE(cfg, u', e, env') == EvalE(cfg, u, e, env)
  {
    hide RelComp;
    match e
    case At(_) =>
    case ChoiceE(c) => assert VisC(ChoiceI(c)) in EvalE(cfg, u, e, env).r;
    case And(l, r) =>
      EvalESame(cfg, u, u', l, env, env');
      if EvalE(cfg, u, l, env).v != 0 { EvalESame(cfg, u, u', r, env, env'); }
    case Or(l, r) =>
      EvalESame(cfg, u, u', l, env, env');
      if EvalE(cfg, u, l, env).v != 2 { EvalESame(cfg, u, u', r, env, env'); }
    case Not(x) => EvalESame(cfg, u, u', x, env, env');
    case Rel(_, a, b) => RelSame(cfg, u, u', a, b, env, env');
  }

  lemma {:induction false} EvalMaxSame(cfg: Config, u: User, u': User, es: seq<Expr>, env: Env, env': Env)
    requires ExprsOk(cfg, es)
    requires Agree(u, u', env, env', EvalMax(cfg, u, es, env).r)
    ensures EvalMax(cfg, u', es, env') == EvalMax(cfg, u, es, env)
  {
    if es != [] {
      EvalMaxSame(cfg, u, u', es[..|es| - 1], env, env');
      EvalESame(cfg, u, u', es[|es| - 1], env, env');
    }
  }

  lemma {:induction false} TriDefaultSame(cfg: Config, u: User, u': User, ds: seq<Default>, env: Env, env': Env)
    requires DefaultsOk(cfg, ds)
    requires Agree(u, u', env, env', TriDefault(cfg, u, ds, env).r)
    ensures TriDefault(cfg, u', ds, env') == TriDefault(cfg, u, ds, env)
  {
    if ds != [] {
      EvalESame(cfg, u, u', ds[0].cond, env, env');
      if EvalE(cfg, u, ds[0].cond, env).v == 0 { TriDefaultSame(cfg, u, u', ds[1..], env, env'); }
      else { EvalESame(cfg, u, u', ds[0].value, env, env'); }
    }
  }

  lemma {:induction false} StrDefaultSame(cfg: Config, u: User, u': User, ds: seq<Default>, env: Env, env': Env)
    requires StrDefaultsOk(cfg, ds)
    requires Agree(u, u', env, env', StrDefault(cfg, u, ds, env).r)
    ensures StrDefault(cfg, u', ds, env') == StrDefault(cfg, u, ds, env)
  {
    if ds != [] {
      EvalESame(cfg, u, u', ds[0].cond, env, env');
      if EvalE(cfg, u, ds[0].cond, env).v == 0 { StrDefaultSame(cfg, u, u', ds[1..], env, env'); }
    }
  }

  lemma {:induction false} ActiveRangeSame(cfg: Config, u: User, u': User, gs: seq<Range>, base: nat, env: Env, env': Env)
    requires RangesOk(cfg, gs)
    requires Agree(u, u', env, env', ActiveRange(cfg, u, gs, base, env).r)
    ensures ActiveRange(cfg, u', gs, base, env') == ActiveRange(cfg, u, gs, base, env)
  {
    if gs != [] {
      EvalESame(cfg, u, u', gs[0].cond, env, env');
      if EvalE(cfg, u, gs[0].cond, env).v == 0 { ActiveRangeSame(cfg, u, u', gs[1..], base, env, env'); }
    }
  }

  lemma {:induction false} SelDefaultSame(cfg: Config, u: User, u': User, ds: seq<ChoiceDefault>, env: Env, env': Env)
    requires ChoiceDefaultsOk(cfg, ds)
    requires Agree(u, u', env, env', SelDefault(cfg, u, ds, env).r)
    ensures SelDefault(cfg, u', ds, env') == SelDefault(cfg, u, ds, env)
  {
    if ds != [] {
      EvalESame(cfg, u, u', ds[0].cond, env, env');
      var k := EvalE(cfg, u, ds[0].cond, env);
      if !(k.v != 0 && T(env(VisC(SymI(ds[0].sym)))) != 0) {
        SelDefaultSame(cfg, u, u', ds[1..], env, env');
      }
    }
  }

  lemma {:induction false} FirstVisibleSame(ss: seq<nat>, env: Env, env': Env)
    requires forall d <- FirstVisible(ss, env).r :: env(d) == env'(d)
    ensures FirstVisible(ss, env') == FirstVisible(ss, env)
  {
    if ss != [] && T(env(VisC(SymI(ss[0])))) == 0 {
      FirstVisibleSame(ss[1..], env, env');
    }
  }

  lemma SymTypeSame(cfg: Config, u: User, u': User, s: nat, env: Env, env': Env)
    requires WellFormed(cfg) && s < |cfg.syms|
    requires Agree(u, u', env, env', SymType(cfg, u, s, env).r)
    ensures SymType(cfg, u', s, env') == SymType(cfg, u, s, env)
  {
    if cfg.syms[s].origType == TRISTATE && cfg.syms[s].choice.Some? {
      EvalESame(cfg, u, u', ChoiceE(cfg.syms[s].choice.value), env, env');
    }
  }

  lemma SymVisSame(cfg: Config, u: User, u': User, s: nat, env: Env, env': Env)
    requires WellFormed(cfg) && s < |cfg.syms|
    requires Agree(u, u', env, env', SymVis(cfg, u, s, env).r)
    ensures SymVis(cfg, u', s, env') == SymVis(cfg, u, s, env)
  {
    var sym := cfg.syms[s];
    var p := EvalMax(cfg, u, sym.prompts, env);
    EvalMaxSame(cfg, u, u', sym.prompts, env, env');
    if sym.choice.Some? {
      var ch := cfg.choices[sym.choice.value];
      if (ch.origType == TRISTATE && sym.origType != TRISTATE) || (sym.origType == TRISTATE && p.v == 1) {
        EvalESame(cfg, u, u', ChoiceE(sym.choice.value), env, env');
      }
    }
    if SymType(cfg, u, s, env).r <= SymVis(cfg, u, s, env).r { SymTypeSame(cfg, u, u', s, env, env'); }
  }

  lemma ChoiceVisSame(cfg: Config, u: User, u': User, c: nat, env: Env, env': Env)
    requires WellFormed(cfg) && c < |cfg.choices|
    requires Agree(u, u', env, env', ChoiceVis(cfg, u, c, env).r)
    ensures ChoiceVis(cfg, u', c, env') == ChoiceVis(cfg, u, c, env)
  {
    EvalMaxSame(cfg, u, u', cfg.choices[c].prompts, env, env');
  }

  lemma TriBaseSame(cfg: Config, u: User, u': User, s: nat, vis: Tri, env: Env, env': Env)
    requires WellFormed(cfg) && s < |cfg.syms| && IsBoolTri(cfg.syms[s].origType)
    requires SameValue(u, u', s) || vis == 0
    requires Agree(u, u', env, env', TriBase(cfg, u, s, vis, env).r)
    ensures TriBase(cfg, u', s, vis, env') == TriBase(cfg, u, s, vis, env)
  {
    var sym := cfg.syms[s];
    if !(vis != 0 && s in u.value) {
      TriDefaultSame(cfg, u, u', sym.defaults, env, env');
      EvalESame(cfg, u, u', sym.weakRevDep, env, env');
      if EvalE(cfg, u, sym.weakRevDep, env).v != 0 { EvalESame(cfg, u, u', sym.directDep, env, env'); }
    }
  }

  lemma TriPlainSame(cfg: Config, u: User, u': User, s: nat, vis: Tri, env: Env, env': Env)
    requires WellFormed(cfg) && s < |cfg.syms| && IsBoolTri(cfg.syms[s].origType)
    requires SameValue(u, u', s) || vis == 0
    requires Agree(u, u', env, env', TriPlain(cfg, u, s, vis, env).r)
    ensures TriPlain(cfg, u', s, vis, env') == TriPlain(cfg, u, s, vis, env)
  {
    var sym := cfg.syms[s];
    TriBaseSame(cfg, u, u', s, vis, env, env');
    EvalESame(cfg, u, u', sym.revDep, env, env');
    var b, k := TriBase(cfg, u, s, vis, env), EvalE(cfg, u, sym.revDep, env);
    if k.v != 0 { EvalESame(cfg, u, u', sym.directDep, env, env'); }
    if (if k.v == 0 then b.v else Max(k.v, b.v)) == 1 {
      SymTypeSame(cfg, u, u', s, env, env');
      if SymType(cfg, u, s, env).v != BOOL { EvalESame(cfg, u, u', sym.weakRevDep, env, env'); }
    }
  }

  lemma NumberSame(cfg: Config, u: User, u': User, s: nat, vis: Tri, env: Env, env': Env)
    requires WellFormed(cfg) && s < |cfg.syms| && IsIntHex(cfg.syms[s].origType)
    requires SameValue(u, u', s) || vis == 0
    requires Agree(u, u', env, env', NumberBody(cfg, u, s, vis, env).r)
    ensures NumberBody(cfg, u', s, vis, env') == NumberBody(cfg, u, s, vis, env)
  {
    var sym := cfg.syms[s];
    var base := Base(sym.origType);
    ActiveRangeSame(cfg, u, u', sym.ranges, base, env, env');
    var g := ActiveRange(cfg, u, sym.ranges, base, env);
    if !(vis != 0 && UserNumber(cfg, u, s, base, g.v).Some?) { StrDefaultSame(cfg, u, u', sym.defaults, env, env'); }
  }

  lemma SelSame(cfg: Config, u: User, u': User, c: nat, env: Env, env': Env)
    requires WellFormed(cfg) && c < |cfg.choices|
    requires SameSelection(u, u', c)
    requires Agree(u, u', env, env', SelBody(cfg, u, c, env).r)
    ensures SelBody(cfg, u', c, env') == SelBody(cfg, u, c, env)
  {
    EvalESame(cfg, u, u', ChoiceE(c), env, env');
    if ChoiceTri(cfg, u, c, env).v == 2 {
      if !(c in u.selection && T(env(VisC(SymI(u.selection[c])))) != 0) {
        SelDefaultSame(cfg, u, u', cfg.choices[c].defaults, env, env');
        if SelDefault(cfg, u, cfg.choices[c].defaults, env).v.None? {
          FirstVisibleSame(cfg.choices[c].syms, env, env');
        }
      }
    }
  }

  /** Two evaluations of a cell that get the same answers ask the same questions
      and give the same result, though the rest of the world may differ. */
  lemma BodySame(cfg: Config, u: User, u': User, c: Cell, env: Env, env': Env)
    requires WellFormed(cfg) && CellOk(cfg, c)
    requires SameOwn(cfg, u, u', c, env)
    requires Agree(u, u', env, env', Body(cfg, u, c, env).r)
    ensures Body(cfg, u', c, env') == Body(cfg, u, c, env)
  {
    match c
    case VisC(SymI(s)) => SymVisSame(cfg, u, u', s, env, env');
    case VisC(ChoiceI(k)) => ChoiceVisSame(cfg, u, u', k, env, env');
    case TriC(s) =>
      if IsBoolTri(cfg.syms[s].origType) && cfg.syms[s].choice.None? {
        TriPlainSame(cfg, u, u', s, T(env(VisC(SymI(s)))), env, env');
      }
    case StrC(s) =>
      var sym, vis := cfg.syms[s], T(env(VisC(SymI(s))));
      if IsIntHex(sym.origType) { NumberSame(cfg, u, u', s, vis, env, env'); }
      else if sym.origType == STRING && !(vis != 0 && s in u.value) {
        StrDefaultSame(cfg, u, u', sym.defaults, env, env');
      }
    case SelC(k) => SelSame(cfg, u, u', k, env, env');
  }

  // ---- the cells a cell may ask for, whatever the values ----

  function AtomReads(a: Atom): set<Cell> { if a.SymA? then {TriC(a.s), StrC(a.s)} else {} }

  function ChoiceReads(cfg: Config, c: nat): set<Cell>
    requires c < |cfg.choices|
  {
    {VisC(ChoiceI(c))} + if cfg.choices[c].origType == TRISTATE then {TriC(cfg.modules)} else {}
  }

  function ExprReads(cfg: Config, e: Expr): set<Cell>
    requires ExprOk(cfg, e)
  {
    match e
    case At(a) => if a.SymA? then {TriC(a.s)} else {}
    case ChoiceE(c) => ChoiceReads(cfg, c)
    case And(l, r) => ExprReads(cfg, l) + ExprReads(cfg, r)
    case Or(l, r) => ExprReads(cfg, l) + ExprReads(cfg, r)
    case Not(x) => ExprReads(cfg, x)
    case Rel(_, a, b) => AtomReads(a) + AtomReads(b)
  }

  ghost function ExprsReads(cfg: Config, es: seq<Expr>): set<Cell>
    requires ExprsOk(cfg, es)
  {
    set i, d | 0 <= i < |es| && d in ExprReads(cfg, es[i]) :: d
  }

  ghost function DefaultsReads(cfg: Config, ds: seq<Default>): set<Cell>
    requires DefaultsOk(cfg, ds)
  {
    if ds == [] then {} else
    ExprReads(cfg, ds[0].value) + ExprReads(cfg, ds[0].cond) + DefaultsReads(cfg, ds[1..])
  }

  ghost function StrDefaultsReads(cfg: Config, ds: seq<Default>): set<Cell>
    requires StrDefaultsOk(cfg, ds)
  {
    if ds == [] then {} else
    AtomReads(ds[0].value.a) + ExprReads(cfg, ds[0].cond) + StrDefaultsReads(cfg, ds[1..])
  }

  ghost function RangesReads(cfg: Config, gs: seq<Range>): set<Cell>
    requires RangesOk(cfg, gs)
  {
    if gs == [] then {} else
    AtomReads(gs[0].low) + AtomReads(gs[0].high) + ExprReads(cfg, gs[0].cond) + RangesReads(cfg, gs[1..])
  }

  ghost function ChoiceDefaultsReads(cfg: Config, ds: seq<ChoiceDefault>): set<Cell>
    requires ChoiceDefaultsOk(cfg, ds)
  {
    if ds == [] then {} else
    {VisC(SymI(ds[0].sym))} + ExprReads(cfg, ds[0].cond) + ChoiceDefaultsReads(cfg, ds[1..])
  }

  function TypeReads(cfg: Config, s: nat): set<Cell>
    requires WellFormed(cfg) && s < |cfg.syms|
  {
    var sym := cfg.syms[s];
    (if sym.choice.Some? then ChoiceReads(cfg, sym.choice.value) else {}) +
    (if sym.origType == TRISTATE then {TriC(cfg.modules)} else {})
  }

  ghost function MayRead(cfg: Config, c: Cell): set<Cell>
    requires WellFormed(cfg) && CellOk(cfg, c)
  {
    match c
    case VisC(SymI(s)) => ExprsReads(cfg, cfg.syms[s].prompts) + TypeReads(cfg, s)
    case VisC(ChoiceI(k)) =>
      ExprsReads(cfg, cfg.choices[k].prompts) +
      if cfg.choices[k].origType == TRISTATE then {TriC(cfg.modules)} else {}
    case TriC(s) =>
      var sym := cfg.syms[s];
      if !IsBoolTri(sym.origType) then {}
      else if sym.choice.Some? then {VisC(SymI(s)), SelC(sym.choice.value)}
      else
        {VisC(SymI(s))} + DefaultsReads(cfg, sym.defaults) + ExprReads(cfg, sym.revDep) +
        ExprReads(cfg, sym.weakRevDep) + ExprReads(cfg, sym.directDep) + TypeReads(cfg, s)
    case StrC(s) =>
      var sym := cfg.syms[s];
      if IsBoolTri(sym.origType) then {TriC(s)}
      else if sym.origType == UNKNOWN then {}
      else {VisC(SymI(s))} + RangesReads(cfg, sym.ranges) + StrDefaultsReads(cfg, sym.defaults)
    case SelC(k) =>
      var ch := cfg.choices[k];
      ChoiceReads(cfg, k) + ChoiceDefaultsReads(cfg, ch.defaults) + set s | s in ch.syms :: VisC(SymI(s))
  }

  /** A user selection is always one of the choice's own symbols. */
  ghost predicate UserOk(cfg: Config, u: User) {
    forall c :: c in u.selection ==> c < |cfg.choices| && u.selection[c] in cfg.choices[c].syms
  }

  lemma {:induction false} ExprReadsAll(cfg: Config, u: User, e: Expr, env: Env)
    requires ExprOk(cfg, e)
    ensures EvalE(cfg, u, e, env).r <= ExprReads(cfg, e)
  {
    match e
    case And(l, r) => ExprReadsAll(cfg, u, l, env); ExprReadsAll(cfg, u, r, env);
    case Or(l, r) => ExprReadsAll(cfg, u, l, env); ExprReadsAll(cfg, u, r, env);
    case Not(x) => ExprReadsAll(cfg, u, x, env);
    case _ =>
  }

  lemma {:induction false} MaxReadsAll(cfg: Config, u: User, es: seq<Expr>, env: Env)
    requires ExprsOk(cfg, es)
    ensures EvalMax(cfg, u, es, env).r <= ExprsReads(cfg, es)
  {
    if es != [] {
      MaxReadsAll(cfg, u, es[..|es| - 1], env);
      ExprReadsAll(cfg, u, es[|es| - 1], env);
      assert forall d | d in ExprReads(cfg, es[|es| - 1]) :: d in ExprsReads(cfg, es);
    }
  }

  lemma {:induction false} TriDefaultReadsAll(cfg: Config, u: User, ds: seq<Default>, env: Env)
    requires DefaultsOk(cfg, ds)
    ensures TriDefault(cfg, u, ds, env).r <= DefaultsReads(cfg, ds)
  {
    if ds != [] {
      TriDefaultReadsAll(cfg, u, ds[1..], env);
      ExprReadsAll(cfg, u, ds[0].cond, env);
      ExprReadsAll(cfg, u, ds[0].value, env);
    }
  }

  lemma {:induction false} StrDefaultReadsAll(cfg: Config, u: User, ds: seq<Default>, env: Env)
    requires StrDefaultsOk(cfg, ds)
    ensures StrDefault(cfg, u, ds, env).r <= StrDefaultsReads(cfg, ds)
  {
    if ds != [] {
      StrDefaultReadsAll(cfg, u, ds[1..], env);
      ExprReadsAll(cfg, u, ds[0].cond, env);
    }
  }

  lemma {:induction false} ActiveRangeReadsAll(cfg: Config, u: User, gs: seq<Range>, base: nat, env: Env)
    requires RangesOk(cfg, gs)
    ensures ActiveRange(cfg, u, gs, base, env).r <= RangesReads(cfg, gs)
  {
    if gs != [] {
      ActiveRangeReadsAll(cfg, u, gs[1..], base, env);
      ExprReadsAll(cfg, u, gs[0].cond, env);
    }
  }

  lemma {:induction false} SelDefaultReadsAll(cfg: Config, u: User, ds: seq<ChoiceDefault>, env: Env)
    requires ChoiceDefaultsOk(cfg, ds)
    ensures SelDefault(cfg, u, ds, env).r <= ChoiceDefaultsReads(cfg, ds)
  {
    if ds != [] {
      SelDefaultReadsAll(cfg, u, ds[1..], env);
      ExprReadsAll(cfg, u, ds[0].cond, env);
    }
  }

  lemma {:induction false} FirstVisibleReadsAll(ss: seq<nat>, env: Env)
    ensures FirstVisible(ss, env).r <= set s | s in ss :: VisC(SymI(s))
  {
    if ss != [] {
      FirstVisibleReadsAll(ss[1..], env);
      assert forall s | s in ss[1..] :: s in ss;
    }
  }

  lemma TriReadsAll(cfg: Config, u: User, s: nat, env: Env)
    requires WellFormed(cfg) && s < |cfg.syms|
    ensures TriBody(cfg, u, s, env).r <= MayRead(cfg, TriC(s))
  {
    var sym := cfg.syms[s];
    if IsBoolTri(sym.origType) && sym.choice.None? {
      TriDefaultReadsAll(cfg, u, sym.defaults, env);
      ExprReadsAll(cfg, u, sym.revDep, env);
      ExprReadsAll(cfg, u, sym.weakRevDep, env);
      ExprReadsAll(cfg, u, sym.directDep, env);
    }
  }

  lemma StrReadsAll(cfg: Config, u: User, s: nat, env: Env)
    requires WellFormed(cfg) && s < |cfg.syms|
    ensures StrBody(cfg, u, s, env).r <= MayRead(cfg, StrC(s))
  {
    var sym := cfg.syms[s];
    if !IsBoolTri(sym.origType) {
      StrDefaultReadsAll(cfg, u, sym.defaults, env);
      ActiveRangeReadsAll(cfg, u, sym.ranges, Base(sym.origType), env);
    }
  }

  lemma SelReadsAll(cfg: Config, u: User, k: nat, env: Env)
    requires WellFormed(cfg) && k < |cfg.choices| && UserOk(cfg, u)
    ensures SelBody(cfg, u, k, env).r <= MayRead(cfg, SelC(k))
  {
    SelDefaultReadsAll(cfg, u, cfg.choices[k].defaults, env);
    FirstVisibleReadsAll(cfg.choices[k].syms, env);
  }

  /** Whatever a cell asks for is among the cells it may ask for. */
  lemma BodyReadsAll(cfg: Config, u: User, c: Cell, env: Env)
    requires WellFormed(cfg) && CellOk(cfg, c) && UserOk(cfg, u)
    ensures Body(cfg, u, c, env).r <= MayRead(cfg, c)
  {
    match c
    case VisC(SymI(s)) => MaxReadsAll(cfg, u, cfg.syms[s].prompts, env);
    case VisC(ChoiceI(k)) => MaxReadsAll(cfg, u, cfg.choices[k].prompts, env);
    case TriC(s) => TriReadsAll(cfg, u, s, env);
    case StrC(s) => StrReadsAll(cfg, u, s, env);
    case SelC(k) => SelReadsAll(cfg, u, k, env);
  }

  // ---- fresh evaluation ----

  type Rank = Cell -> nat

  ghost predicate ReadsBelow(cfg: Config, rank: Rank, c: Cell)
    requires WellFormed(cfg) && CellOk(cfg, c)
  {
    forall d <- MayRead(cfg, c) :: CellOk(cfg, d) && rank(d) < rank(c)
  }

  /** No cell can come to ask for itself: choice visibility, symbol visibility,
      choice selection and symbol value can be put in layers. */
  ghost predicate Ranked(cfg: Config, rank: Rank)
    requires WellFormed(cfg)
  {
    forall c {:trigger ReadsBelow(cfg, rank, c)} | CellOk(cfg, c) :: ReadsBelow(cfg, rank, c)
  }

  /** The value of a cell calculated from the user's input alone, with no cache. */
  ghost function Fresh(cfg: Config, rank: Rank, u: User, c: Cell): Value
    requires WellFormed(cfg)
    decreases rank(c)
  {
    if !CellOk(cfg, c) then TriV(0) else
    Body(cfg, u, c, (d: Cell) => if rank(d) < rank(c) then Fresh(cfg, rank, u, d) else TriV(0)).v
  }

  ghost function FreshEnv(cfg: Config, rank: Rank, u: User): Env
    requires WellFormed(cfg)
  {
    (d: Cell) => Fresh(cfg, rank, u, d)
  }

  /** Fresh values solve the equations of all the cells at once ... */
  lemma FreshSolves(cfg: Config, rank: Rank, u: User, c: Cell)
    requires WellFormed(cfg) && Ranked(cfg, rank) && UserOk(cfg, u) && CellOk(cfg, c)
    ensures Fresh(cfg, rank, u, c) == Body(cfg, u, c, FreshEnv(cfg, rank, u)).v
  {
    var below: Env := (d: Cell) => if rank(d) < rank(c) then Fresh(cfg, rank, u, d) else TriV(0);
    var env := FreshEnv(cfg, rank, u);
    BodyReadsAll(cfg, u, c, env);
    assert ReadsBelow(cfg, rank, c);
    assert forall d | d in Body(cfg, u, c, env).r :: env(d) == below(d);
    BodySame(cfg, u, u, c, env, below);
  }

  /** ... and nothing else does, so they do not depend on the ranking. */
  lemma {:induction false} FreshUnique(cfg: Config, rank: Rank, u: User, env: Env, c: Cell)
    requires WellFormed(cfg) && Ranked(cfg, rank) && UserOk(cfg, u) && CellOk(cfg, c)
    requires forall d | CellOk(cfg, d) :: env(d) == Body(cfg, u, d, env).v
    ensures env(c) == Fresh(cfg, rank, u, c)
    decreases rank(c)
  {
    BodyReadsAll(cfg, u, c, env);
    assert ReadsBelow(cfg, rank, c);
    forall d | d in Body(cfg, u, c, env).r ensures env(d) == Fresh(cfg, rank, u, d) {
      FreshUnique(cfg, rank, u, env, d);
    }
    BodySame(cfg, u, u, c, env, FreshEnv(cfg, rank, u));
    FreshSolves(cfg, rank, u, c);
  }
}
