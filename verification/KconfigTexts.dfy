/** What the string values of a configuration mean, and which symbols are written. */
module KconfigTexts {
  import opened Basics
  import opened KconfigModel
  import opened KconfigFresh
  import opened KconfigLaws

  // ---- ranges ----

  /** Range i is the first whose condition is not n. */
  ghost predicate FirstRange(cfg: Config, rank: Rank, u: User, gs: seq<Range>, i: nat)
    requires WellFormed(cfg) && RangesOk(cfg, gs)
  {
    i < |gs| && Val(cfg, rank, u, gs[i].cond) != 0 && NoRange(cfg, rank, u, gs, i)
  }

  ghost predicate NoRange(cfg: Config, rank: Rank, u: User, gs: seq<Range>, n: nat)
    requires WellFormed(cfg) && RangesOk(cfg, gs) && n <= |gs|
  {
    forall i | 0 <= i < n :: Val(cfg, rank, u, gs[i].cond) == 0
  }

  ghost predicate RangeIs(cfg: Config, rank: Rank, u: User, gs: seq<Range>, base: nat, g: Option<(int, int)>)
    requires WellFormed(cfg) && RangesOk(cfg, gs)
  {
    || (g == None && NoRange(cfg, rank, u, gs, |gs|))
    || exists i: nat ::
         && FirstRange(cfg, rank, u, gs, i)
         && g == Some((NumOr0(cfg, Text(gs[i].low, FreshEnv(cfg, rank, u)), base), NumOr0(cfg, Text(gs[i].high, FreshEnv(cfg, rank, u)), base)))
  }

  lemma {:induction false} RangeMeans(cfg: Config, rank: Rank, u: User, gs: seq<Range>, base: nat, n: nat)
    requires WellFormed(cfg) && RangesOk(cfg, gs) && n <= |gs| && NoRange(cfg, rank, u, gs, n)
    ensures RangeIs(cfg, rank, u, gs, base, ActiveRange(cfg, u, gs[n..], base, FreshEnv(cfg, rank, u)).v)
    decreases |gs| - n
  {
    hide WellFormed, Fresh, EvalE, ExprOk, AtomOk, NumOr0, Text, AtomStr;
    if n < |gs| {
      assert gs[n..][0] == gs[n] && gs[n..][1..] == gs[n + 1..];
      AtomText(gs[n].low, FreshEnv(cfg, rank, u));
      AtomText(gs[n].high, FreshEnv(cfg, rank, u));
      if Val(cfg, rank, u, gs[n].cond) != 0 { assert FirstRange(cfg, rank, u, gs, n); } else { RangeMeans(cfg, rank, u, gs, base, n + 1); }
    }
  }

  lemma AtomText(a: Atom, env: Env)
    ensures AtomStr(a, env).v == Text(a, env)
  {
  }

  // ---- defaults ----

  /** t is the text of the first default that applies. */
  ghost predicate TextIs(cfg: Config, rank: Rank, u: User, ds: seq<Default>, t: Option<string>)
    requires WellFormed(cfg) && StrDefaultsOk(cfg, ds)
  {
    || (t == None && NoDefault(cfg, rank, u, ds))
    || exists i: nat :: FirstDefault(cfg, rank, u, ds, i) && t == Some(Text(ds[i].value.a, FreshEnv(cfg, rank, u)))
  }

  function OrEmpty(t: Option<string>): string { if t.Some? then t.value else "" }

  lemma {:induction false} TextMeans(cfg: Config, rank: Rank, u: User, ds: seq<Default>)
    requires WellFormed(cfg) && StrDefaultsOk(cfg, ds)
    ensures TextIs(cfg, rank, u, ds, StrDefault(cfg, u, ds, FreshEnv(cfg, rank, u)).v)
  {
    hide WellFormed, ExprOk, EvalE, Fresh, NoDefault, FirstDefault, Text, AtomStr;
    if ds == [] { NoneApplies(cfg, rank, u); }
    else if Val(cfg, rank, u, ds[0].cond) == 0 {
      TextMeans(cfg, rank, u, ds[1..]);
      LaterDefault(cfg, rank, u, ds);
      LaterText(cfg, rank, u, ds, StrDefault(cfg, u, ds[1..], FreshEnv(cfg, rank, u)).v);
    } else {
      FirstApplies(cfg, rank, u, ds);
      AtomText(ds[0].value.a, FreshEnv(cfg, rank, u));
      assert FirstDefault(cfg, rank, u, ds, 0);
    }
  }

  lemma LaterText(cfg: Config, rank: Rank, u: User, ds: seq<Default>, t: Option<string>)
    requires WellFormed(cfg) && StrDefaultsOk(cfg, ds) && ds != [] && Val(cfg, rank, u, ds[0].cond) == 0
    requires TextIs(cfg, rank, u, ds[1..], t)
    ensures TextIs(cfg, rank, u, ds, t)
  {
    hide WellFormed, ExprOk, Val, NoDefault, Text, Fresh;
    LaterDefault(cfg, rank, u, ds);
    if !(t == None && NoDefault(cfg, rank, u, ds[1..])) {
      var i: nat :| i < |ds[1..]| && FirstDefault(cfg, rank, u, ds[1..], i) && t == Some(Text(ds[1..][i].value.a, FreshEnv(cfg, rank, u)));
      assert FirstDefault(cfg, rank, u, ds, i + 1);
    }
  }

  // ---- str_value ----

  ghost predicate Within(n: int, g: Option<(int, int)>) { g.Some? ==> g.value.0 <= n <= g.value.1 }

  /** The user's number counts: it is there, and in the range. */
  ghost predicate NumberCounts(cfg: Config, rank: Rank, u: User, s: nat, base: nat, g: Option<(int, int)>)
    requires WellFormed(cfg)
  {
    UserCounts(cfg, rank, u, s) && u.value[s].UserStr? && u.value[s].str != "" && Within(NumOr0(cfg, u.value[s].str, base), g)
  }

  /** v is the text where its number is within the range, else the nearer end of the range. */
  ghost predicate Nearest(cfg: Config, text: string, base: nat, g: Option<(int, int)>, v: string) {
    var n := NumOr0(cfg, text, base);
    if Within(n, g) then v == text else v == cfg.show(if n < g.value.0 then g.value.0 else g.value.1, base == 16)
  }

  ghost predicate NumberIs(cfg: Config, rank: Rank, u: User, s: nat, base: nat, g: Option<(int, int)>, v: string)
    requires WellFormed(cfg) && s < |cfg.syms| && StrDefaultsOk(cfg, cfg.syms[s].defaults)
  {
    if NumberCounts(cfg, rank, u, s, base, g) then v == u.value[s].str
    else exists t: Option<string> :: TextIs(cfg, rank, u, cfg.syms[s].defaults, t) && Nearest(cfg, OrEmpty(t), base, g, v)
  }

  /** The string value: of a bool or tristate symbol its tristate value, of an undefined one
      its name, of a string symbol the user's text or else a default's, and of a number the
      user's text if it is in the range, else a default's, brought into the range. */
  ghost predicate StrIs(cfg: Config, rank: Rank, u: User, s: nat, v: string)
    requires WellFormed(cfg) && s < |cfg.syms| && SymbolOk(cfg, cfg.syms[s])
  {
    var sym := cfg.syms[s];
    match sym.origType
    case UNKNOWN => v == sym.name
    case BOOL => v == ["n", "m", "y"][TriOf(cfg, rank, u, s)]
    case TRISTATE => v == ["n", "m", "y"][TriOf(cfg, rank, u, s)]
    case STRING =>
      if UserCounts(cfg, rank, u, s) then v == if u.value[s].UserStr? then u.value[s].str else ""
      else exists t: Option<string> :: TextIs(cfg, rank, u, sym.defaults, t) && v == OrEmpty(t)
    case INT => exists g :: RangeIs(cfg, rank, u, sym.ranges, 10, g) && NumberIs(cfg, rank, u, s, 10, g, v)
    case HEX => exists g :: RangeIs(cfg, rank, u, sym.ranges, 16, g) && NumberIs(cfg, rank, u, s, 16, g, v)
  }

  lemma NumberMeans(cfg: Config, rank: Rank, u: User, s: nat)
    requires WellFormed(cfg) && s < |cfg.syms| && IsIntHex(cfg.syms[s].origType) && SymbolOk(cfg, cfg.syms[s])
    ensures var base := if cfg.syms[s].origType == HEX then 16 else 10;
            var g := ActiveRange(cfg, u, cfg.syms[s].ranges, base, FreshEnv(cfg, rank, u)).v;
            && RangeIs(cfg, rank, u, cfg.syms[s].ranges, base, g)
            && NumberIs(cfg, rank, u, s, base, g, NumberBody(cfg, u, s, VisOf(cfg, rank, u, SymI(s)), FreshEnv(cfg, rank, u)).v)
  {
    hide WellFormed, Fresh, EvalE, ExprOk, AtomOk, ActiveRange, StrDefault, TextIs, RangeIs, NumOr0;
    var base := if cfg.syms[s].origType == HEX then 16 else 10;
    NothingBefore(cfg, rank, u, cfg.syms[s].ranges);
    RangeMeans(cfg, rank, u, cfg.syms[s].ranges, base, 0);
    assert cfg.syms[s].ranges[0..] == cfg.syms[s].ranges;
    TextMeans(cfg, rank, u, cfg.syms[s].defaults);
    var d := StrDefault(cfg, u, cfg.syms[s].defaults, FreshEnv(cfg, rank, u)).v;
    assert TextIs(cfg, rank, u, cfg.syms[s].defaults, d);
  }

  lemma NothingBefore(cfg: Config, rank: Rank, u: User, gs: seq<Range>)
    requires WellFormed(cfg) && RangesOk(cfg, gs)
    ensures NoRange(cfg, rank, u, gs, 0)
  {
  }

  lemma StrMeans(cfg: Config, rank: Rank, u: User, s: nat)
    requires Sound(cfg, rank, u) && s < |cfg.syms|
    ensures SymbolOk(cfg, cfg.syms[s]) && StrIs(cfg, rank, u, s, StrOf(cfg, rank, u, s))
  {
    hide Ranked, Fresh, NumberBody, StrDefault, TextIs, RangeIs, NumberIs, ExprOk, AtomOk, RangesOk, DefaultsOk;
    WellFormedSym(cfg, s);
    FreshSolves(cfg, rank, u, StrC(s));
    var sym := cfg.syms[s];
    if IsIntHex(sym.origType) { NumberMeans(cfg, rank, u, s); }
    else if sym.origType == STRING {
      TextMeans(cfg, rank, u, sym.defaults);
      var d := StrDefault(cfg, u, sym.defaults, FreshEnv(cfg, rank, u)).v;
      assert TextIs(cfg, rank, u, sym.defaults, d);
    }
  }

  /** What is shown reads back. */
  ghost predicate ReadsBack(cfg: Config, n: int, base: nat) { cfg.num(cfg.show(n, base == 16), base) == Some(n) }

  lemma RangeIsOne(cfg: Config, rank: Rank, u: User, gs: seq<Range>, base: nat, i: nat, g: Option<(int, int)>)
    requires WellFormed(cfg) && RangesOk(cfg, gs) && FirstRange(cfg, rank, u, gs, i) && RangeIs(cfg, rank, u, gs, base, g)
    ensures g == Some((NumOr0(cfg, Text(gs[i].low, FreshEnv(cfg, rank, u)), base), NumOr0(cfg, Text(gs[i].high, FreshEnv(cfg, rank, u)), base)))
  {
    hide WellFormed, Fresh, NumOr0, Text, Val, ExprOk, AtomOk;
  }

  lemma NearestIsWithin(cfg: Config, text: string, base: nat, g: Option<(int, int)>, v: string)
    requires Nearest(cfg, text, base, g, v)
    requires g.Some? ==> g.value.0 <= g.value.1 && ReadsBack(cfg, g.value.0, base) && ReadsBack(cfg, g.value.1, base)
    ensures Within(NumOr0(cfg, v, base), g)
  {
  }

  /** Whatever the user, the defaults and other symbols say, a number is within its range. */
  lemma NumbersAreInRange(cfg: Config, rank: Rank, u: User, s: nat, i: nat)
    requires Sound(cfg, rank, u) && s < |cfg.syms| && IsIntHex(cfg.syms[s].origType) && SymbolOk(cfg, cfg.syms[s])
    requires FirstRange(cfg, rank, u, cfg.syms[s].ranges, i)
    ensures var base := if cfg.syms[s].origType == HEX then 16 else 10;
            var low := NumOr0(cfg, Text(cfg.syms[s].ranges[i].low, FreshEnv(cfg, rank, u)), base);
            var high := NumOr0(cfg, Text(cfg.syms[s].ranges[i].high, FreshEnv(cfg, rank, u)), base);
            low <= high && ReadsBack(cfg, low, base) && ReadsBack(cfg, high, base) ==>
              low <= NumOr0(cfg, StrOf(cfg, rank, u, s), base) <= high
  {
    hide WellFormed, Ranked, Fresh, RangeIs, TextIs, VisOf, NumOr0, Text, ExprOk, AtomOk, Val, FirstRange, Nearest, ReadsBack, NumberCounts;
    StrMeans(cfg, rank, u, s);
    var base := if cfg.syms[s].origType == HEX then 16 else 10;
    var v := StrOf(cfg, rank, u, s);
    var g :| RangeIs(cfg, rank, u, cfg.syms[s].ranges, base, g) && NumberIs(cfg, rank, u, s, base, g, v);
    RangeIsOne(cfg, rank, u, cfg.syms[s].ranges, base, i, g);
    if NumberCounts(cfg, rank, u, s, base, g) {
      CountsWithin(cfg, rank, u, s, base, g);
    } else if g.value.0 <= g.value.1 && ReadsBack(cfg, g.value.0, base) && ReadsBack(cfg, g.value.1, base) {
      var t: Option<string> :| TextIs(cfg, rank, u, cfg.syms[s].defaults, t) && Nearest(cfg, OrEmpty(t), base, g, v);
      NearestIsWithin(cfg, OrEmpty(t), base, g, v);
    }
  }

  lemma CountsWithin(cfg: Config, rank: Rank, u: User, s: nat, base: nat, g: Option<(int, int)>)
    requires WellFormed(cfg) && NumberCounts(cfg, rank, u, s, base, g)
    ensures s in u.value && u.value[s].UserStr? && Within(NumOr0(cfg, u.value[s].str, base), g)
  {
  }

  // ---- what is written ----

  /** A bool or tristate symbol outside choices is written if it is visible, selected, or,
      where the user has not decided, has a default that is not n or is implied. */
  lemma TriWritten(cfg: Config, rank: Rank, u: User, s: nat)
    requires WellFormed(cfg) && s < |cfg.syms| && IsBoolTri(cfg.syms[s].origType) && cfg.syms[s].choice.None?
    ensures Body(cfg, u, TriC(s), FreshEnv(cfg, rank, u)).w <==>
            || VisOf(cfg, rank, u, SymI(s)) != 0 || Val(cfg, rank, u, cfg.syms[s].revDep) != 0
            || ImpliedTri(cfg, rank, u, s) != 0
            || exists d: Tri :: d != 0 && DefaultIs(cfg, rank, u, cfg.syms[s].defaults, d)
  {
    hide Fresh, EvalE, TriDefault, DefaultIs, ExprOk, AtomOk, SymType;
    WellFormedSym(cfg, s);
    TriDefaultMeans(cfg, rank, u, cfg.syms[s].defaults);
    var d := TriDefault(cfg, u, cfg.syms[s].defaults, FreshEnv(cfg, rank, u)).v;
    assert d == 0 || DefaultIs(cfg, rank, u, cfg.syms[s].defaults, d);
    forall e: Tri | DefaultIs(cfg, rank, u, cfg.syms[s].defaults, e) ensures e == d { DefaultIsOne(cfg, rank, u, cfg.syms[s].defaults, d, e); }
  }

  lemma DefaultIsOne(cfg: Config, rank: Rank, u: User, ds: seq<Default>, d: Tri, e: Tri)
    requires WellFormed(cfg) && DefaultsOk(cfg, ds) && DefaultIs(cfg, rank, u, ds, d) && DefaultIs(cfg, rank, u, ds, e)
    ensures d == e
  {
    hide WellFormed, Val, ExprOk;
  }

  /** A member of a choice is written while it is visible, a number or string while it is
      visible or has a default that counts, unless it stands for the environment. */
  lemma TextWritten(cfg: Config, rank: Rank, u: User, s: nat)
    requires WellFormed(cfg) && s < |cfg.syms| && SymbolOk(cfg, cfg.syms[s])
    ensures IsBoolTri(cfg.syms[s].origType) && cfg.syms[s].choice.Some? ==>
              (Body(cfg, u, TriC(s), FreshEnv(cfg, rank, u)).w <==> VisOf(cfg, rank, u, SymI(s)) != 0)
    ensures !IsBoolTri(cfg.syms[s].origType) && cfg.syms[s].origType != UNKNOWN ==>
              (Body(cfg, u, StrC(s), FreshEnv(cfg, rank, u)).w <==>
               !cfg.syms[s].auto && (VisOf(cfg, rank, u, SymI(s)) != 0 || !NoDefault(cfg, rank, u, cfg.syms[s].defaults)))
  {
    hide Fresh, EvalE, StrDefault, ExprOk, AtomOk, ActiveRange, NoDefault, FirstDefault, Text;
    if !IsBoolTri(cfg.syms[s].origType) && cfg.syms[s].origType != UNKNOWN {
      TextMeans(cfg, rank, u, cfg.syms[s].defaults);
      forall i: nat | FirstDefault(cfg, rank, u, cfg.syms[s].defaults, i) ensures !NoDefault(cfg, rank, u, cfg.syms[s].defaults) {
        SomeApplies(cfg, rank, u, cfg.syms[s].defaults, i);
      }
    }
  }

  lemma SomeApplies(cfg: Config, rank: Rank, u: User, ds: seq<Default>, i: nat)
    requires WellFormed(cfg) && DefaultsOk(cfg, ds) && FirstDefault(cfg, rank, u, ds, i)
    ensures !NoDefault(cfg, rank, u, ds)
  {
    hide Val;
  }
}
