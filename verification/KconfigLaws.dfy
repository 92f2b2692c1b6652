/** What the values of a configuration mean, said without the calculation: laws of the
    cache-free values, which the engine is proved to return. */
module KconfigLaws {
  import opened Basics
  import opened KconfigModel
  import opened KconfigFresh

  /** A well-formed configuration without loops, and input that fits it. */
  ghost predicate Sound(cfg: Config, rank: Rank, u: User) { WellFormed(cfg) && Ranked(cfg, rank) && UserOk(cfg, u) }

  /** The value of an expression. */
  ghost function Val(cfg: Config, rank: Rank, u: User, e: Expr): Tri
    requires WellFormed(cfg) && ExprOk(cfg, e)
  {
    EvalE(cfg, u, e, FreshEnv(cfg, rank, u)).v
  }

  ghost function TriOf(cfg: Config, rank: Rank, u: User, s: nat): Tri
    requires WellFormed(cfg)
  {
    T(Fresh(cfg, rank, u, TriC(s)))
  }

  ghost function VisOf(cfg: Config, rank: Rank, u: User, i: Item): Tri
    requires WellFormed(cfg)
  {
    T(Fresh(cfg, rank, u, VisC(i)))
  }

  ghost function StrOf(cfg: Config, rank: Rank, u: User, s: nat): string
    requires WellFormed(cfg)
  {
    S(Fresh(cfg, rank, u, StrC(s)))
  }

  ghost function SelOf(cfg: Config, rank: Rank, u: User, c: nat): Option<nat>
    requires WellFormed(cfg)
  {
    O(Fresh(cfg, rank, u, SelC(c)))
  }

  /** The mode of a choice. */
  ghost function ModeOf(cfg: Config, rank: Rank, u: User, c: nat): Tri
    requires WellFormed(cfg) && c < |cfg.choices|
  {
    Val(cfg, rank, u, ChoiceE(c))
  }

  ghost predicate Smaller(p: int, a: int, b: int) { p <= a && p <= b && (p == a || p == b) }

  ghost predicate Larger(p: int, a: int, b: int) { a <= p && b <= p && (p == a || p == b) }

  // ---- strings in order ----

  /** Before the first difference the strings agree; there the first one ends or is smaller. */
  ghost predicate Differ(a: string, b: string, k: nat) {
    k <= |a| && k < |b| && a[..k] == b[..k] && (k == |a| || a[k] < b[k])
  }

  ghost predicate Precedes(a: string, b: string) { exists k :: Differ(a, b, k) }

  lemma {:induction false} StrCmpMeans(a: string, b: string)
    ensures StrCmp(a, b) == 0 <==> a == b
    ensures StrCmp(a, b) < 0 <==> Precedes(a, b)
    ensures StrCmp(a, b) > 0 <==> Precedes(b, a)
  {
    if a == [] || b == [] || a[0] != b[0] {
      assert Differ(a, b, 0) || Differ(b, a, 0) || (a == [] && b == []);
      forall k: nat | Differ(a, b, k) ensures k == 0 { if k > 0 { HeadsAgree(a, b, k); } }
      forall k: nat | Differ(b, a, k) ensures k == 0 { if k > 0 { HeadsAgree(b, a, k); } }
    } else {
      StrCmpMeans(a[1..], b[1..]);
      TailDiffers(a, b);
      TailDiffers(b, a);
      assert a == [a[0]] + a[1..] && b == [b[0]] + b[1..];
    }
  }

  lemma HeadsAgree(a: string, b: string, k: nat)
    requires Differ(a, b, k) && k > 0
    ensures a != [] && b != [] && a[0] == b[0]
  {
    assert a[..k][0] == b[..k][0];
  }

  lemma TailDiffers(a: string, b: string)
    requires a != [] && b != [] && a[0] == b[0]
    ensures Precedes(a, b) <==> Precedes(a[1..], b[1..])
  {
    var x, y := a[1..], b[1..];
    forall k: nat | Differ(x, y, k) ensures Differ(a, b, k + 1) {
      assert a[..k + 1] == [a[0]] + x[..k] && b[..k + 1] == [b[0]] + y[..k];
    }
    forall k: nat | Differ(a, b, k) ensures k > 0 && Differ(x, y, k - 1) {
      assert a[1..k] == a[..k][1..] && b[1..k] == b[..k][1..];
      assert x[..k - 1] == a[1..k] && y[..k - 1] == b[1..k];
    }
  }

  // ---- expressions ----

  /** What an atom is as a number: n, m and y are 0, 1 and 2, a hex symbol is read in base
      16, an int symbol in base 10 and a constant in the base that it shows. */
  ghost function Number(cfg: Config, a: Atom, env: Env): Option<int>
    requires AtomOk(cfg, a)
  {
    match a
    case TriA(t) => Some(t)
    case SymA(s) =>
      match cfg.syms[s].origType
      case HEX => cfg.num(S(env(StrC(s))), 16)
      case INT => cfg.num(S(env(StrC(s))), 10)
      case BOOL => Some(T(env(TriC(s))))
      case TRISTATE => Some(T(env(TriC(s))))
      case _ => cfg.num(S(env(StrC(s))), 0)
  }

  ghost function Text(a: Atom, env: Env): string {
    match a
    case SymA(s) => S(env(StrC(s)))
    case TriA(t) => ["n", "m", "y"][t]
  }

  /** Both atoms are numbers, and not both are strings. */
  ghost predicate Numeric(cfg: Config, a: Atom, b: Atom, env: Env)
    requires AtomOk(cfg, a) && AtomOk(cfg, b)
  {
    && !(a.SymA? && b.SymA? && cfg.syms[a.s].origType == cfg.syms[b.s].origType == STRING)
    && Number(cfg, a, env).Some? && Number(cfg, b, env).Some?
  }

  ghost predicate Below(cfg: Config, a: Atom, b: Atom, env: Env)
    requires AtomOk(cfg, a) && AtomOk(cfg, b)
  {
    if Numeric(cfg, a, b, env) then Number(cfg, a, env).value < Number(cfg, b, env).value
    else Precedes(Text(a, env), Text(b, env))
  }

  ghost predicate Same(cfg: Config, a: Atom, b: Atom, env: Env)
    requires AtomOk(cfg, a) && AtomOk(cfg, b)
  {
    if Numeric(cfg, a, b, env) then Number(cfg, a, env).value == Number(cfg, b, env).value
    else Text(a, env) == Text(b, env)
  }

  ghost predicate Related(cfg: Config, rel: Relation, a: Atom, b: Atom, env: Env)
    requires AtomOk(cfg, a) && AtomOk(cfg, b)
  {
    match rel
    case EQUAL => Same(cfg, a, b, env)
    case UNEQUAL => !Same(cfg, a, b, env)
    case LESS => Below(cfg, a, b, env)
    case LESS_EQUAL => !Below(cfg, b, a, env)
    case GREATER => Below(cfg, b, a, env)
    case GREATER_EQUAL => !Below(cfg, a, b, env)
  }

  lemma RelMeans(cfg: Config, a: Atom, b: Atom, env: Env)
    requires AtomOk(cfg, a) && AtomOk(cfg, b)
    ensures var k := RelComp(cfg, a, b, env).v;
            && (k == 0 <==> Same(cfg, a, b, env)) && (k < 0 <==> Below(cfg, a, b, env)) && (k > 0 <==> Below(cfg, b, a, env))
  {
    hide StrCmp, Precedes, AtomNum, AtomStr, Number, Text;
    AtomMeans(cfg, a, env);
    AtomMeans(cfg, b, env);
    StrCmpMeans(Text(a, env), Text(b, env));
  }

  lemma AtomMeans(cfg: Config, a: Atom, env: Env)
    requires AtomOk(cfg, a)
    ensures AtomNum(cfg, a, env).v == Number(cfg, a, env) && AtomStr(a, env).v == Text(a, env)
  {
  }

  /** && is the smaller of its sides, || the larger, ! the mirror image, and a relation is y
      or n: numbers are compared as numbers, everything else as strings. */
  lemma ExprMeans(cfg: Config, u: User, e: Expr, env: Env)
    requires ExprOk(cfg, e)
    ensures var v := EvalE(cfg, u, e, env).v;
            match e
            case At(SymA(s)) => v == T(env(TriC(s)))
            case At(TriA(t)) => v == t
            case ChoiceE(c) => true
            case And(l, r) => Smaller(v, EvalE(cfg, u, l, env).v, EvalE(cfg, u, r, env).v)
            case Or(l, r) => Larger(v, EvalE(cfg, u, l, env).v, EvalE(cfg, u, r, env).v)
            case Not(x) => v + EvalE(cfg, u, x, env).v == 2
            case Rel(rel, a, b) => v == if Related(cfg, rel, a, b, env) then 2 else 0
  {
    hide Below, Same, RelComp;
    if e.Rel? { RelMeans(cfg, e.a, e.b, env); }
  }

  // ---- modes, types and visibility ----

  /** m stands for y in a choice that is not tristate, or is not while modules are off. */
  ghost predicate ChoiceIsBool(cfg: Config, rank: Rank, u: User, c: nat)
    requires WellFormed(cfg) && c < |cfg.choices|
  {
    cfg.choices[c].origType == BOOL || (cfg.choices[c].origType == TRISTATE && TriOf(cfg, rank, u, cfg.modules) == 0)
  }

  ghost predicate SymIsTristate(cfg: Config, rank: Rank, u: User, s: nat)
    requires WellFormed(cfg) && s < |cfg.syms|
  {
    && cfg.syms[s].origType == TRISTATE && TriOf(cfg, rank, u, cfg.modules) != 0
    && (cfg.syms[s].choice.Some? ==> ModeOf(cfg, rank, u, cfg.syms[s].choice.value) != 2)
  }

  /** The mode of a choice: the user's, but at least m unless the choice is optional, at
      most the visibility, and y for m where m stands for y. */
  lemma ModeMeans(cfg: Config, rank: Rank, u: User, c: nat)
    requires WellFormed(cfg) && c < |cfg.choices|
    ensures exists want: Tri, p: Tri ::
              && Larger(want, if cfg.choices[c].isOptional then 0 else 1, if c in u.mode then u.mode[c] else 0)
              && Smaller(p, want, VisOf(cfg, rank, u, ChoiceI(c)))
              && ModeOf(cfg, rank, u, c) == if p == 1 && ChoiceIsBool(cfg, rank, u, c) then 2 else p
  {
    hide WellFormed, Fresh;
    var low: Tri := if cfg.choices[c].isOptional then 0 else 1;
    var want := if c in u.mode then Max(low, u.mode[c]) else low;
    var p := Min(want, VisOf(cfg, rank, u, ChoiceI(c)));
    assert Larger(want, low, if c in u.mode then u.mode[c] else 0);
    assert Smaller(p, want, VisOf(cfg, rank, u, ChoiceI(c)));
  }

  lemma TypeMeans(cfg: Config, rank: Rank, u: User, s: nat)
    requires WellFormed(cfg) && s < |cfg.syms|
    ensures SymType(cfg, u, s, FreshEnv(cfg, rank, u)).v ==
            if cfg.syms[s].origType == TRISTATE && !SymIsTristate(cfg, rank, u, s) then BOOL else cfg.syms[s].origType
  {
    hide Fresh, ChoiceTri;
    WellFormedSym(cfg, s);
  }

  lemma WellFormedSym(cfg: Config, s: nat)
    requires WellFormed(cfg) && s < |cfg.syms|
    ensures SymbolOk(cfg, cfg.syms[s]) && cfg.modules < |cfg.syms|
    ensures cfg.syms[s].choice.Some? ==> cfg.syms[s].choice.value < |cfg.choices| && ChoiceOk(cfg, cfg.choices[cfg.syms[s].choice.value])
  {
  }

  /** p is the largest of the conditions, or n where there are none. */
  ghost predicate Largest(cfg: Config, rank: Rank, u: User, es: seq<Expr>, p: Tri)
    requires WellFormed(cfg) && ExprsOk(cfg, es)
  {
    && (forall i | 0 <= i < |es| :: Val(cfg, rank, u, es[i]) <= p)
    && (p != 0 ==> exists i | 0 <= i < |es| :: Val(cfg, rank, u, es[i]) == p)
  }

  lemma {:induction false} MaxMeans(cfg: Config, rank: Rank, u: User, es: seq<Expr>)
    requires WellFormed(cfg) && ExprsOk(cfg, es)
    ensures Largest(cfg, rank, u, es, EvalMax(cfg, u, es, FreshEnv(cfg, rank, u)).v)
  {
    hide WellFormed, ExprOk, Fresh, EvalE;
    if es != [] {
      var n := |es| - 1;
      MaxMeans(cfg, rank, u, es[..n]);
      var p := EvalMax(cfg, u, es[..n], FreshEnv(cfg, rank, u)).v;
      if p != 0 {
        var i :| 0 <= i < n && Val(cfg, rank, u, es[..n][i]) == p;
        assert Val(cfg, rank, u, es[i]) == p;
      }
      forall i | 0 <= i < n ensures Val(cfg, rank, u, es[i]) <= p { assert Val(cfg, rank, u, es[..n][i]) <= p; }
    }
  }

  /** A member of a choice is hidden where it is no tristate symbol and the choice is one not
      in y mode, or where its prompts only give it m in a choice in y mode. */
  ghost predicate Hidden(cfg: Config, rank: Rank, u: User, s: nat, p: Tri)
    requires WellFormed(cfg) && s < |cfg.syms|
  {
    && cfg.syms[s].choice.Some?
    && var mode := ModeOf(cfg, rank, u, cfg.syms[s].choice.value);
       if cfg.syms[s].origType == TRISTATE then p == 1 && mode == 2
       else cfg.choices[cfg.syms[s].choice.value].origType == TRISTATE && mode != 2
  }

  /** The visibility of a symbol is the largest condition of its prompts, with y for m unless
      the symbol is tristate now, and n for a hidden member of a choice. */
  lemma VisMeans(cfg: Config, rank: Rank, u: User, s: nat)
    requires Sound(cfg, rank, u) && s < |cfg.syms|
    ensures exists p: Tri ::
              && Largest(cfg, rank, u, cfg.syms[s].prompts, p)
              && VisOf(cfg, rank, u, SymI(s)) ==
                 if Hidden(cfg, rank, u, s, p) then 0 else if p == 1 && !SymIsTristate(cfg, rank, u, s) then 2 else p
  {
    hide WellFormed, Ranked, Fresh, Largest, EvalMax, ChoiceTri, SymType, SymIsTristate, ExprOk, AtomOk;
    WellFormedSym(cfg, s);
    FreshSolves(cfg, rank, u, VisC(SymI(s)));
    MaxMeans(cfg, rank, u, cfg.syms[s].prompts);
    TypeMeans(cfg, rank, u, s);
    IsTristate(cfg, rank, u, s);
  }

  lemma IsTristate(cfg: Config, rank: Rank, u: User, s: nat)
    requires WellFormed(cfg) && s < |cfg.syms|
    ensures SymIsTristate(cfg, rank, u, s) ==> cfg.syms[s].origType == TRISTATE
  {
  }

  lemma ChoiceVisMeans(cfg: Config, rank: Rank, u: User, c: nat)
    requires Sound(cfg, rank, u) && c < |cfg.choices|
    ensures exists p: Tri ::
              && Largest(cfg, rank, u, cfg.choices[c].prompts, p)
              && VisOf(cfg, rank, u, ChoiceI(c)) ==
                 if p == 1 && !(cfg.choices[c].origType == TRISTATE && TriOf(cfg, rank, u, cfg.modules) != 0) then 2 else p
  {
    hide Ranked, Fresh, Largest, EvalMax, ExprOk, AtomOk;
    FreshSolves(cfg, rank, u, VisC(ChoiceI(c)));
    MaxMeans(cfg, rank, u, cfg.choices[c].prompts);
  }

  /** In a choice in y mode a member is visible with y or not at all. */
  lemma MemberVisible(cfg: Config, rank: Rank, u: User, s: nat)
    requires Sound(cfg, rank, u) && s < |cfg.syms| && cfg.syms[s].choice.Some?
    requires ModeOf(cfg, rank, u, cfg.syms[s].choice.value) == 2
    ensures VisOf(cfg, rank, u, SymI(s)) != 1
  {
    hide WellFormed, Ranked, Fresh, Largest, EvalE;
    VisMeans(cfg, rank, u, s);
  }

  // ---- tri_value ----

  /** Default i is the first whose condition is not n. */
  ghost predicate FirstDefault(cfg: Config, rank: Rank, u: User, ds: seq<Default>, i: nat)
    requires WellFormed(cfg) && DefaultsOk(cfg, ds)
  {
    && i < |ds| && Val(cfg, rank, u, ds[i].cond) != 0
    && forall j | 0 <= j < i :: Val(cfg, rank, u, ds[j].cond) == 0
  }

  ghost predicate NoDefault(cfg: Config, rank: Rank, u: User, ds: seq<Default>)
    requires WellFormed(cfg) && DefaultsOk(cfg, ds)
  {
    forall j | 0 <= j < |ds| :: Val(cfg, rank, u, ds[j].cond) == 0
  }

  /** d is the value of the first default that applies, at most its condition; n without one. */
  ghost predicate DefaultIs(cfg: Config, rank: Rank, u: User, ds: seq<Default>, d: Tri)
    requires WellFormed(cfg) && DefaultsOk(cfg, ds)
  {
    || (d == 0 && NoDefault(cfg, rank, u, ds))
    || exists i: nat :: FirstDefault(cfg, rank, u, ds, i) && Smaller(d, Val(cfg, rank, u, ds[i].value), Val(cfg, rank, u, ds[i].cond))
  }

  /** A default whose condition is n in front changes nothing. */
  lemma LaterDefault(cfg: Config, rank: Rank, u: User, ds: seq<Default>)
    requires WellFormed(cfg) && DefaultsOk(cfg, ds) && ds != [] && Val(cfg, rank, u, ds[0].cond) == 0
    ensures NoDefault(cfg, rank, u, ds[1..]) ==> NoDefault(cfg, rank, u, ds)
    ensures forall i: nat {:trigger FirstDefault(cfg, rank, u, ds[1..], i)} ::
              FirstDefault(cfg, rank, u, ds[1..], i) ==> FirstDefault(cfg, rank, u, ds, i + 1) && ds[i + 1] == ds[1..][i]
  {
    hide WellFormed, ExprOk, Val;
    var es := ds[1..];
    assert forall j {:trigger ds[j]} | 0 < j < |ds| :: ds[j] == es[j - 1];
  }

  lemma LaterDefaultIs(cfg: Config, rank: Rank, u: User, ds: seq<Default>, d: Tri)
    requires WellFormed(cfg) && DefaultsOk(cfg, ds) && ds != [] && Val(cfg, rank, u, ds[0].cond) == 0
    requires DefaultIs(cfg, rank, u, ds[1..], d)
    ensures DefaultIs(cfg, rank, u, ds, d)
  {
    hide WellFormed, ExprOk, Val, NoDefault;
    LaterDefault(cfg, rank, u, ds);
    if !(d == 0 && NoDefault(cfg, rank, u, ds[1..])) {
      var i: nat :| i < |ds[1..]| && FirstDefault(cfg, rank, u, ds[1..], i) &&
                    Smaller(d, Val(cfg, rank, u, ds[1..][i].value), Val(cfg, rank, u, ds[1..][i].cond));
      assert FirstDefault(cfg, rank, u, ds, i + 1);
    }
  }

  lemma {:induction false} TriDefaultMeans(cfg: Config, rank: Rank, u: User, ds: seq<Default>)
    requires WellFormed(cfg) && DefaultsOk(cfg, ds)
    ensures DefaultIs(cfg, rank, u, ds, TriDefault(cfg, u, ds, FreshEnv(cfg, rank, u)).v)
    ensures var d := TriDefault(cfg, u, ds, FreshEnv(cfg, rank, u)); d.w <==> d.v != 0
  {
    hide WellFormed, ExprOk, EvalE, NoDefault, FirstDefault, Fresh;
    if ds == [] { NoneApplies(cfg, rank, u); }
    else if Val(cfg, rank, u, ds[0].cond) == 0 {
      TriDefaultMeans(cfg, rank, u, ds[1..]);
      LaterDefaultIs(cfg, rank, u, ds, TriDefault(cfg, u, ds[1..], FreshEnv(cfg, rank, u)).v);
    } else {
      FirstApplies(cfg, rank, u, ds);
      assert FirstDefault(cfg, rank, u, ds, 0);
    }
  }

  lemma NoneApplies(cfg: Config, rank: Rank, u: User)
    requires WellFormed(cfg)
    ensures NoDefault(cfg, rank, u, [])
  {
  }

  lemma FirstApplies(cfg: Config, rank: Rank, u: User, ds: seq<Default>)
    requires WellFormed(cfg) && DefaultsOk(cfg, ds) && ds != [] && Val(cfg, rank, u, ds[0].cond) != 0
    ensures FirstDefault(cfg, rank, u, ds, 0)
  {
    hide Val;
  }

  /** The user's value counts: there is one, and the symbol is visible. */
  ghost predicate UserCounts(cfg: Config, rank: Rank, u: User, s: nat)
    requires WellFormed(cfg)
  {
    s in u.value && VisOf(cfg, rank, u, SymI(s)) != 0
  }

  ghost function UserTriOf(u: User, s: nat): Tri
    requires s in u.value
  {
    if u.value[s].UserTri? then u.value[s].t else 0
  }

  /** b is what the symbol itself asks for: the user's value, at most the visibility, or else
      a default. */
  ghost predicate OwnValue(cfg: Config, rank: Rank, u: User, s: nat, b: Tri)
    requires WellFormed(cfg) && s < |cfg.syms| && IsBoolTri(cfg.syms[s].origType)
  {
    if UserCounts(cfg, rank, u, s) then Smaller(b, UserTriOf(u, s), VisOf(cfg, rank, u, SymI(s)))
    else DefaultIs(cfg, rank, u, cfg.syms[s].defaults, b)
  }

  /** What other symbols imply, where the symbol's dependencies are met and the user has not
      decided. */
  ghost function ImpliedTri(cfg: Config, rank: Rank, u: User, s: nat): Tri
    requires WellFormed(cfg) && s < |cfg.syms|
  {
    if UserCounts(cfg, rank, u, s) || Val(cfg, rank, u, cfg.syms[s].directDep) == 0 then 0
    else Val(cfg, rank, u, cfg.syms[s].weakRevDep)
  }

  /** m stands for y. */
  ghost predicate Promotes(cfg: Config, rank: Rank, u: User, s: nat)
    requires WellFormed(cfg) && s < |cfg.syms|
  {
    !SymIsTristate(cfg, rank, u, s) || Val(cfg, rank, u, cfg.syms[s].weakRevDep) == 2
  }

  /** A bool or tristate symbol outside choices has the largest of three values: its own,
      what is implied and what is selected, and y for m where m stands for y. */
  ghost predicate TriIs(cfg: Config, rank: Rank, u: User, s: nat, v: Tri)
    requires WellFormed(cfg) && s < |cfg.syms| && IsBoolTri(cfg.syms[s].origType)
  {
    exists b: Tri, q: Tri, p: Tri ::
      && OwnValue(cfg, rank, u, s, b) && Larger(q, b, ImpliedTri(cfg, rank, u, s))
      && Larger(p, q, Val(cfg, rank, u, cfg.syms[s].revDep))
      && v == if p == 1 && Promotes(cfg, rank, u, s) then 2 else p
  }

  lemma BaseMeans(cfg: Config, rank: Rank, u: User, s: nat)
    requires WellFormed(cfg) && s < |cfg.syms| && IsBoolTri(cfg.syms[s].origType)
    ensures exists b: Tri :: OwnValue(cfg, rank, u, s, b) &&
              Larger(TriBase(cfg, u, s, VisOf(cfg, rank, u, SymI(s)), FreshEnv(cfg, rank, u)).v, b, ImpliedTri(cfg, rank, u, s))
  {
    hide Fresh, EvalE, TriDefault, DefaultIs, ExprOk, AtomOk;
    WellFormedSym(cfg, s);
    if UserCounts(cfg, rank, u, s) {
      var b := Min(UserTriOf(u, s), VisOf(cfg, rank, u, SymI(s)));
      assert OwnValue(cfg, rank, u, s, b);
    } else {
      TriDefaultMeans(cfg, rank, u, cfg.syms[s].defaults);
      var b := TriDefault(cfg, u, cfg.syms[s].defaults, FreshEnv(cfg, rank, u)).v;
      assert OwnValue(cfg, rank, u, s, b);
    }
  }

  lemma TriMeans(cfg: Config, rank: Rank, u: User, s: nat)
    requires Sound(cfg, rank, u) && s < |cfg.syms| && IsBoolTri(cfg.syms[s].origType) && cfg.syms[s].choice.None?
    ensures TriIs(cfg, rank, u, s, TriOf(cfg, rank, u, s))
  {
    hide Ranked, Fresh, EvalE, TriBase, OwnValue, ImpliedTri, SymType, SymIsTristate, ExprOk, AtomOk;
    WellFormedSym(cfg, s);
    FreshSolves(cfg, rank, u, TriC(s));
    BaseMeans(cfg, rank, u, s);
    TypeMeans(cfg, rank, u, s);
    IsTristate(cfg, rank, u, s);
    var q := TriBase(cfg, u, s, VisOf(cfg, rank, u, SymI(s)), FreshEnv(cfg, rank, u)).v;
    var p := Max(Val(cfg, rank, u, cfg.syms[s].revDep), q);
    assert Larger(p, q, Val(cfg, rank, u, cfg.syms[s].revDep));
  }

  /** What select, imply, the user and defaults can count on. */
  lemma TriLaws(cfg: Config, rank: Rank, u: User, s: nat)
    requires Sound(cfg, rank, u) && s < |cfg.syms| && IsBoolTri(cfg.syms[s].origType) && cfg.syms[s].choice.None?
    ensures var v, sym := TriOf(cfg, rank, u, s), cfg.syms[s];
            var selected, implied := Val(cfg, rank, u, sym.revDep), Val(cfg, rank, u, sym.weakRevDep);
            && selected <= v
            && (!UserCounts(cfg, rank, u, s) && Val(cfg, rank, u, sym.directDep) != 0 ==> implied <= v)
            && (selected == 0 && (UserCounts(cfg, rank, u, s) || implied == 0 || Val(cfg, rank, u, sym.directDep) == 0) ==>
                  exists b: Tri :: OwnValue(cfg, rank, u, s, b) && v == if b == 1 && Promotes(cfg, rank, u, s) then 2 else b)
            && (v == 1 ==> SymIsTristate(cfg, rank, u, s))
  {
    hide Ranked, Fresh, EvalE, OwnValue, SymIsTristate, ExprOk, AtomOk;
    TriMeans(cfg, rank, u, s);
  }

  /** A symbol of another type is n wherever a tristate value is asked for. */
  lemma OtherTri(cfg: Config, rank: Rank, u: User, s: nat)
    requires Sound(cfg, rank, u) && s < |cfg.syms| && !IsBoolTri(cfg.syms[s].origType)
    ensures TriOf(cfg, rank, u, s) == 0
  {
    hide Ranked, Fresh;
    FreshSolves(cfg, rank, u, TriC(s));
  }

  // ---- choices ----

  lemma MemberBody(cfg: Config, rank: Rank, u: User, s: nat)
    requires Sound(cfg, rank, u) && s < |cfg.syms| && IsBoolTri(cfg.syms[s].origType) && cfg.syms[s].choice.Some?
    ensures var vis := VisOf(cfg, rank, u, SymI(s));
            TriOf(cfg, rank, u, s) ==
            if vis == 2 then (if SelOf(cfg, rank, u, cfg.syms[s].choice.value) == Some(s) then 2 else 0)
            else if vis != 0 && s in u.value && u.value[s] != UserTri(0) then 1 else 0
  {
    hide Ranked, Fresh;
    FreshSolves(cfg, rank, u, TriC(s));
  }

  /** The symbols a choice in y mode may select: the visible ones. */
  ghost predicate Visible(cfg: Config, rank: Rank, u: User, s: nat)
    requires WellFormed(cfg)
  {
    VisOf(cfg, rank, u, SymI(s)) != 0
  }

  ghost predicate DefaultSelects(cfg: Config, rank: Rank, u: User, ds: seq<ChoiceDefault>, i: nat)
    requires WellFormed(cfg) && ChoiceDefaultsOk(cfg, ds) && i < |ds|
  {
    Val(cfg, rank, u, ds[i].cond) != 0 && Visible(cfg, rank, u, ds[i].sym)
  }

  ghost predicate NoDefaultSelects(cfg: Config, rank: Rank, u: User, ds: seq<ChoiceDefault>, n: nat)
    requires WellFormed(cfg) && ChoiceDefaultsOk(cfg, ds) && n <= |ds|
  {
    forall i: nat | i < n :: !DefaultSelects(cfg, rank, u, ds, i)
  }

  ghost predicate FirstSelects(cfg: Config, rank: Rank, u: User, ds: seq<ChoiceDefault>, i: nat)
    requires WellFormed(cfg) && ChoiceDefaultsOk(cfg, ds)
  {
    i < |ds| && DefaultSelects(cfg, rank, u, ds, i) && NoDefaultSelects(cfg, rank, u, ds, i)
  }

  lemma {:induction false} SelDefaultMeans(cfg: Config, rank: Rank, u: User, ds: seq<ChoiceDefault>, n: nat)
    requires WellFormed(cfg) && ChoiceDefaultsOk(cfg, ds) && n <= |ds| && NoDefaultSelects(cfg, rank, u, ds, n)
    ensures var d := SelDefault(cfg, u, ds[n..], FreshEnv(cfg, rank, u)).v;
            && (d.None? ==> NoDefaultSelects(cfg, rank, u, ds, |ds|))
            && (d.Some? ==> exists i: nat :: FirstSelects(cfg, rank, u, ds, i) && d == Some(ds[i].sym))
    decreases |ds| - n
  {
    hide WellFormed, Fresh, EvalE, ExprOk;
    if n < |ds| {
      assert ds[n..][0] == ds[n] && ds[n..][1..] == ds[n + 1..];
      if DefaultSelects(cfg, rank, u, ds, n) { assert FirstSelects(cfg, rank, u, ds, n); } else { SelDefaultMeans(cfg, rank, u, ds, n + 1); }
    }
  }

  ghost predicate NoneVisible(cfg: Config, rank: Rank, u: User, ss: seq<nat>, n: nat)
    requires WellFormed(cfg) && n <= |ss|
  {
    forall i: nat | i < n :: !Visible(cfg, rank, u, ss[i])
  }

  ghost predicate FirstSeen(cfg: Config, rank: Rank, u: User, ss: seq<nat>, i: nat)
    requires WellFormed(cfg)
  {
    i < |ss| && Visible(cfg, rank, u, ss[i]) && NoneVisible(cfg, rank, u, ss, i)
  }

  lemma {:induction false} FirstVisibleMeans(cfg: Config, rank: Rank, u: User, ss: seq<nat>, n: nat)
    requires WellFormed(cfg) && n <= |ss| && NoneVisible(cfg, rank, u, ss, n)
    ensures var f := FirstVisible(ss[n..], FreshEnv(cfg, rank, u)).v;
            && (f.None? ==> NoneVisible(cfg, rank, u, ss, |ss|))
            && (f.Some? ==> exists i: nat :: FirstSeen(cfg, rank, u, ss, i) && f == Some(ss[i]))
    decreases |ss| - n
  {
    hide WellFormed, Fresh;
    if n < |ss| {
      assert ss[n..][0] == ss[n] && ss[n..][1..] == ss[n + 1..];
      if Visible(cfg, rank, u, ss[n]) { assert FirstSeen(cfg, rank, u, ss, n); } else { FirstVisibleMeans(cfg, rank, u, ss, n + 1); }
    }
  }

  /** What a choice selects without a user selection that is visible: the first default that
      applies and is visible, else the first visible member. */
  ghost predicate DefaultSelection(cfg: Config, rank: Rank, u: User, c: nat, sel: Option<nat>)
    requires WellFormed(cfg) && c < |cfg.choices|
  {
    var ds, ss := cfg.choices[c].defaults, cfg.choices[c].syms;
    || (exists i: nat :: FirstSelects(cfg, rank, u, ds, i) && sel == Some(ds[i].sym))
    || (NoDefaultSelects(cfg, rank, u, ds, |ds|) && exists i: nat :: FirstSeen(cfg, rank, u, ss, i) && sel == Some(ss[i]))
    || (NoDefaultSelects(cfg, rank, u, ds, |ds|) && NoneVisible(cfg, rank, u, ss, |ss|) && sel == None)
  }

  /** Only a choice in y mode selects, and the user's selection comes first. */
  ghost predicate SelectionIs(cfg: Config, rank: Rank, u: User, c: nat, sel: Option<nat>)
    requires WellFormed(cfg) && c < |cfg.choices|
  {
    if ModeOf(cfg, rank, u, c) != 2 then sel == None
    else if c in u.selection && Visible(cfg, rank, u, u.selection[c]) then sel == Some(u.selection[c])
    else DefaultSelection(cfg, rank, u, c, sel)
  }

  lemma WellFormedChoice(cfg: Config, c: nat)
    requires WellFormed(cfg) && c < |cfg.choices|
    ensures ChoiceOk(cfg, cfg.choices[c])
  {
  }

  lemma SelMeans(cfg: Config, rank: Rank, u: User, c: nat)
    requires Sound(cfg, rank, u) && c < |cfg.choices|
    ensures SelectionIs(cfg, rank, u, c, SelOf(cfg, rank, u, c))
  {
    hide Ranked, Fresh, ChoiceTri, SelDefault, FirstVisible, FirstSelects, FirstSeen, ExprOk, AtomOk;
    WellFormedChoice(cfg, c);
    FreshSolves(cfg, rank, u, SelC(c));
    var ch := cfg.choices[c];
    SelDefaultMeans(cfg, rank, u, ch.defaults, 0);
    FirstVisibleMeans(cfg, rank, u, ch.syms, 0);
    assert ch.defaults[0..] == ch.defaults && ch.syms[0..] == ch.syms;
  }

  lemma SelectedIsVisible(cfg: Config, rank: Rank, u: User, c: nat, s: nat)
    requires WellFormed(cfg) && c < |cfg.choices| && SelectionIs(cfg, rank, u, c, Some(s))
    ensures ModeOf(cfg, rank, u, c) == 2 && Visible(cfg, rank, u, s)
  {
    hide Fresh, EvalE, Visible, NoneVisible, NoDefaultSelects, ExprOk, AtomOk;
    WellFormedChoice(cfg, c);
  }

  /** Of the members of a choice exactly the selected one is y; and one is selected as soon
      as a member of a choice in y mode is visible. */
  lemma OneIsChosen(cfg: Config, rank: Rank, u: User, c: nat, s: nat)
    requires Sound(cfg, rank, u) && c < |cfg.choices| && s < |cfg.syms|
    requires IsBoolTri(cfg.syms[s].origType) && cfg.syms[s].choice == Some(c)
    ensures TriOf(cfg, rank, u, s) == 2 <==> SelOf(cfg, rank, u, c) == Some(s)
    ensures ModeOf(cfg, rank, u, c) == 2 ==> TriOf(cfg, rank, u, s) != 1
    ensures ModeOf(cfg, rank, u, c) == 2 && Visible(cfg, rank, u, s) ==> SelOf(cfg, rank, u, c).Some?
  {
    hide Ranked, Fresh, EvalE, FirstSelects, FirstSeen, NoDefaultSelects, ExprOk, AtomOk;
    MemberBody(cfg, rank, u, s);
    SelMeans(cfg, rank, u, c);
    if SelOf(cfg, rank, u, c) == Some(s) { SelectedIsVisible(cfg, rank, u, c, s); }
    if ModeOf(cfg, rank, u, c) == 2 { MemberVisible(cfg, rank, u, s); }
    SymIsMember(cfg, s);
  }

  lemma SymIsMember(cfg: Config, s: nat)
    requires WellFormed(cfg) && s < |cfg.syms| && cfg.syms[s].choice.Some?
    ensures cfg.syms[s].choice.value < |cfg.choices| && s in cfg.choices[cfg.syms[s].choice.value].syms
  {
  }

  /** Outside y mode a member is at most m, and m exactly when the user gave it a value and
      it is visible with m. */
  lemma ManyMayBeModules(cfg: Config, rank: Rank, u: User, c: nat, s: nat)
    requires Sound(cfg, rank, u) && c < |cfg.choices| && s < |cfg.syms|
    requires IsBoolTri(cfg.syms[s].origType) && cfg.syms[s].choice == Some(c) && ModeOf(cfg, rank, u, c) != 2
    ensures TriOf(cfg, rank, u, s) == if VisOf(cfg, rank, u, SymI(s)) == 1 && s in u.value && u.value[s] != UserTri(0) then 1 else 0
  {
    hide Ranked, Fresh, EvalE, ExprOk, AtomOk;
    MemberBody(cfg, rank, u, s);
    SelMeans(cfg, rank, u, c);
  }
}
