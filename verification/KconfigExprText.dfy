/** Expressions as text: expr_str(), at the level of tokens, and the top-down parser
    that reads the tokens back. */
module KconfigExprText {
  import opened Basics
  import opened KconfigModel

  /** End is the None that closes every token list. */
  datatype Token = Sym(a: Atom) | OrT | AndT | NotT | Open | Close | RelT(rel: Relation) | End

  // ---- printing ----

  ghost predicate OverSymbols(e: Expr) {
    match e
    case At(_) => true
    case ChoiceE(_) => false
    case And(l, r) => OverSymbols(l) && OverSymbols(r)
    case Or(l, r) => OverSymbols(l) && OverSymbols(r)
    case Not(x) => OverSymbols(x)
    case Rel(_, _, _) => true
  }

  /** expr_str; a choice has no token of its own and is printed as nothing here. */
  function Print(e: Expr): seq<Token>
    decreases e, 0
  {
    match e
    case At(a) => [Sym(a)]
    case ChoiceE(_) => []
    case And(l, r) => InAnd(l) + [AndT] + InAnd(r)
    case Or(l, r) => InOr(l) + [OrT] + InOr(r)
    case Not(x) => if x.At? then [NotT, Sym(x.a)] else [NotT, Open] + Print(x) + [Close]
    case Rel(rel, a, b) => [Sym(a), RelT(rel), Sym(b)]
  }

  /** _parenthesize(e, OR): an operand of && */
  function InAnd(e: Expr): seq<Token>
    decreases e, 1
  {
    if e.Or? then [Open] + Print(e) + [Close] else Print(e)
  }

  /** _parenthesize(e, AND): an operand of || */
  function InOr(e: Expr): seq<Token>
    decreases e, 1
  {
    if e.And? then [Open] + Print(e) + [Close] else Print(e)
  }

  // ---- parsing ----

  /** What is parsed and the tokens left, or a parse error. */
  datatype Parsed = Ok(e: Expr, rest: seq<Token>) | Malformed

  /** _parse_expr: and_expr ['||' expr].  `m` names MODULES when a plain m is to be
      rewritten to m && MODULES. */
  function ParseExpr(ts: seq<Token>, m: Option<nat>): (p: Parsed)
    ensures p.Ok? ==> |p.rest| < |ts|
    decreases |ts|, 2
  {
    var l := ParseAnd(ts, m);
    if l.Malformed? then Malformed
    else if l.rest != [] && l.rest[0] == OrT then
      var r := ParseExpr(l.rest[1..], m);
      if r.Malformed? then Malformed else Ok(Or(l.e, r.e), r.rest)
    else l
  }

  /** _parse_and_expr: factor ['&&' and_expr] */
  function ParseAnd(ts: seq<Token>, m: Option<nat>): (p: Parsed)
    ensures p.Ok? ==> |p.rest| < |ts|
    decreases |ts|, 1
  {
    var l := ParseFactor(ts, m);
    if l.Malformed? then Malformed
    else if l.rest != [] && l.rest[0] == AndT then
      var r := ParseAnd(l.rest[1..], m);
      if r.Malformed? then Malformed else Ok(And(l.e, r.e), r.rest)
    else l
  }

  function Plain(a: Atom, m: Option<nat>): Expr {
    if m.Some? && a == TriA(1) then And(At(a), At(SymA(m.value))) else At(a)
  }

  /** _parse_factor: symbol [relation symbol] | '!' factor | '(' expr ')' */
  function ParseFactor(ts: seq<Token>, m: Option<nat>): (p: Parsed)
    ensures p.Ok? ==> |p.rest| < |ts|
    decreases |ts|, 0
  {
    if ts == [] then Malformed else
    match ts[0]
    case Sym(a) =>
      if |ts| == 1 || !ts[1].RelT? then Ok(Plain(a, m), ts[1..])
      else if |ts| > 2 && ts[2].Sym? then Ok(Rel(ts[1].rel, a, ts[2].a), ts[3..])
      else Malformed
    case NotT =>
      var x := ParseFactor(ts[1..], m);
      if x.Malformed? then Malformed else Ok(Not(x.e), x.rest)
    case Open =>
      var x := ParseExpr(ts[1..], m);
      if x.Ok? && x.rest != [] && x.rest[0] == Close then Ok(x.e, x.rest[1..]) else Malformed
    case _ => Malformed
  }

  /** The parser as it runs, stepping an index through the token list. */
  class Parser {
    const tokens: seq<Token>
    const modules: nat
    var i: nat

    constructor (tokens: seq<Token>, modules: nat)
      ensures this.tokens == tokens && this.modules == modules && i == 0
    {
      this.tokens, this.modules, i := tokens, modules, 0;
    }

    ghost predicate Matches(e: Option<Expr>, p: Parsed)
      reads this
    {
      if e.None? then p.Malformed? else i <= |tokens| && p == Ok(e.value, tokens[i..])
    }

    /** _check_token */
    method CheckToken(t: Token) returns (found: bool)
      requires i <= |tokens|
      modifies this
      ensures found == (old(i) < |tokens| && tokens[old(i)] == t)
      ensures i == if found then old(i) + 1 else old(i)
    {
      found := i < |tokens| && tokens[i] == t;
      if found { i := i + 1; }
    }

    method Expression(transformM: bool) returns (e: Option<Expr>)
      requires i <= |tokens|
      modifies this
      ensures i <= |tokens| && Matches(e, ParseExpr(tokens[old(i)..], if transformM then Some(modules) else None))
      decreases |tokens| - i, 2
    {
      e := Conjunction(transformM);
      if e.None? { return; }
      var more := CheckToken(OrT);
      if more {
        var r := Expression(transformM);
        e := if r.None? then None else Some(Or(e.value, r.value));
      }
    }

    method Conjunction(transformM: bool) returns (e: Option<Expr>)
      requires i <= |tokens|
      modifies this
      ensures i <= |tokens| && Matches(e, ParseAnd(tokens[old(i)..], if transformM then Some(modules) else None))
      decreases |tokens| - i, 1
    {
      e := Factor(transformM);
      if e.None? { return; }
      var more := CheckToken(AndT);
      if more {
        var r := Conjunction(transformM);
        e := if r.None? then None else Some(And(e.value, r.value));
      }
    }

    method Factor(transformM: bool) returns (e: Option<Expr>)
      requires i <= |tokens|
      modifies this
      ensures i <= |tokens| && Matches(e, ParseFactor(tokens[old(i)..], if transformM then Some(modules) else None))
      decreases |tokens| - i, 0
    {
      if i == |tokens| { return None; }
      var token := tokens[i];
      i := i + 1;
      match token
      case Sym(a) =>
        if i == |tokens| || !tokens[i].RelT? {
          return Some(if transformM && a == TriA(1) then And(At(a), At(SymA(modules))) else At(a));
        }
        var rel := tokens[i].rel;
        i := i + 1;
        if i == |tokens| || !tokens[i].Sym? { return None; }
        e := Some(Rel(rel, a, tokens[i].a));
        i := i + 1;
      case NotT =>
        var x := Factor(transformM);
        e := if x.None? then None else Some(Not(x.value));
      case Open =>
        e := Expression(transformM);
        if e.Some? {
          var closed := CheckToken(Close);
          if !closed { e := None; }
        }
      case _ => e := None;
    }
  }

  // ---- reading back what was printed ----

  /** The operands of a chain of &&, each as it is read back. */
  ghost function AndOps(e: Expr, m: Option<nat>): (ops: seq<Expr>)
    ensures ops != []
    decreases e, 1
  {
    if e.And? then AndOps(e.l, m) + AndOps(e.r, m) else [Reparsed(e, m)]
  }

  ghost function OrOps(e: Expr, m: Option<nat>): (ops: seq<Expr>)
    ensures ops != []
    decreases e, 1
  {
    if e.Or? then OrOps(e.l, m) + OrOps(e.r, m) else [Reparsed(e, m)]
  }

  ghost function RightAnd(ops: seq<Expr>): Expr
    requires ops != []
  {
    if |ops| == 1 then ops[0] else And(ops[0], RightAnd(ops[1..]))
  }

  ghost function RightOr(ops: seq<Expr>): Expr
    requires ops != []
  {
    if |ops| == 1 then ops[0] else Or(ops[0], RightOr(ops[1..]))
  }

  /** The expression read back: chains of && and of || associate to the right. */
  ghost function Reparsed(e: Expr, m: Option<nat>): Expr
    decreases e, 0
  {
    match e
    case At(a) => Plain(a, m)
    case ChoiceE(_) => e
    case And(l, r) => RightAnd(AndOps(l, m) + AndOps(r, m))
    case Or(l, r) => RightOr(OrOps(l, m) + OrOps(r, m))
    case Not(x) => Not(Reparsed(x, m))
    case Rel(_, _, _) => e
  }

  /** The next token neither compares nor continues an && (or an ||). */
  ghost predicate EndsFactor(ts: seq<Token>) { ts != [] && !ts[0].RelT? }
  ghost predicate EndsAnd(ts: seq<Token>) { EndsFactor(ts) && ts[0] != AndT }
  ghost predicate EndsExpr(ts: seq<Token>) { EndsAnd(ts) && ts[0] != OrT }

  lemma ParenthesisReads(inner: seq<Token>, m: Option<nat>, e: Expr, rest: seq<Token>)
    requires ParseExpr(inner + ([Close] + rest), m) == Ok(e, [Close] + rest)
    ensures ParseFactor([Open] + inner + [Close] + rest, m) == Ok(e, rest)
  {
    var ts := [Open] + inner + [Close] + rest;
    assert ts[1..] == inner + ([Close] + rest);
    assert ([Close] + rest)[1..] == rest;
    hide ParseExpr;
  }

  lemma NotReads(ts: seq<Token>, m: Option<nat>, x: Expr, rest: seq<Token>)
    requires ParseFactor(ts, m) == Ok(x, rest)
    ensures ParseFactor([NotT] + ts, m) == Ok(Not(x), rest)
  {
    assert ([NotT] + ts)[1..] == ts;
  }

  lemma AndReads(f: seq<Token>, m: Option<nat>, more: seq<Token>, a: Expr, x: Expr, rest: seq<Token>)
    requires ParseFactor(f + ([AndT] + more), m) == Ok(a, [AndT] + more) && ParseAnd(more, m) == Ok(x, rest)
    ensures ParseAnd(f + [AndT] + more, m) == Ok(And(a, x), rest)
  {
    assert f + [AndT] + more == f + ([AndT] + more);
    assert ([AndT] + more)[1..] == more;
    hide ParseFactor;
  }

  lemma OrReads(f: seq<Token>, m: Option<nat>, more: seq<Token>, a: Expr, x: Expr, rest: seq<Token>)
    requires ParseAnd(f + ([OrT] + more), m) == Ok(a, [OrT] + more) && ParseExpr(more, m) == Ok(x, rest)
    ensures ParseExpr(f + [OrT] + more, m) == Ok(Or(a, x), rest)
  {
    assert f + [OrT] + more == f + ([OrT] + more);
    assert ([OrT] + more)[1..] == more;
    hide ParseAnd;
  }

  lemma LeafReadBack(e: Expr, m: Option<nat>, rest: seq<Token>)
    requires (e.At? || e.Rel?) && EndsFactor(rest)
    ensures ParseFactor(InAnd(e) + rest, m) == Ok(Reparsed(e, m), rest)
  {
    if e.At? {
      var ts := [Sym(e.a)] + rest;
      assert InAnd(e) == [Sym(e.a)];
      assert ts[0] == Sym(e.a) && ts[1..] == rest;
    } else {
      var ts := [Sym(e.a), RelT(e.rel), Sym(e.b)] + rest;
      assert InAnd(e) == Print(e) == [Sym(e.a), RelT(e.rel), Sym(e.b)];
      assert ts[0] == Sym(e.a) && ts[1] == RelT(e.rel) && ts[2] == Sym(e.b) && ts[3..] == rest;
    }
  }

  lemma {:induction false} FactorReadBack(e: Expr, m: Option<nat>, rest: seq<Token>)
    requires OverSymbols(e) && !e.And? && EndsFactor(rest)
    ensures ParseFactor(InAnd(e) + rest, m) == Ok(Reparsed(e, m), rest)
    decreases e, 1
  {
    hide ParseFactor, ParseExpr;
    match e
    case At(_) => LeafReadBack(e, m, rest);
    case Rel(_, _, _) => LeafReadBack(e, m, rest);
    case Not(x) =>
      if x.At? {
        LeafReadBack(x, m, rest);
        NotReads(InAnd(x) + rest, m, Reparsed(x, m), rest);
        assert InAnd(x) == [Sym(x.a)] && InAnd(e) == [NotT, Sym(x.a)];
        assert InAnd(e) + rest == [NotT] + (InAnd(x) + rest);
      } else {
        ExprReadBack(x, m, [Close] + rest);
        ParenthesisReads(Print(x), m, Reparsed(x, m), rest);
        NotReads([Open] + Print(x) + [Close] + rest, m, Reparsed(x, m), rest);
        assert InAnd(e) == [NotT, Open] + Print(x) + [Close];
        assert InAnd(e) + rest == [NotT] + ([Open] + Print(x) + [Close] + rest);
      }
    case Or(_, _) =>
      OrReadBack(e, m, [Close] + rest);
      ParenthesisReads(Print(e), m, Reparsed(e, m), rest);
  }

  /** A printed chain of && in front of more operands. */
  lemma {:induction false} AndChainReadBack(e: Expr, m: Option<nat>, more: seq<Token>, x: Expr, rest: seq<Token>)
    requires OverSymbols(e) && ParseAnd(more, m) == Ok(x, rest)
    ensures ParseAnd(InAnd(e) + [AndT] + more, m) == Ok(RightAnd(AndOps(e, m) + [x]), rest)
    decreases e, 2
  {
    hide ParseAnd, ParseFactor;
    if e.And? {
      var tail := InAnd(e.r) + [AndT] + more;
      AndChainReadBack(e.r, m, more, x, rest);
      AndChainReadBack(e.l, m, tail, RightAnd(AndOps(e.r, m) + [x]), rest);
      assert InAnd(e) + [AndT] + more == InAnd(e.l) + [AndT] + tail;
      RightAndNests(AndOps(e.l, m), AndOps(e.r, m) + [x]);
      assert AndOps(e.l, m) + (AndOps(e.r, m) + [x]) == AndOps(e, m) + [x];
    } else {
      FactorReadBack(e, m, [AndT] + more);
      AndReads(InAnd(e), m, more, Reparsed(e, m), x, rest);
      assert (AndOps(e, m) + [x])[1..] == [x];
    }
  }

  lemma {:induction false} RightAndNests(a: seq<Expr>, b: seq<Expr>)
    requires a != [] && b != []
    ensures RightAnd(a + [RightAnd(b)]) == RightAnd(a + b)
  {
    if |a| > 1 {
      RightAndNests(a[1..], b);
      assert (a + [RightAnd(b)])[1..] == a[1..] + [RightAnd(b)] && (a + b)[1..] == a[1..] + b;
    } else {
      assert (a + [RightAnd(b)])[1..] == [RightAnd(b)] && (a + b)[1..] == b;
    }
  }

  lemma {:induction false} RightOrNests(a: seq<Expr>, b: seq<Expr>)
    requires a != [] && b != []
    ensures RightOr(a + [RightOr(b)]) == RightOr(a + b)
  {
    if |a| > 1 {
      RightOrNests(a[1..], b);
      assert (a + [RightOr(b)])[1..] == a[1..] + [RightOr(b)] && (a + b)[1..] == a[1..] + b;
    } else {
      assert (a + [RightOr(b)])[1..] == [RightOr(b)] && (a + b)[1..] == b;
    }
  }

  lemma {:induction false} AndReadBack(e: Expr, m: Option<nat>, rest: seq<Token>)
    requires OverSymbols(e) && EndsAnd(rest)
    ensures ParseAnd(InAnd(e) + rest, m) == Ok(RightAnd(AndOps(e, m)), rest)
    decreases e, 3
  {
    if e.And? {
      AndReadBack(e.r, m, rest);
      AndChainReadBack(e.l, m, InAnd(e.r) + rest, RightAnd(AndOps(e.r, m)), rest);
      assert InAnd(e) + rest == InAnd(e.l) + [AndT] + (InAnd(e.r) + rest);
      RightAndNests(AndOps(e.l, m), AndOps(e.r, m));
    } else {
      FactorReadBack(e, m, rest);
    }
  }

  /** An operand of ||, read as an and_expr. */
  lemma {:induction false} OrOperandReadBack(e: Expr, m: Option<nat>, rest: seq<Token>)
    requires OverSymbols(e) && !e.Or? && EndsAnd(rest)
    ensures ParseAnd(InOr(e) + rest, m) == Ok(Reparsed(e, m), rest)
    decreases e, 4
  {
    if e.And? {
      var ts := InOr(e) + rest;
      assert ts[1..] == Print(e) + ([Close] + rest);
      AndReadBack(e, m, [Close] + rest);
      assert InAnd(e) == Print(e);
      assert ParseExpr(ts[1..], m) == Ok(Reparsed(e, m), [Close] + rest);
      assert ([Close] + rest)[1..] == rest;
    } else {
      assert InOr(e) == InAnd(e);
      FactorReadBack(e, m, rest);
    }
  }

  lemma {:induction false} OrChainReadBack(e: Expr, m: Option<nat>, more: seq<Token>, x: Expr, rest: seq<Token>)
    requires OverSymbols(e) && ParseExpr(more, m) == Ok(x, rest)
    ensures ParseExpr(InOr(e) + [OrT] + more, m) == Ok(RightOr(OrOps(e, m) + [x]), rest)
    decreases e, 5
  {
    hide ParseExpr, ParseAnd, ParseFactor;
    if e.Or? {
      var tail := InOr(e.r) + [OrT] + more;
      OrChainReadBack(e.r, m, more, x, rest);
      OrChainReadBack(e.l, m, tail, RightOr(OrOps(e.r, m) + [x]), rest);
      assert InOr(e) + [OrT] + more == InOr(e.l) + [OrT] + tail;
      RightOrNests(OrOps(e.l, m), OrOps(e.r, m) + [x]);
      assert OrOps(e.l, m) + (OrOps(e.r, m) + [x]) == OrOps(e, m) + [x];
    } else {
      OrOperandReadBack(e, m, [OrT] + more);
      OrReads(InOr(e), m, more, Reparsed(e, m), x, rest);
      assert (OrOps(e, m) + [x])[1..] == [x];
    }
  }

  lemma {:induction false} OrReadBack(e: Expr, m: Option<nat>, rest: seq<Token>)
    requires OverSymbols(e) && EndsExpr(rest)
    ensures ParseExpr(InOr(e) + rest, m) == Ok(RightOr(OrOps(e, m)), rest)
    decreases e, if e.Or? then 0 else 6
  {
    if e.Or? {
      OrReadBack(e.r, m, rest);
      OrChainReadBack(e.l, m, InOr(e.r) + rest, RightOr(OrOps(e.r, m)), rest);
      assert InOr(e) + rest == InOr(e.l) + [OrT] + (InOr(e.r) + rest);
      RightOrNests(OrOps(e.l, m), OrOps(e.r, m));
    } else {
      OrOperandReadBack(e, m, rest);
    }
  }

  /** Parsing what was printed gives the expression back, with chains of && and ||
      associated to the right (and each plain m rewritten, when that is asked for). */
  lemma {:induction false} ExprReadBack(e: Expr, m: Option<nat>, rest: seq<Token>)
    requires OverSymbols(e) && EndsExpr(rest)
    ensures ParseExpr(Print(e) + rest, m) == Ok(Reparsed(e, m), rest)
    decreases e, 7
  {
    if e.And? { AndReadBack(e, m, rest); assert InAnd(e) == Print(e); }
    else { OrReadBack(e, m, rest); assert InOr(e) == Print(e); }
  }

  // ---- the same meaning ----

  lemma {:induction false} RightAndSplits(cfg: Config, u: User, a: seq<Expr>, b: seq<Expr>, env: Env)
    requires a != [] && b != [] && ExprsOk(cfg, a) && ExprsOk(cfg, b)
    ensures ExprOk(cfg, RightAnd(a)) && ExprOk(cfg, RightAnd(b)) && ExprOk(cfg, RightAnd(a + b))
    ensures EvalE(cfg, u, RightAnd(a + b), env) == EvalE(cfg, u, And(RightAnd(a), RightAnd(b)), env)
  {
    RightOk(cfg, a); RightOk(cfg, b);
    if |a| == 1 { assert (a + b)[1..] == b; }
    else {
      RightAndSplits(cfg, u, a[1..], b, env);
      assert (a + b)[1..] == a[1..] + b;
    }
  }

  lemma {:induction false} RightOrSplits(cfg: Config, u: User, a: seq<Expr>, b: seq<Expr>, env: Env)
    requires a != [] && b != [] && ExprsOk(cfg, a) && ExprsOk(cfg, b)
    ensures ExprOk(cfg, RightOr(a)) && ExprOk(cfg, RightOr(b)) && ExprOk(cfg, RightOr(a + b))
    ensures EvalE(cfg, u, RightOr(a + b), env) == EvalE(cfg, u, Or(RightOr(a), RightOr(b)), env)
  {
    RightOk(cfg, a); RightOk(cfg, b);
    if |a| == 1 { assert (a + b)[1..] == b; }
    else {
      RightOrSplits(cfg, u, a[1..], b, env);
      assert (a + b)[1..] == a[1..] + b;
    }
  }

  lemma {:induction false} RightOk(cfg: Config, a: seq<Expr>)
    requires a != [] && ExprsOk(cfg, a)
    ensures ExprOk(cfg, RightAnd(a)) && ExprOk(cfg, RightOr(a))
  {
    if |a| > 1 { RightOk(cfg, a[1..]); }
  }

  /** Without the rewriting of m, the expression read back has the same value under
      every assignment, and even asks for the same cells on the way. */
  lemma {:induction false} ReadBackMeansTheSame(cfg: Config, u: User, e: Expr, env: Env)
    requires ExprOk(cfg, e)
    ensures ExprOk(cfg, Reparsed(e, None)) && ExprsOk(cfg, AndOps(e, None)) && ExprsOk(cfg, OrOps(e, None))
    ensures EvalE(cfg, u, Reparsed(e, None), env) == EvalE(cfg, u, e, env)
  {
    match e
    case And(l, r) =>
      ReadBackMeansTheSame(cfg, u, l, env); ReadBackMeansTheSame(cfg, u, r, env);
      ChainIsReparsed(l, None); ChainIsReparsed(r, None);
      RightAndSplits(cfg, u, AndOps(l, None), AndOps(r, None), env);
    case Or(l, r) =>
      ReadBackMeansTheSame(cfg, u, l, env); ReadBackMeansTheSame(cfg, u, r, env);
      ChainIsReparsed(l, None); ChainIsReparsed(r, None);
      RightOrSplits(cfg, u, OrOps(l, None), OrOps(r, None), env);
    case Not(x) => ReadBackMeansTheSame(cfg, u, x, env);
    case _ =>
  }

  lemma ChainIsReparsed(e: Expr, m: Option<nat>)
    ensures RightAnd(AndOps(e, m)) == Reparsed(e, m) && RightOr(OrOps(e, m)) == Reparsed(e, m)
  {
  }

  // ---- m and MODULES ----

  /** The expression with every m that is not compared limited by the symbol MODULES. */
  function Limited(e: Expr, modules: nat): Expr {
    match e
    case At(a) => if a == TriA(1) then And(e, At(SymA(modules))) else e
    case And(l, r) => And(Limited(l, modules), Limited(r, modules))
    case Or(l, r) => Or(Limited(l, modules), Limited(r, modules))
    case Not(x) => Not(Limited(x, modules))
    case _ => e
  }

  /** What the rewrite makes of a parse. */
  ghost predicate OnlyLimits(p: Parsed, q: Parsed, modules: nat) {
    if p.Malformed? then q.Malformed? else q == Ok(Limited(p.e, modules), p.rest)
  }

  lemma FactorLimits(ts: seq<Token>, modules: nat)
    requires ts != [] ==> OnlyLimits(ParseExpr(ts[1..], None), ParseExpr(ts[1..], Some(modules)), modules)
    requires ts != [] ==> OnlyLimits(ParseFactor(ts[1..], None), ParseFactor(ts[1..], Some(modules)), modules)
    ensures OnlyLimits(ParseFactor(ts, None), ParseFactor(ts, Some(modules)), modules)
  {
    hide ParseExpr;
  }

  lemma AndLimits(ts: seq<Token>, modules: nat)
    requires OnlyLimits(ParseFactor(ts, None), ParseFactor(ts, Some(modules)), modules)
    requires var f := ParseFactor(ts, None);
             f.Ok? && f.rest != [] ==> OnlyLimits(ParseAnd(f.rest[1..], None), ParseAnd(f.rest[1..], Some(modules)), modules)
    ensures OnlyLimits(ParseAnd(ts, None), ParseAnd(ts, Some(modules)), modules)
  {
    hide ParseFactor;
  }

  lemma OrLimits(ts: seq<Token>, modules: nat)
    requires OnlyLimits(ParseAnd(ts, None), ParseAnd(ts, Some(modules)), modules)
    requires var l := ParseAnd(ts, None);
             l.Ok? && l.rest != [] ==> OnlyLimits(ParseExpr(l.rest[1..], None), ParseExpr(l.rest[1..], Some(modules)), modules)
    ensures OnlyLimits(ParseExpr(ts, None), ParseExpr(ts, Some(modules)), modules)
  {
    hide ParseAnd;
  }

  /** Rewriting m while parsing is parsing and then limiting every m by MODULES. */
  lemma {:induction false} RewriteLimits(ts: seq<Token>, modules: nat)
    ensures OnlyLimits(ParseExpr(ts, None), ParseExpr(ts, Some(modules)), modules)
    ensures OnlyLimits(ParseAnd(ts, None), ParseAnd(ts, Some(modules)), modules)
    ensures OnlyLimits(ParseFactor(ts, None), ParseFactor(ts, Some(modules)), modules)
    decreases |ts|
  {
    hide ParseExpr, ParseAnd, ParseFactor, OnlyLimits;
    if ts != [] { RewriteLimits(ts[1..], modules); }
    FactorLimits(ts, modules);
    var f := ParseFactor(ts, None);
    if f.Ok? && f.rest != [] { RewriteLimits(f.rest[1..], modules); }
    AndLimits(ts, modules);
    var l := ParseAnd(ts, None);
    if l.Ok? && l.rest != [] { RewriteLimits(l.rest[1..], modules); }
    OrLimits(ts, modules);
  }
}
