/** The finalized configuration that the Kconfig value engine works on, the
    cached attributes ("cells") of its symbols and choices, and what each of
    them is computed from.

    `Body` is the calculation of one cell against an environment that supplies
    every other cell it asks for.  Besides the value it returns the set of cells
    it actually asked for: evaluation short-circuits, so that set is usually a
    proper subset of the cells the expressions mention. */
module KconfigModel {
  import opened Basics

  type Tri = x: int | 0 <= x <= 2

  datatype Type = UNKNOWN | BOOL | TRISTATE | STRING | INT | HEX

  datatype Relation = EQUAL | UNEQUAL | LESS | LESS_EQUAL | GREATER | GREATER_EQUAL

  /** A symbol, or one of the constants n, m, y. */
  datatype Atom = SymA(s: nat) | TriA(t: Tri)

  datatype Expr =
    | At(a: Atom)
    | ChoiceE(c: nat)
    | And(l: Expr, r: Expr)
    | Or(l: Expr, r: Expr)
    | Not(e: Expr)
    | Rel(rel: Relation, a: Atom, b: Atom)

  datatype Range = Range(low: Atom, high: Atom, cond: Expr)

  datatype Default = Default(value: Expr, cond: Expr)

  /** `defined`: the symbol has a definition; a number or an unknown name in an expression has none.
      `auto`: it stands for an environment variable, or is the defconfig_list symbol. */
  datatype Symbol = Symbol(name: string, defined: bool, origType: Type, prompts: seq<Expr>, defaults: seq<Default>,
                           ranges: seq<Range>, revDep: Expr, weakRevDep: Expr, directDep: Expr,
                           choice: Option<nat>, auto: bool)

  datatype ChoiceDefault = ChoiceDefault(sym: nat, cond: Expr)

  datatype Choice = Choice(origType: Type, prompts: seq<Expr>, defaults: seq<ChoiceDefault>,
                           syms: seq<nat>, isOptional: bool)

  /** `num` is Python's int(text, base), `show` its str()/hex(). */
  datatype Config = Config(syms: seq<Symbol>, choices: seq<Choice>, modules: nat,
                           num: (string, nat) -> Option<int>, show: (int, bool) -> string)

  datatype Item = SymI(s: nat) | ChoiceI(c: nat)

  /** The attributes _cached_vis, _cached_tri_val, _cached_str_val, _cached_selection. */
  datatype Cell = VisC(i: Item) | TriC(s: nat) | StrC(s: nat) | SelC(c: nat)

  datatype Value = TriV(t: Tri) | StrV(str: string) | SelV(sel: Option<nat>)

  datatype UserValue = UserTri(t: Tri) | UserStr(str: string)

  /** Symbol.user_value, Choice.user_value (the mode) and Choice.user_selection. */
  datatype User = User(value: map<nat, UserValue>, mode: map<nat, Tri>, selection: map<nat, nat>)

  type Env = Cell -> Value

  /** A result, the cells asked for, and what was left in _write_to_conf. */
  datatype Ev<+T> = Ev(v: T, r: set<Cell>, w: bool)

  function Max(a: Tri, b: Tri): Tri { if a < b then b else a }
  function Min(a: Tri, b: Tri): Tri { if a < b then a else b }

  function ItemOf(c: Cell): Item {
    match c
    case VisC(i) => i
    case TriC(s) => SymI(s)
    case StrC(s) => SymI(s)
    case SelC(k) => ChoiceI(k)
  }

  function T(v: Value): Tri { if v.TriV? then v.t else 0 }
  function S(v: Value): string { if v.StrV? then v.str else "" }
  function O(v: Value): Option<nat> { if v.SelV? then v.sel else None }

  predicate IsBoolTri(t: Type) { t == BOOL || t == TRISTATE }
  predicate IsIntHex(t: Type) { t == INT || t == HEX }

  /** _TYPE_TO_BASE */
  function Base(t: Type): nat { if t == HEX then 16 else if t == INT then 10 else 0 }

  function TriStr(t: Tri): string { if t == 0 then "n" else if t == 1 then "m" else "y" }

  function StrCmp(a: string, b: string): int {
    if a == [] then (if b == [] then 0 else -1)
    else if b == [] then 1
    else if a[0] < b[0] then -1
    else if b[0] < a[0] then 1
    else StrCmp(a[1..], b[1..])
  }

  function Compare(rel: Relation, comp: int): Tri {
    if (match rel
        case EQUAL => comp == 0
        case UNEQUAL => comp != 0
        case LESS => comp < 0
        case LESS_EQUAL => comp <= 0
        case GREATER => comp > 0
        case GREATER_EQUAL => comp >= 0)
    then 2 else 0
  }

  const Y: Expr := At(TriA(2))
  const N: Expr := At(TriA(0))

  // ---- well-formed configurations ----

  predicate AtomOk(cfg: Config, a: Atom) { a.SymA? ==> a.s < |cfg.syms| }

  predicate ExprOk(cfg: Config, e: Expr) {
    match e
    case At(a) => AtomOk(cfg, a)
    case ChoiceE(c) => c < |cfg.choices|
    case And(l, r) => ExprOk(cfg, l) && ExprOk(cfg, r)
    case Or(l, r) => ExprOk(cfg, l) && ExprOk(cfg, r)
    case Not(x) => ExprOk(cfg, x)
    case Rel(_, a, b) => AtomOk(cfg, a) && AtomOk(cfg, b)
  }

  predicate ExprsOk(cfg: Config, es: seq<Expr>) { forall i | 0 <= i < |es| :: ExprOk(cfg, es[i]) }

  predicate DefaultsOk(cfg: Config, ds: seq<Default>) {
    forall i | 0 <= i < |ds| :: ExprOk(cfg, ds[i].value) && ExprOk(cfg, ds[i].cond)
  }

  predicate StrDefaultsOk(cfg: Config, ds: seq<Default>) {
    DefaultsOk(cfg, ds) && forall i | 0 <= i < |ds| :: ds[i].value.At?
  }

  predicate RangesOk(cfg: Config, gs: seq<Range>) {
    forall i | 0 <= i < |gs| :: AtomOk(cfg, gs[i].low) && AtomOk(cfg, gs[i].high) && ExprOk(cfg, gs[i].cond)
  }

  predicate ChoiceDefaultsOk(cfg: Config, ds: seq<ChoiceDefault>) {
    forall i | 0 <= i < |ds| :: ds[i].sym < |cfg.syms| && ExprOk(cfg, ds[i].cond)
  }

  predicate SymbolOk(cfg: Config, s: Symbol) {
    && ExprsOk(cfg, s.prompts)
    && (if IsBoolTri(s.origType) then DefaultsOk(cfg, s.defaults) else StrDefaultsOk(cfg, s.defaults))
    && RangesOk(cfg, s.ranges)
    && ExprOk(cfg, s.revDep) && ExprOk(cfg, s.weakRevDep) && ExprOk(cfg, s.directDep)
    && (s.choice.Some? ==> s.choice.value < |cfg.choices|)
    && (!s.defined ==> s.origType == UNKNOWN && s.prompts == [] && s.choice.None?)
  }

  predicate ChoiceOk(cfg: Config, c: Choice) {
    && ExprsOk(cfg, c.prompts)
    && ChoiceDefaultsOk(cfg, c.defaults)
    && (forall i | 0 <= i < |c.syms| :: c.syms[i] < |cfg.syms| && cfg.syms[c.syms[i]].defined)
  }

  predicate WellFormed(cfg: Config) {
    && cfg.modules < |cfg.syms|
    && (forall s | 0 <= s < |cfg.syms| :: SymbolOk(cfg, cfg.syms[s]))
    && (forall c | 0 <= c < |cfg.choices| :: ChoiceOk(cfg, cfg.choices[c]))
    && (forall s | 0 <= s < |cfg.syms| ::
          cfg.syms[s].choice.Some? ==> s in cfg.choices[cfg.syms[s].choice.value].syms)
  }

  predicate CellOk(cfg: Config, c: Cell) {
    match ItemOf(c)
    case SymI(s) => s < |cfg.syms|
    case ChoiceI(k) => k < |cfg.choices|
  }

  // ---- what each attribute is computed from ----

  ghost function AtomTri(a: Atom, env: Env): Ev<Tri> {
    match a
    case SymA(s) => Ev(T(env(TriC(s))), {TriC(s)}, false)
    case TriA(t) => Ev(t, {}, false)
  }

  ghost function AtomStr(a: Atom, env: Env): Ev<string> {
    match a
    case SymA(s) => Ev(S(env(StrC(s))), {StrC(s)}, false)
    case TriA(t) => Ev(TriStr(t), {}, false)
  }

  function AtomType(cfg: Config, a: Atom): Type
    requires AtomOk(cfg, a)
  {
    if a.SymA? then cfg.syms[a.s].origType else TRISTATE
  }

  /** _sym_to_num: None where the source raises ValueError. */
  ghost function AtomNum(cfg: Config, a: Atom, env: Env): Ev<Option<int>>
    requires AtomOk(cfg, a)
  {
    if IsBoolTri(AtomType(cfg, a)) then
      var t := AtomTri(a, env); Ev(Some(t.v), t.r, false)
    else
      var x := AtomStr(a, env); Ev(cfg.num(x.v, Base(AtomType(cfg, a))), x.r, false)
  }

  ghost function RelComp(cfg: Config, a: Atom, b: Atom, env: Env): Ev<int>
    requires AtomOk(cfg, a) && AtomOk(cfg, b)
  {
    var sa, sb := AtomStr(a, env), AtomStr(b, env);
    if AtomType(cfg, a) == STRING && AtomType(cfg, b) == STRING then
      Ev(StrCmp(sa.v, sb.v), sa.r + sb.r, false)
    else
      var na := AtomNum(cfg, a, env);
      if na.v == None then Ev(StrCmp(sa.v, sb.v), na.r + sa.r + sb.r, false) else
      var nb := AtomNum(cfg, b, env);
      if nb.v == None then Ev(StrCmp(sa.v, sb.v), na.r + nb.r + sa.r + sb.r, false)
      else Ev(na.v.value - nb.v.value, na.r + nb.r, false)
  }

  /** Choice.tri_value, which is not cached. */
  ghost function ChoiceTri(cfg: Config, u: User, c: nat, env: Env): Ev<Tri>
    requires c < |cfg.choices|
  {
    var ch := cfg.choices[c];
    var low: Tri := if ch.isOptional then 0 else 1;
    var want: Tri := if c in u.mode then Max(low, u.mode[c]) else low;
    var val := Min(want, T(env(VisC(ChoiceI(c)))));
    var r := {VisC(ChoiceI(c))};
    if val != 1 then Ev(val, r, false)
    else if ch.origType == BOOL then Ev(2, r, false)
    else if ch.origType != TRISTATE then Ev(1, r, false)
    else Ev(if T(env(TriC(cfg.modules))) == 0 then 2 else 1, r + {TriC(cfg.modules)}, false)
  }

  /** expr_value, with its short-circuits. */
  ghost function EvalE(cfg: Config, u: User, e: Expr, env: Env): Ev<Tri>
    requires ExprOk(cfg, e)
  {
    match e
    case At(a) => AtomTri(a, env)
    case ChoiceE(c) => ChoiceTri(cfg, u, c, env)
    case And(l, r) =>
      var x := EvalE(cfg, u, l, env);
      if x.v == 0 then x else
      var y := EvalE(cfg, u, r, env); Ev(Min(x.v, y.v), x.r + y.r, false)
    case Or(l, r) =>
      var x := EvalE(cfg, u, l, env);
      if x.v == 2 then x else
      var y := EvalE(cfg, u, r, env); Ev(Max(x.v, y.v), x.r + y.r, false)
    case Not(x) => var y := EvalE(cfg, u, x, env); Ev(2 - y.v, y.r, false)
    case Rel(rel, a, b) => var k := RelComp(cfg, a, b, env); Ev(Compare(rel, k.v), k.r, false)
  }

  /** The largest value among the prompt conditions. */
  ghost function EvalMax(cfg: Config, u: User, es: seq<Expr>, env: Env): Ev<Tri>
    requires ExprsOk(cfg, es)
  {
    if es == [] then Ev(0, {}, false) else
    var x := EvalMax(cfg, u, es[..|es| - 1], env);
    var y := EvalE(cfg, u, es[|es| - 1], env);
    Ev(Max(x.v, y.v), x.r + y.r, false)
  }

  /** Symbol.type */
  ghost function SymType(cfg: Config, u: User, s: nat, env: Env): Ev<Type>
    requires WellFormed(cfg) && s < |cfg.syms|
  {
    var sym := cfg.syms[s];
    if sym.origType != TRISTATE then Ev(sym.origType, {}, false) else
    var m := T(env(TriC(cfg.modules)));
    if sym.choice.None? then Ev(if m == 0 then BOOL else TRISTATE, {TriC(cfg.modules)}, false) else
    var k := ChoiceTri(cfg, u, sym.choice.value, env);
    if k.v == 2 then Ev(BOOL, k.r, false)
    else Ev(if m == 0 then BOOL else TRISTATE, k.r + {TriC(cfg.modules)}, false)
  }

  /** _visibility for a symbol */
  ghost function SymVis(cfg: Config, u: User, s: nat, env: Env): Ev<Tri>
    requires WellFormed(cfg) && s < |cfg.syms|
  {
    var sym := cfg.syms[s];
    var p := EvalMax(cfg, u, sym.prompts, env);
    var off :=
      if sym.choice.None? then Ev(false, {}, false) else
      var k := ChoiceTri(cfg, u, sym.choice.value, env);
      if cfg.choices[sym.choice.value].origType == TRISTATE && sym.origType != TRISTATE
      then Ev(k.v != 2, k.r, false)
      else if sym.origType == TRISTATE && p.v == 1 then Ev(k.v == 2, k.r, false)
      else Ev(false, {}, false);
    if off.v then Ev(0, p.r + off.r, false)
    else if p.v != 1 then Ev(p.v, p.r + off.r, false) else
    var ty := SymType(cfg, u, s, env);
    Ev(if ty.v != TRISTATE then 2 else 1, p.r + off.r + ty.r, false)
  }

  /** _visibility for a choice */
  ghost function ChoiceVis(cfg: Config, u: User, c: nat, env: Env): Ev<Tri>
    requires WellFormed(cfg) && c < |cfg.choices|
  {
    var ch := cfg.choices[c];
    var p := EvalMax(cfg, u, ch.prompts, env);
    if p.v != 1 then p
    else if ch.origType != TRISTATE then Ev(2, p.r, false)
    else Ev(if T(env(TriC(cfg.modules))) == 0 then 2 else 1, p.r + {TriC(cfg.modules)}, false)
  }

  /** The first default whose condition is not n, as a tristate value. */
  ghost function TriDefault(cfg: Config, u: User, ds: seq<Default>, env: Env): Ev<Tri>
    requires DefaultsOk(cfg, ds)
  {
    if ds == [] then Ev(0, {}, false) else
    var k := EvalE(cfg, u, ds[0].cond, env);
    if k.v == 0 then
      var rest := TriDefault(cfg, u, ds[1..], env); Ev(rest.v, k.r + rest.r, rest.w)
    else
      var x := EvalE(cfg, u, ds[0].value, env);
      Ev(Min(x.v, k.v), k.r + x.r, Min(x.v, k.v) != 0)
  }

  /** Symbol.tri_value of a symbol outside choices, before select: user value, else defaults and imply. */
  ghost function TriBase(cfg: Config, u: User, s: nat, vis: Tri, env: Env): Ev<Tri>
    requires WellFormed(cfg) && s < |cfg.syms|
  {
    var sym := cfg.syms[s];
    if vis != 0 && s in u.value then
      Ev(Min(if u.value[s].UserTri? then u.value[s].t else 0, vis), {}, true)
    else
      var d := TriDefault(cfg, u, sym.defaults, env);
      var k := EvalE(cfg, u, sym.weakRevDep, env);
      if k.v == 0 then Ev(d.v, d.r + k.r, vis != 0 || d.w) else
      var dd := EvalE(cfg, u, sym.directDep, env);
      if dd.v == 0 then Ev(d.v, d.r + k.r + dd.r, vis != 0 || d.w)
      else Ev(Max(k.v, d.v), d.r + k.r + dd.r, true)
  }

  ghost function TriPlain(cfg: Config, u: User, s: nat, vis: Tri, env: Env): Ev<Tri>
    requires WellFormed(cfg) && s < |cfg.syms|
  {
    var sym := cfg.syms[s];
    var b := TriBase(cfg, u, s, vis, env);
    var k := EvalE(cfg, u, sym.revDep, env);
    // the direct dependencies are evaluated as well, only to warn about an unmet select
    var dd := if k.v == 0 then Ev(0, {}, false) else EvalE(cfg, u, sym.directDep, env);
    var val := if k.v == 0 then b.v else Max(k.v, b.v);
    var w := b.w || k.v != 0;
    var r := b.r + k.r + dd.r;
    if val != 1 then Ev(val, r, w) else
    var ty := SymType(cfg, u, s, env);
    if ty.v == BOOL then Ev(2, r + ty.r, w) else
    var wk := EvalE(cfg, u, sym.weakRevDep, env);
    Ev(if wk.v == 2 then 2 else 1, r + ty.r + wk.r, w)
  }

  /** Symbol.tri_value */
  ghost function TriBody(cfg: Config, u: User, s: nat, env: Env): Ev<Tri>
    requires WellFormed(cfg) && s < |cfg.syms|
  {
    var sym := cfg.syms[s];
    if !IsBoolTri(sym.origType) then Ev(0, {}, false) else
    var vis, r := T(env(VisC(SymI(s)))), {VisC(SymI(s))};
    if sym.choice.None? then
      var p := TriPlain(cfg, u, s, vis, env); Ev(p.v, r + p.r, p.w)
    else if vis == 2 then
      Ev(if O(env(SelC(sym.choice.value))) == Some(s) then 2 else 0, r + {SelC(sym.choice.value)}, true)
    else
      Ev(if vis != 0 && s in u.value && u.value[s] != UserTri(0) then 1 else 0, r, vis != 0)
  }

  function NumOr0(cfg: Config, text: string, base: nat): int {
    match cfg.num(text, base) case Some(n) => n case None => 0
  }

  /** The first range whose condition is not n. */
  ghost function ActiveRange(cfg: Config, u: User, gs: seq<Range>, base: nat, env: Env): Ev<Option<(int, int)>>
    requires RangesOk(cfg, gs)
  {
    if gs == [] then Ev(None, {}, false) else
    var k := EvalE(cfg, u, gs[0].cond, env);
    if k.v == 0 then
      var rest := ActiveRange(cfg, u, gs[1..], base, env); Ev(rest.v, k.r + rest.r, false)
    else
      var lo, hi := AtomStr(gs[0].low, env), AtomStr(gs[0].high, env);
      Ev(Some((NumOr0(cfg, lo.v, base), NumOr0(cfg, hi.v, base))), k.r + lo.r + hi.r, false)
  }

  /** The first default whose condition is not n, as a string. */
  ghost function StrDefault(cfg: Config, u: User, ds: seq<Default>, env: Env): Ev<Option<string>>
    requires StrDefaultsOk(cfg, ds)
  {
    if ds == [] then Ev(None, {}, false) else
    var k := EvalE(cfg, u, ds[0].cond, env);
    if k.v == 0 then
      var rest := StrDefault(cfg, u, ds[1..], env); Ev(rest.v, k.r + rest.r, false)
    else
      var x := AtomStr(ds[0].value.a, env); Ev(Some(x.v), k.r + x.r, false)
  }

  function Clamp(cfg: Config, ty: Type, text: string, range: Option<(int, int)>): string {
    if range.None? then text else
    var n := NumOr0(cfg, text, Base(ty));
    if n < range.value.0 then cfg.show(range.value.0, ty == HEX)
    else if n > range.value.1 then cfg.show(range.value.1, ty == HEX)
    else text
  }

  /** A non-empty user value that lies in the active range, if there is one. */
  function UserNumber(cfg: Config, u: User, s: nat, base: nat, range: Option<(int, int)>): Option<string> {
    if s in u.value && u.value[s].UserStr? && u.value[s].str != "" then
      var n := NumOr0(cfg, u.value[s].str, base);
      if range.Some? && !(range.value.0 <= n <= range.value.1) then None else Some(u.value[s].str)
    else None
  }

  ghost function NumberBody(cfg: Config, u: User, s: nat, vis: Tri, env: Env): Ev<string>
    requires WellFormed(cfg) && s < |cfg.syms| && IsIntHex(cfg.syms[s].origType)
  {
    var sym := cfg.syms[s];
    var base := Base(sym.origType);
    var g := ActiveRange(cfg, u, sym.ranges, base, env);
    var mine := UserNumber(cfg, u, s, base, g.v);
    if vis != 0 && mine.Some? then Ev(mine.value, g.r, true) else
    var d := StrDefault(cfg, u, sym.defaults, env);
    var text := if d.v.Some? then d.v.value else "";
    Ev(Clamp(cfg, sym.origType, text, g.v), g.r + d.r, vis != 0 || d.v.Some?)
  }

  /** Symbol.str_value */
  ghost function StrBody(cfg: Config, u: User, s: nat, env: Env): Ev<string>
    requires WellFormed(cfg) && s < |cfg.syms|
  {
    var sym := cfg.syms[s];
    if IsBoolTri(sym.origType) then Ev(TriStr(T(env(TriC(s)))), {TriC(s)}, false)
    else if sym.origType == UNKNOWN then Ev(sym.name, {}, false)
    else
      var vis, r := T(env(VisC(SymI(s)))), {VisC(SymI(s))};
      if IsIntHex(sym.origType) then
        var n := NumberBody(cfg, u, s, vis, env); Ev(n.v, r + n.r, n.w && !sym.auto)
      else if vis != 0 && s in u.value then
        Ev(if u.value[s].UserStr? then u.value[s].str else "", r, !sym.auto)
      else
        var d := StrDefault(cfg, u, sym.defaults, env);
        Ev(if d.v.Some? then d.v.value else "", r + d.r, (vis != 0 || d.v.Some?) && !sym.auto)
  }

  ghost function SelDefault(cfg: Config, u: User, ds: seq<ChoiceDefault>, env: Env): Ev<Option<nat>>
    requires ChoiceDefaultsOk(cfg, ds)
  {
    if ds == [] then Ev(None, {}, false) else
    var k := EvalE(cfg, u, ds[0].cond, env);
    if k.v != 0 && T(env(VisC(SymI(ds[0].sym)))) != 0 then
      Ev(Some(ds[0].sym), k.r + {VisC(SymI(ds[0].sym))}, false)
    else
      var rest := SelDefault(cfg, u, ds[1..], env);
      Ev(rest.v, k.r + rest.r + (if k.v != 0 then {VisC(SymI(ds[0].sym))} else {}), false)
  }

  ghost function FirstVisible(ss: seq<nat>, env: Env): Ev<Option<nat>> {
    if ss == [] then Ev(None, {}, false)
    else if T(env(VisC(SymI(ss[0])))) != 0 then Ev(Some(ss[0]), {VisC(SymI(ss[0]))}, false)
    else var rest := FirstVisible(ss[1..], env); Ev(rest.v, rest.r + {VisC(SymI(ss[0]))}, false)
  }

  /** Choice.selection */
  ghost function SelBody(cfg: Config, u: User, c: nat, env: Env): Ev<Option<nat>>
    requires WellFormed(cfg) && c < |cfg.choices|
  {
    var ch := cfg.choices[c];
    var k := ChoiceTri(cfg, u, c, env);
    if k.v != 2 then Ev(None, k.r, false) else
    var r := k.r + (if c in u.selection then {VisC(SymI(u.selection[c]))} else {});
    if c in u.selection && T(env(VisC(SymI(u.selection[c])))) != 0 then
      Ev(Some(u.selection[c]), r, false)
    else
      var d := SelDefault(cfg, u, ch.defaults, env);
      if d.v.Some? then Ev(d.v, r + d.r, false) else
      var f := FirstVisible(ch.syms, env); Ev(f.v, r + d.r + f.r, false)
  }

  ghost function Body(cfg: Config, u: User, c: Cell, env: Env): Ev<Value>
    requires WellFormed(cfg) && CellOk(cfg, c)
  {
    match c
    case VisC(SymI(s)) => var x := SymVis(cfg, u, s, env); Ev(TriV(x.v), x.r, x.w)
    case VisC(ChoiceI(k)) => var x := ChoiceVis(cfg, u, k, env); Ev(TriV(x.v), x.r, x.w)
    case TriC(s) => var x := TriBody(cfg, u, s, env); Ev(TriV(x.v), x.r, x.w)
    case StrC(s) => var x := StrBody(cfg, u, s, env); Ev(StrV(x.v), x.r, x.w)
    case SelC(k) => var x := SelBody(cfg, u, k, env); Ev(SelV(x.v), x.r, x.w)
  }
}
