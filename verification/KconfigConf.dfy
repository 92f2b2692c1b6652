/** The lines of a .config file on their way back: what a line assigns when it is loaded. */
module KconfigConf {
  import opened Basics
  import opened KconfigModel
  import opened KconfigFresh
  import opened KconfigStrings
  import opened KconfigEngine
  import opened KconfigLaws
  import opened KconfigTexts

  /** The first place where c stands, or the end. */
  function Find(s: string, c: char): (k: nat)
    ensures k <= |s| && c !in s[..k] && (k < |s| ==> s[k] == c)
  {
    if s == "" || s[0] == c then 0 else
    var k := Find(s[1..], c);
    assert s[..1 + k] == [s[0]] + s[1..][..k];
    1 + k
  }

  predicate IsSpace(c: char) { c in {' ', '\t', '\n', '\r'} }

  /** rstrip() */
  function RStrip(s: string): string {
    if s != "" && IsSpace(s[|s| - 1]) then RStrip(s[..|s| - 1]) else s
  }

  /** _set_match: the name and the value of an assignment. */
  function SetMatch(prefix: string, line: string): Option<(string, string)> {
    if !(prefix <= line) then None else
    var rest := line[|prefix|..];
    var e := Find(rest, '=');
    if e == 0 || e == |rest| then None else Some((rest[..e], rest[e + 1..]))
  }

  /** _unset_match: the name in a comment that says it is not set. */
  function UnsetMatch(prefix: string, line: string): Option<string> {
    if !("# " + prefix <= line) then None else
    var rest := line[2 + |prefix|..];
    var e := Find(rest, ' ');
    if e == 0 || !(" is not set" <= rest[e..]) then None else Some(rest[..e])
  }

  /** What _load_config passes to set_value() of a symbol for a line, if anything. */
  function Assigned(sym: Symbol, prefix: string, text: string): Option<UserValue> {
    var line := RStrip(text);
    match SetMatch(prefix, line)
    case Some((name, val)) =>
      if name != sym.name || sym.origType == UNKNOWN then None
      else if IsBoolTri(sym.origType) then
        if val != "" && (val[0] == 'y' || val[0] == 'n' || (val[0] == 'm' && sym.origType == TRISTATE)) then Some(UserStr([val[0]])) else None
      else if sym.origType == STRING then
        var q := QuotedText(val);
        if q.Some? then Some(UserStr(Unescape(q.value))) else None
      else Some(UserStr(val))
    case None => if UnsetMatch(prefix, line) == Some(sym.name) && IsBoolTri(sym.origType) then Some(UserStr("n")) else None
  }

  // ---- what is written reads back ----

  lemma {:induction false} FindIn(a: string, c: char, b: string)
    requires c !in a
    ensures Find(a + [c] + b, c) == |a|
  {
    if a != "" {
      FindIn(a[1..], c, b);
      assert (a + [c] + b)[1..] == a[1..] + [c] + b;
    }
  }

  lemma Stripped(s: string)
    requires s != "" && !IsSpace(s[|s| - 1])
    ensures RStrip(s + "\n") == s
  {
    assert (s + "\n")[..|s|] == s;
  }

  ghost predicate NameOk(name: string) { name != "" && '=' !in name && ' ' !in name }

  lemma SetLine(prefix: string, name: string, val: string)
    requires NameOk(name)
    ensures SetMatch(prefix, prefix + name + "=" + val) == Some((name, val))
  {
    var line := prefix + name + "=" + val;
    var rest := line[|prefix|..];
    assert rest == name + ['='] + val;
    FindIn(name, '=', val);
    assert rest[..|name|] == name && rest[|name| + 1..] == val;
  }

  lemma UnsetLine(prefix: string, name: string)
    requires NameOk(name) && '=' !in prefix
    ensures var line := "# " + prefix + name + " is not set"; SetMatch(prefix, line) == None && UnsetMatch(prefix, line) == Some(name)
  {
    var line := "# " + prefix + name + " is not set";
    var rest := line[2 + |prefix|..];
    assert "# " + prefix == line[..2 + |prefix|];
    assert rest == name + [' '] + "is not set";
    FindIn(name, ' ', "is not set");
    assert rest[..|name|] == name && rest[|name|..] == " is not set";
    assert '=' !in line;
  }

  /** A value as the file can hold it: a tristate value of the right type, a string, or a
      number without space behind it. */
  ghost predicate Holds(ty: Type, val: string) {
    match ty
    case BOOL => val in {"n", "y"}
    case TRISTATE => val in {"n", "m", "y"}
    case STRING => true
    case UNKNOWN => false
    case _ => val != "" ==> !IsSpace(val[|val| - 1])
  }

  /** The value that stands for a text. */
  ghost function Means(ty: Type, val: string): UserValue {
    if IsBoolTri(ty) then UserTri(if val == "n" then 0 else if val == "m" then 1 else 2) else UserStr(val)
  }

  /** Loading the line that was written for a symbol sets it to the value it had. */
  lemma LineReadsBack(sym: Symbol, prefix: string, val: string)
    requires NameOk(sym.name) && '=' !in prefix && Holds(sym.origType, val)
    ensures var a := Assigned(sym, prefix, ConfigLine(sym, prefix, val, true));
            a.Some? && Normalize(sym.origType, a.value) == Means(sym.origType, val)
  {
    hide SetMatch, UnsetMatch, RStrip, QuotedText, Unescape, Escape;
    if IsBoolTri(sym.origType) && val == "n" {
      UnsetLine(prefix, sym.name);
      Stripped("# " + prefix + sym.name + " is not set");
      assert "# " + prefix + sym.name + " is not set\n" == "# " + prefix + sym.name + " is not set" + "\n";
    } else {
      var text := if sym.origType == STRING then "\"" + Escape(val) + "\"" else val;
      var line := prefix + sym.name + "=" + text;
      SetLine(prefix, sym.name, text);
      Stripped(line);
      if sym.origType == STRING {
        StringRoundTrip(val, "");
        assert "\"" + Escape(val) + "\"" + "" == text;
        assert prefix + sym.name + "=\"" + Escape(val) + "\"\n" == line + "\n";
      }
    }
  }

  /** A bool symbol is never m. */
  lemma BoolIsNeverM(cfg: Config, rank: Rank, u: User, s: nat)
    requires Sound(cfg, rank, u) && s < |cfg.syms| && cfg.syms[s].origType == BOOL
    ensures TriOf(cfg, rank, u, s) != 1
  {
    hide WellFormed, Ranked, Fresh, EvalE, Largest, Hidden, OwnValue, Promotes;
    if cfg.syms[s].choice.None? { TriLaws(cfg, rank, u, s); } else {
      VisMeans(cfg, rank, u, s);
      MemberBody(cfg, rank, u, s);
    }
  }

  /** Saving a bool or tristate symbol and loading the line makes its value the user's. */
  lemma SavedValueLoads(cfg: Config, rank: Rank, u: User, s: nat, prefix: string)
    requires Sound(cfg, rank, u) && s < |cfg.syms| && IsBoolTri(cfg.syms[s].origType)
    requires NameOk(cfg.syms[s].name) && '=' !in prefix
    ensures var a := Assigned(cfg.syms[s], prefix, ConfigLine(cfg.syms[s], prefix, StrOf(cfg, rank, u, s), true));
            && a.Some? && Normalize(cfg.syms[s].origType, a.value) == UserTri(TriOf(cfg, rank, u, s))
            && ValidFor(cfg, cfg.syms[s].origType, UserTri(TriOf(cfg, rank, u, s)))
  {
    hide WellFormed, Ranked, Fresh, NameOk, Assigned, ConfigLine, Normalize, SymbolOk;
    StrMeans(cfg, rank, u, s);
    if cfg.syms[s].origType == BOOL { BoolIsNeverM(cfg, rank, u, s); }
    LineReadsBack(cfg.syms[s], prefix, StrOf(cfg, rank, u, s));
  }

  // ---- what setting a value brings about ----

  /** What set_value() takes: n, m and y as numbers or letters, m for tristate symbols only,
      and texts for the others, of numbers where the symbol is one. */
  lemma AcceptedForms(cfg: Config, ty: Type, v: UserValue)
    ensures ValidFor(cfg, ty, Normalize(ty, v)) <==>
            match ty
            case UNKNOWN => false
            case BOOL => v in {UserTri(0), UserTri(2), UserStr("n"), UserStr("y")}
            case TRISTATE => v.UserTri? || v in {UserStr("n"), UserStr("m"), UserStr("y")}
            case STRING => v.UserStr?
            case INT => v.UserStr? && cfg.num(v.str, 10).Some?
            case HEX => v.UserStr? && exists n: nat :: cfg.num(v.str, 16) == Some(n)
  {
  }

  /** A value set for a symbol outside choices is the symbol's value unless it is above the
      visibility, below what is selected, or an m that stands for y. */
  lemma SetTakes(cfg: Config, rank: Rank, u: User, s: nat, v: Tri)
    requires Sound(cfg, rank, u) && s < |cfg.syms| && IsBoolTri(cfg.syms[s].origType) && cfg.syms[s].choice.None?
    ensures var w := WithValue(cfg, u, s, UserTri(v));
            && Sound(cfg, rank, w)
            && (1 <= v <= VisOf(cfg, rank, w, SymI(s)) || (v == 0 && VisOf(cfg, rank, w, SymI(s)) != 0) ==>
                TriOf(cfg, rank, w, s) ==
                  var p := Max(v, Val(cfg, rank, w, cfg.syms[s].revDep)); if p == 1 && Promotes(cfg, rank, w, s) then 2 else p)
  {
    hide WellFormed, Ranked, Fresh, EvalE, DefaultIs, Promotes;
    TriMeans(cfg, rank, WithValue(cfg, u, s, UserTri(v)), s);
  }

  /** A member of a choice in y mode that is set to y is chosen as far as it is visible, and
      every other member is n. */
  lemma ChoosingTakes(cfg: Config, rank: Rank, u: User, s: nat, t: nat)
    requires Sound(cfg, rank, u) && s < |cfg.syms| && t < |cfg.syms| && s != t
    requires IsBoolTri(cfg.syms[s].origType) && IsBoolTri(cfg.syms[t].origType)
    requires cfg.syms[s].choice.Some? && cfg.syms[t].choice == cfg.syms[s].choice
    ensures var c, w := cfg.syms[s].choice.value, WithValue(cfg, u, s, UserTri(2));
            && c < |cfg.choices| && Sound(cfg, rank, w)
            && (ModeOf(cfg, rank, w, c) == 2 && Visible(cfg, rank, w, s) ==>
                SelOf(cfg, rank, w, c) == Some(s) && TriOf(cfg, rank, w, s) == 2 && TriOf(cfg, rank, w, t) == 0)
  {
    hide WellFormed, Ranked, Fresh, EvalE, DefaultSelection, Visible;
    SymIsMember(cfg, s);
    var c, w := cfg.syms[s].choice.value, WithValue(cfg, u, s, UserTri(2));
    SelMeans(cfg, rank, w, c);
    OneIsChosen(cfg, rank, w, c, s);
    OneIsChosen(cfg, rank, w, c, t);
  }
}
