/** A printer of policies, and the proof that scanning and parsing undo it. */
module PolicyPrinter {
  import opened Wrappers
  import opened Ascii
  import opened Numerals
  import opened Syntax
  import opened Grammar
  import opened PolicyGrammar
  import opened Scanner
  import opened ScannerModes

  // Tokens as text

  /** The tokens a printed policy is made of, in the mode in which they are read back. */
  predicate Printable(m: Mode, t: Token) {
    match m
    case Initial =>
      t == KwUser || t == KwGroup || t == KwAllow || t == KwDeny ||
      (t.Id? && IsName(t.name)) || (t.Number? && 0 <= t.n < TWO_31) || (t.Char? && IsPunctuation(t.c))
    case BeforeArgs => t == LPAREN
    case Args =>
      t == RPAREN || t == COLON || t == Wild || (t.Number? && 0 <= t.n < TWO_31) || (t.Str? && !EndsInBackslash(t.text))
    case _ => false
  }

  predicate IsPunctuation(c: char) {
    c in "()!|&;=*"
  }

  /** Names that the scanner takes for identifiers. */
  predicate IsName(name: string) {
    && name != "" && IsAlpha(name[0])
    && (forall i :: 0 <= i < |name| ==> IsIdChar(name[i]))
    && Keyword(name) == IdRule
  }

  /** Tokens that would go on if the next character belonged to them. */
  predicate IsOpenEnded(t: Token) {
    !t.Char? && !t.Str?
  }

  /** Text of a token; string literals are written in the quote style q. */
  function Show(q: Mode, t: Token): string {
    match t
    case Number(n) => if n >= 0 then Decimal(n) else ""
    case Id(name) => name
    case Word(text) => text
    case Wild => "*"
    case Str(text) => [QuoteChar(q)] + Escape(QuoteChar(q), text) + [QuoteChar(q)]
    case KwUser => "user"
    case KwGroup => "group"
    case KwAllow => "allow"
    case KwDeny => "deny"
    case Error => ""
    case Char(c) => [c]
  }

  function ShowAll(q: Mode, toks: seq<Token>): string {
    if toks == [] then "" else Show(q, toks[0]) + ShowAll(q, toks[1..])
  }

  /** Every token is printable where it stands, and none can run into its successor. */
  predicate Legible(m: Mode, toks: seq<Token>)
    decreases |toks|
  {
    toks == [] ||
    (&& Printable(m, toks[0])
     && (IsOpenEnded(toks[0]) && |toks| > 1 ==> toks[1].Char? && toks[1].c != '*')
     && Legible(ModeAfter(m, toks[0]), toks[1..]))
  }

  // One token

  /** What follows a token does not continue it. */
  predicate Stops(rest: string) {
    rest == "" || (!IsWordChar(rest[0]) && !IsCSpace(rest[0]))
  }

  lemma {:induction false} RunShown(w: string, rest: string, p: char -> bool)
    requires forall i :: 0 <= i < |w| ==> p(w[i])
    requires rest != "" ==> !p(rest[0])
    ensures Run(w + rest, p) == |w|
  {
    RunIs(w + rest, p, |w|);
  }

  lemma {:induction false} LexStep(m: Mode, s: string, r: LexRule, w: string, rest: string, t: Token, m': Mode)
    requires s == w + rest && w != ""
    requires Next(m, s) == (r, |w|) && Act(r, w, m, "") == (m', "", Some(t))
    ensures Lex(m, "", s) == Cons(t, m', Lex(m', "", rest))
  {
  }

  lemma {:induction false} NumberShown(n: nat)
    requires n < TWO_31
    ensures NumberToken(Decimal(n)) == Number(n)
  {
    ReadDecimal(n);
  }

  lemma {:induction false} DigitsAreWordChars(s: string, n: nat)
    requires Run(s, IsDigit) == n
    requires n < |s| ==> !IsWordChar(s[n])
    ensures Run(s, IsWordChar) == n
  {
  }

  lemma {:induction false} LexNumber(m: Mode, n: nat, rest: string)
    requires (m == Initial || m == Args) && n < TWO_31 && Stops(rest)
    ensures Lex(m, "", Decimal(n) + rest) == Cons(Number(n), m, Lex(m, "", rest))
  {
    var w := Decimal(n);
    var s := w + rest;
    assert s[0] == w[0];
    RunShown(w, rest, IsDigit);
    DigitsAreWordChars(s, |w|);
    NumberShown(n);
    assert IsDigit(s[0]);
    hide Run, Decimal, NumberToken;
    LexStep(m, s, DigitsRule, w, rest, Number(n), m);
  }

  /** Keywords and names */
  lemma {:induction false} LexName(w: string, rest: string, t: Token, m': Mode)
    requires w != "" && IsAlpha(w[0]) && (forall i :: 0 <= i < |w| ==> IsIdChar(w[i]))
    requires Act(Keyword(w), w, Initial, "") == (m', "", Some(t))
    requires Stops(rest)
    ensures Lex(Initial, "", w + rest) == Cons(t, m', Lex(m', "", rest))
  {
    var s := w + rest;
    assert s[0] == w[0] && s[..|w|] == w;
    RunShown(w, rest, IsIdChar);
    hide Run, Keyword;
    LexStep(Initial, s, Keyword(w), w, rest, t, m');
  }

  lemma {:induction false} LexWild(rest: string)
    requires Stops(rest)
    ensures Lex(Args, "", "*" + rest) == Cons(Wild, Args, Lex(Args, "", rest))
  {
  }

  lemma {:induction false} LexChar(m: Mode, c: char, rest: string)
    requires Printable(m, Char(c))
    ensures Lex(m, "", [c] + rest) == Cons(Char(c), ModeAfter(m, Char(c)), Lex(ModeAfter(m, Char(c)), "", rest))
  {
    var s := [c] + rest;
    assert s[0] == c && s[1..] == rest;
    hide Run;
    LexStep(m, s, Next(m, s).0, [c], rest, Char(c), ModeAfter(m, Char(c)));
  }

  /** An opening quote switches to the mode of its string. */
  lemma {:induction false} LexOpen(q: Mode, s: string)
    requires InQuotes(q) && s != "" && s[0] == QuoteChar(q)
    ensures Lex(Args, "", s) == Lex(q, "", s[1..])
  {
  }

  lemma {:induction false} LexStr(q: Mode, v: string, rest: string)
    requires InQuotes(q) && !EndsInBackslash(v)
    ensures Lex(Args, "", Show(q, Str(v)) + rest) == Cons(Str(v), Args, Lex(Args, "", rest))
  {
    hide Lex, Escape, ReadString;
    var c := QuoteChar(q);
    var body := Escape(c, v) + [c] + rest;
    var s := Show(q, Str(v)) + rest;
    assert s == [c] + body && s[1..] == body;
    ReadEscaped(c, "", v, rest);
    assert "" + v == v;
    LexString(q, "", body);
    LexOpen(q, s);
  }

  lemma {:induction false} KeywordsAreNames()
    ensures Keyword("user") == UserRule && Keyword("group") == GroupRule && Keyword("allow") == AllowRule
      && Keyword("deny") == DenyRule
  {
  }

  /** A printable token is scanned back, whatever follows it. */
  lemma {:induction false} LexShown(q: Mode, m: Mode, t: Token, rest: string)
    requires InQuotes(q) && Printable(m, t)
    requires IsOpenEnded(t) ==> Stops(rest)
    ensures Lex(m, "", Show(q, t) + rest) == Cons(t, ModeAfter(m, t), Lex(ModeAfter(m, t), "", rest))
  {
    hide Lex, Run, Escape, Decimal, Stops, Keyword, EndsInBackslash;
    KeywordsAreNames();
    match t
    case Number(n) => LexNumber(m, n, rest);
    case Id(name) => LexName(name, rest, t, BeforeArgs);
    case Wild => LexWild(rest);
    case Str(v) => LexStr(q, v, rest);
    case KwUser => LexName("user", rest, t, BeforeArgs);
    case KwGroup => LexName("group", rest, t, BeforeArgs);
    case KwAllow => LexName("allow", rest, t, Initial);
    case KwDeny => LexName("deny", rest, t, Initial);
    case Char(c) => LexChar(m, c, rest);
  }

  /** Scanning undoes printing of tokens. */
  lemma {:induction false} LexShownAll(q: Mode, m: Mode, toks: seq<Token>)
    requires InQuotes(q) && Legible(m, toks)
    ensures Lex(m, "", ShowAll(q, toks)).toks == toks
    decreases |toks|
  {
    hide Lex, Printable, Show, ModeAfter;
    if toks == [] {
      assert Lex(m, "", "").toks == [] by { LexNothing(m); }
    } else {
      var rest := ShowAll(q, toks[1..]);
      if IsOpenEnded(toks[0]) && |toks| > 1 {
        assert Printable(ModeAfter(m, toks[0]), toks[1]);
        CharStops(q, ModeAfter(m, toks[0]), toks[1], ShowAll(q, toks[1..][1..]));
        assert toks[1..][0] == toks[1];
      }
      LexShown(q, m, toks[0], rest);
      LexShownAll(q, ModeAfter(m, toks[0]), toks[1..]);
    }
  }

  lemma {:induction false} LexNothing(m: Mode)
    ensures Lex(m, "", "").toks == []
  {
  }

  lemma {:induction false} CharStops(q: Mode, m: Mode, t: Token, rest: string)
    requires t.Char? && t.c != '*' && Printable(m, t)
    ensures Stops(Show(q, t) + rest)
  {
  }

  // Entries as derivations

  /** An action that the name in it leads back to. */
  predicate Usable(actions: seq<Action>, a: Action, id: nat, hasParam: bool) {
    a.id == id && hasParam == (a.args != 0) && IsName(a.name) && FindAction(actions, a.name) == Some(a)
  }

  function NameAmong(actions: seq<Action>, some: seq<Action>, id: nat, hasParam: bool): (r: Option<string>)
    ensures r.Some? <==> exists a :: a in some && Usable(actions, a, id, hasParam)
    ensures r.Some? ==> exists a :: a in some && Usable(actions, a, id, hasParam) && a.name == r.value
  {
    if some == [] then None
    else if Usable(actions, some[0], id, hasParam) then
      assert some[0] in some;
      Some(some[0].name)
    else
      var r := NameAmong(actions, some[1..], id, hasParam);
      assert forall a :: a in some ==> a == some[0] || a in some[1..];
      r
  }

  /** A name by which the policy can call for the action. */
  function NameFor(actions: seq<Action>, id: nat, hasParam: bool): Option<string> {
    NameAmong(actions, actions, id, hasParam)
  }

  predicate IsPrintableId(x: int) {
    x == WILDCARD || 0 <= x < TWO_31
  }

  /** Expressions that a policy text can denote. */
  predicate IsPrintable(env: Env, e: Expr) {
    match e
    case Identity(u, g) => IsPrintableId(u) && IsPrintableId(g)
    case Custom(id, param) => NameFor(env.actions, id, param.Some?).Some?
      && (param.Some? ==> !EndsInBackslash(param.value))
    case Not(x) => IsPrintable(env, x)
    case Binary(_, l, r) => IsPrintable(env, l) && IsPrintable(env, r)
  }

  function IdOf(x: int): IdSyntax {
    if x == WILDCARD then IdWild else IdNumber(x)
  }

  function TermOf(env: Env, e: Expr): Term
    requires (e.Identity? || e.Custom?) && IsPrintable(env, e)
  {
    match e
    case Identity(u, g) =>
      if g == WILDCARD then UserTerm(IdOf(u))
      else if u == WILDCARD then GroupTerm(IdOf(g))
      else UserGroupTerm(IdOf(u), IdOf(g))
    case Custom(id, param) =>
      var name := NameFor(env.actions, id, param.Some?).value;
      if param.Some? then CallParamTerm(name, Str(param.value)) else CallTerm(name)
  }

  /** Parentheses go around a left operand exactly if it is not a term. */
  function DerivOf(env: Env, e: Expr): Deriv
    requires IsPrintable(env, e)
  {
    match e
    case Not(x) => DNot(DerivOf(env, x))
    case Binary(op, l, r) =>
      var dl := DerivOf(env, l);
      DBinary(op, if l.Not? || l.Binary? then DParen(dl) else dl, DerivOf(env, r))
    case _ => DTerm(TermOf(env, e))
  }

  lemma {:induction false} TermOfValue(env: Env, e: Expr)
    requires (e.Identity? || e.Custom?) && IsPrintable(env, e)
    ensures WellFormedTerm(TermOf(env, e)) && TermValue(env, TermOf(env, e)) == Some(e)
  {
  }

  /** The derivation printed for an expression is right-nested and its tree is the expression. */
  lemma {:induction false} DerivOfValue(env: Env, e: Expr)
    requires IsPrintable(env, e)
    ensures var d := DerivOf(env, e); WellFormed(d) && RightNested(d) && Value(env, d) == Some(e)
  {
    match e
    case Not(x) => DerivOfValue(env, x);
    case Binary(op, l, r) =>
      DerivOfValue(env, l);
      DerivOfValue(env, r);
    case _ => TermOfValue(env, e);
  }

  // Legible token sequences

  lemma {:induction false} LegibleAppend(m: Mode, a: seq<Token>, b: seq<Token>)
    requires Legible(m, a) && Legible(EndMode(m, a), b)
    requires a != [] && b != [] && IsOpenEnded(a[|a| - 1]) ==> b[0].Char? && b[0].c != '*'
    ensures Legible(m, a + b)
    decreases |a|
  {
    hide Printable, ModeAfter;
    if a == [] {
      assert a + b == b;
    } else {
      assert (a + b)[1..] == a[1..] + b;
      LegibleAppend(ModeAfter(m, a[0]), a[1..], b);
    }
  }

  /** A legible sequence that starts and ends outside of arguments. */
  predicate Block(toks: seq<Token>) {
    Legible(Initial, toks) && EndMode(Initial, toks) == Initial
  }

  /** A block that ends in a parenthesis, as expressions do. */
  predicate ClosedBlock(toks: seq<Token>) {
    Block(toks) && toks != [] && toks[|toks| - 1] == RPAREN
  }

  lemma {:induction false} BlockAppend(a: seq<Token>, b: seq<Token>)
    requires Block(a) && Block(b)
    requires a != [] && b != [] && IsOpenEnded(a[|a| - 1]) ==> b[0].Char? && b[0].c != '*'
    ensures Block(a + b)
  {
    LegibleAppend(Initial, a, b);
    ModesAppend(Initial, a, b);
  }

  lemma {:induction false} BlockToken(t: Token)
    requires Printable(Initial, t) && ModeAfter(Initial, t) == Initial
    ensures Block([t])
  {
  }

  lemma {:induction false} LegibleCons(m: Mode, t: Token, rest: seq<Token>)
    requires Printable(m, t) && Legible(ModeAfter(m, t), rest)
    requires IsOpenEnded(t) && rest != [] ==> rest[0].Char? && rest[0].c != '*'
    ensures Legible(m, [t] + rest)
  {
  }

  /** Between the parentheses: nothing, one argument, or two with a colon. */
  predicate PrintableArgs(inner: seq<Token>) {
    || inner == []
    || (|inner| == 1 && PrintableArg(inner[0]))
    || (|inner| == 3 && PrintableArg(inner[0]) && inner[1] == COLON && PrintableArg(inner[2]))
  }

  predicate PrintableArg(t: Token) {
    Printable(Args, t) && t != RPAREN
  }

  lemma {:induction false} ArgsLegible(inner: seq<Token>)
    requires PrintableArgs(inner)
    ensures Legible(Args, inner + [RPAREN]) && RPAREN !in inner
  {
    LegibleCons(Args, RPAREN, []);
    assert [RPAREN] + [] == [RPAREN];
    if inner == [] {
      assert inner + [RPAREN] == [RPAREN];
    } else if |inner| == 1 {
      LegibleCons(Args, inner[0], [RPAREN]);
      assert inner == [inner[0]];
    } else {
      var tail := [inner[2]] + [RPAREN];
      LegibleCons(Args, inner[2], [RPAREN]);
      LegibleCons(Args, COLON, tail);
      LegibleCons(Args, inner[0], [COLON] + tail);
      assert inner + [RPAREN] == [inner[0]] + ([COLON] + tail);
    }
  }

  lemma {:induction false} CallBlock(name: Token, inner: seq<Token>)
    requires name == KwUser || name == KwGroup || (name.Id? && IsName(name.name))
    requires PrintableArgs(inner)
    ensures ClosedBlock([name, LPAREN] + inner + [RPAREN])
  {
    var args := inner + [RPAREN];
    ArgsLegible(inner);
    LegibleCons(BeforeArgs, LPAREN, args);
    LegibleCons(Initial, name, [LPAREN] + args);
    assert [name, LPAREN] + inner + [RPAREN] == [name] + ([LPAREN] + args);
    CallModes(name, inner);
  }

  lemma {:induction false} TermBlock(env: Env, e: Expr)
    requires (e.Identity? || e.Custom?) && IsPrintable(env, e)
    ensures ClosedBlock(TermYield(TermOf(env, e)))
  {
    hide ClosedBlock;
    var toks := TermYield(TermOf(env, e));
    match TermOf(env, e)
    case UserTerm(u) =>
      CallBlock(KwUser, [IdTokens(u)]);
      assert toks == [KwUser, LPAREN] + [IdTokens(u)] + [RPAREN];
    case UserGroupTerm(u, g) =>
      CallBlock(KwUser, [IdTokens(u), COLON, IdTokens(g)]);
      assert toks == [KwUser, LPAREN] + [IdTokens(u), COLON, IdTokens(g)] + [RPAREN];
    case GroupTerm(g) =>
      CallBlock(KwGroup, [IdTokens(g)]);
      assert toks == [KwGroup, LPAREN] + [IdTokens(g)] + [RPAREN];
    case CallTerm(name) =>
      CallBlock(Id(name), []);
      assert toks == [Id(name), LPAREN] + [] + [RPAREN];
    case CallParamTerm(name, p) =>
      CallBlock(Id(name), [p]);
      assert toks == [Id(name), LPAREN] + [p] + [RPAREN];
  }

  lemma {:induction false} ExprBlock(env: Env, e: Expr)
    requires IsPrintable(env, e)
    ensures ClosedBlock(Yield(DerivOf(env, e)))
  {
    hide Block, ClosedBlock, TermOf, TermYield, NameFor, EndsInBackslash;
    match e
    case Not(x) =>
      ExprBlock(env, x);
      NotBlock(Yield(DerivOf(env, x)));
    case Binary(op, l, r) =>
      ExprBlock(env, l);
      ExprBlock(env, r);
      var a, b := Yield(DerivOf(env, l)), Yield(DerivOf(env, r));
      ParenBlock(a);
      BinaryBlock(op, a, b);
      BinaryBlock(op, [LPAREN] + a + [RPAREN], b);
    case _ => TermBlock(env, e);
  }

  lemma {:induction false} NotBlock(a: seq<Token>)
    requires ClosedBlock(a)
    ensures ClosedBlock([BANG] + a)
  {
  }

  lemma {:induction false} ParenBlock(a: seq<Token>)
    requires ClosedBlock(a)
    ensures ClosedBlock([LPAREN] + a + [RPAREN])
  {
    BlockToken(LPAREN);
    BlockToken(RPAREN);
    hide Block;
    BlockAppend([LPAREN], a);
    BlockAppend([LPAREN] + a, [RPAREN]);
  }

  lemma {:induction false} BinaryBlock(op: BinOp, a: seq<Token>, b: seq<Token>)
    requires ClosedBlock(a) && ClosedBlock(b)
    ensures ClosedBlock(a + [OpToken(op)] + b)
  {
    BlockToken(OpToken(op));
    hide Block;
    BlockAppend(a, [OpToken(op)]);
    BlockAppend(a + [OpToken(op)], b);
  }

  // Policies

  predicate IsPrintableEntry(env: Env, e: Entry) {
    e.expr.Some? ==> IsPrintable(env, e.expr.value)
  }

  /** Deny is always written, allow only where it must be or where the style says so. */
  function EntryDerivOf(env: Env, e: Entry, explicit: bool): EntryDeriv
    requires IsPrintableEntry(env, e)
  {
    match e.expr
    case None => DWildcard(e.access)
    case Some(x) => DRule(DerivOf(env, x), if e.access == Allow && !explicit then None else Some(e.access))
  }

  /** How to print: string quotes, the leading version, the trailing semicolon, and which entries spell out "=allow". */
  datatype Style = Style(quotes: Mode, version: bool, semi: bool, explicit: seq<bool>)

  function EntryDerivsOf(env: Env, es: seq<Entry>, explicit: seq<bool>): (ds: seq<EntryDeriv>)
    requires |explicit| == |es| && forall i :: 0 <= i < |es| ==> IsPrintableEntry(env, es[i])
    ensures |ds| == |es|
  {
    if es == [] then [] else [EntryDerivOf(env, es[0], explicit[0])] + EntryDerivsOf(env, es[1..], explicit[1..])
  }

  function PolicyDerivOf(env: Env, es: seq<Entry>, style: Style): PolicyDeriv
    requires |style.explicit| == |es| && forall i :: 0 <= i < |es| ==> IsPrintableEntry(env, es[i])
  {
    DPolicy(if style.version then Some(FORMAT_VERSION) else None, EntryDerivsOf(env, es, style.explicit), style.semi)
  }

  lemma {:induction false} EntryDerivsValue(env: Env, es: seq<Entry>, explicit: seq<bool>)
    requires |explicit| == |es| && forall i :: 0 <= i < |es| ==> IsPrintableEntry(env, es[i])
    ensures var ds := EntryDerivsOf(env, es, explicit);
      GoodEntries(ds) && EntriesValue(env, ds) == Some(es)
    decreases |es|
  {
    if es != [] {
      var e, d, ds := es[0], EntryDerivOf(env, es[0], explicit[0]), EntryDerivsOf(env, es[1..], explicit[1..]);
      EntryDerivsValue(env, es[1..], explicit[1..]);
      if e.expr.Some? {
        DerivOfValue(env, e.expr.value);
      }
      GoodCons(d, ds);
      assert EntryValue(env, d) == Some(e);
      hide EntryValue, EntryDerivOf;
      assert ([d] + ds)[1..] == ds;
      assert [es[0]] + es[1..] == es;
    }
  }

  lemma {:induction false} EntryBlock(env: Env, e: Entry, explicit: bool)
    requires IsPrintableEntry(env, e)
    ensures Block(EntryYield(EntryDerivOf(env, e, explicit)))
  {
    BlockToken(EQUALS);
    BlockToken(AccessToken(e.access));
    BlockToken(STAR);
    if e.expr.Some? {
      ExprBlock(env, e.expr.value);
    }
    hide Block;
    BlockAppend([EQUALS], [AccessToken(e.access)]);
    assert [EQUALS] + [AccessToken(e.access)] == [EQUALS, AccessToken(e.access)];
    match e.expr
    case None =>
      BlockAppend([STAR], [EQUALS, AccessToken(e.access)]);
      assert [STAR] + [EQUALS, AccessToken(e.access)] == [STAR, EQUALS, AccessToken(e.access)];
    case Some(x) =>
      BlockAppend(Yield(DerivOf(env, x)), [EQUALS, AccessToken(e.access)]);
  }

  lemma {:induction false} EntriesBlock(env: Env, es: seq<Entry>, explicit: seq<bool>, semi: bool)
    requires |explicit| == |es| > 0 && forall i :: 0 <= i < |es| ==> IsPrintableEntry(env, es[i])
    ensures Block(EntriesYield(EntryDerivsOf(env, es, explicit), semi))
    decreases |es|
  {
    EntryBlock(env, es[0], explicit[0]);
    BlockToken(SEMI);
    assert Block([]);
    var ds := EntryDerivsOf(env, es, explicit);
    hide Block, EntryYield, EntryDerivOf;
    if |es| == 1 {
      BlockAppend(EntryYield(ds[0]), if semi then [SEMI] else []);
    } else {
      EntriesBlock(env, es[1..], explicit[1..], semi);
      assert ds[1..] == EntryDerivsOf(env, es[1..], explicit[1..]);
      var more := EntriesYield(ds[1..], semi);
      BlockAppend([SEMI], more);
      BlockAppend(EntryYield(ds[0]), [SEMI] + more);
    }
  }

  lemma {:induction false} VersionBlock(more: seq<Token>)
    requires Block(more)
    ensures Block([Number(FORMAT_VERSION), SEMI] + more)
  {
  }

  /** The printed policy. */
  function Print(env: Env, es: seq<Entry>, style: Style): string
    requires es != [] && |style.explicit| == |es| && forall i :: 0 <= i < |es| ==> IsPrintableEntry(env, es[i])
  {
    EntryDerivsValue(env, es, style.explicit);
    ShowAll(style.quotes, PolicyYield(PolicyDerivOf(env, es, style)))
  }

  /**
   * Scanning and parsing a printed policy gives back exactly the entries that were printed, in every
   * style, over any action table that has a name for each action used.
   */
  lemma {:induction false} RoundTrip(env: Env, es: seq<Entry>, style: Style)
    requires es != [] && |style.explicit| == |es| && forall i :: 0 <= i < |es| ==> IsPrintableEntry(env, es[i])
    requires InQuotes(style.quotes)
    ensures Compile(env, Tokens(Print(env, es, style))) == Some(es)
  {
    hide Block, EntriesYield, EntryDerivsOf, EntriesValue, ParsePolicy, PolicyYield, Lex, ShowAll, Legible,
         IsPrintableEntry;
    EntryDerivsValue(env, es, style.explicit);
    PolicyBlock(env, es, style);
    var p := PolicyDerivOf(env, es, style);
    LegibleBlock(PolicyYield(p));
    LexShownAll(style.quotes, Initial, PolicyYield(p));
    ParsePolicyComplete(p);
  }

  /** A printed policy starts and ends outside of arguments, and its tokens keep apart. */
  lemma {:induction false} PolicyBlock(env: Env, es: seq<Entry>, style: Style)
    requires es != [] && |style.explicit| == |es| && forall i :: 0 <= i < |es| ==> IsPrintableEntry(env, es[i])
    ensures WellFormedPolicy(PolicyDerivOf(env, es, style)) && Block(PolicyYield(PolicyDerivOf(env, es, style)))
  {
    hide Block, EntriesYield, EntryDerivsOf, EntriesValue, IsPrintableEntry;
    EntryDerivsValue(env, es, style.explicit);
    EntriesBlock(env, es, style.explicit, style.semi);
    var p := PolicyDerivOf(env, es, style);
    var toks := EntriesYield(p.entries, p.semi);
    VersionBlock(toks);
    assert [] + toks == toks;
  }

  lemma {:induction false} LegibleBlock(toks: seq<Token>)
    requires Block(toks)
    ensures Legible(Initial, toks)
  {
  }
}
