/**
 * The scanner's mode and the parser's position. Nothing but the tokens themselves connects the two;
 * for accepted texts they agree at every token.
 */
module ScannerModes {
  import opened Ascii
  import opened Numerals
  import opened Syntax
  import opened Grammar
  import opened PolicyGrammar
  import opened Scanner

  /** How a token returned outside of quotes changes the mode. */
  function ModeAfter(m: Mode, t: Token): Mode {
    if m == Initial && (t == KwUser || t == KwGroup || t.Id?) then BeforeArgs
    else if m == BeforeArgs && t == LPAREN then Args
    else if m == Args && t == RPAREN then Initial
    else m
  }

  function ModesAlong(m: Mode, toks: seq<Token>): (ms: seq<Mode>)
    ensures |ms| == |toks|
    decreases |toks|
  {
    if toks == [] then [] else
      var m' := ModeAfter(m, toks[0]);
      [m'] + ModesAlong(m', toks[1..])
  }

  function EndMode(m: Mode, toks: seq<Token>): Mode
    decreases |toks|
  {
    if toks == [] then m else EndMode(ModeAfter(m, toks[0]), toks[1..])
  }

  predicate InQuotes(m: Mode) {
    m == Quote || m == Squote
  }

  /** One token outside of quotes. */
  lemma {:induction false} ActMode(m: Mode, buf: string, s: string)
    requires !InQuotes(m) && s != ""
    ensures var (r, n) := Next(m, s);
      var (m', _, tok) := Act(r, s[..n], m, buf);
      (tok.Some? ==> m' == ModeAfter(m, tok.value)) && (tok.None? ==> m' == m || (m == Args && InQuotes(m')))
  {
    hide Run, Strtoull;
    var (r, n) := Next(m, s);
    assert s[..n][0] == s[0];
  }

  predicate ModesFit(m: Mode, l: Lexed) {
    l.modes == ModesAlong(m, l.toks) && (l.end == EndMode(m, l.toks) || (EndMode(m, l.toks) == Args && InQuotes(l.end)))
  }

  lemma {:induction false} ModesFitCons(m: Mode, t: Token, l: Lexed)
    requires ModesFit(ModeAfter(m, t), l)
    ensures ModesFit(m, Cons(t, ModeAfter(m, t), l))
  {
  }

  /**
   * The modes of a scan are those its tokens lead through; only an open string literal leaves another
   * one at the end.
   */
  lemma {:induction false} LexModes(m: Mode, buf: string, s: string)
    requires !InQuotes(m)
    ensures ModesFit(m, Lex(m, buf, s))
    decreases |s|
  {
    if s != "" {
      var (r, n) := Next(m, s);
      var (m', buf', tok) := Act(r, s[..n], m, buf);
      ActMode(m, buf, s);
      hide Next, Act, ModesFit, ModeAfter;
      if InQuotes(m') {
        LexString(m', buf', s[n..]);
        var read := ReadString(QuoteChar(m'), buf', s[n..]);
        hide ReadString;
        if read.Some? {
          var (v, rest) := read.value;
          LexModes(Args, "", rest);
          assert ModeAfter(Args, Str(v)) == Args by { StrKeepsMode(v); }
          ModesFitCons(Args, Str(v), Lex(Args, "", rest));
        } else {
          OpenString(m');
        }
      } else {
        LexModes(m', buf', s[n..]);
        if tok.Some? {
          ModesFitCons(m, tok.value, Lex(m', buf', s[n..]));
        }
      }
    }
  }

  lemma {:induction false} StrKeepsMode(v: string)
    ensures ModeAfter(Args, Str(v)) == Args
  {
  }

  lemma {:induction false} OpenString(m: Mode)
    requires InQuotes(m)
    ensures ModesFit(Args, Lexed([], [], m))
  {
  }

  // The parser's position

  /** The mode that belongs after each token of a term: the parenthesis is awaited, open, or closed. */
  function TermPositions(t: Term): seq<Mode> {
    match t
    case UserTerm(_) => [BeforeArgs, Args, Args, Initial]
    case UserGroupTerm(_, _) => [BeforeArgs, Args, Args, Args, Args, Initial]
    case GroupTerm(_) => [BeforeArgs, Args, Args, Initial]
    case CallTerm(_) => [BeforeArgs, Args, Initial]
    case CallParamTerm(_, _) => [BeforeArgs, Args, Args, Initial]
  }

  /** Outside of terms the position is always the outer one. */
  function Positions(d: Deriv): seq<Mode> {
    match d
    case DTerm(t) => TermPositions(t)
    case DNot(x) => [Initial] + Positions(x)
    case DParen(x) => [Initial] + Positions(x) + [Initial]
    case DBinary(_, l, r) => Positions(l) + [Initial] + Positions(r)
  }

  function EntryPositions(e: EntryDeriv): seq<Mode> {
    match e
    case DWildcard(_) => [Initial, Initial, Initial]
    case DRule(d, None) => Positions(d)
    case DRule(d, Some(_)) => Positions(d) + [Initial, Initial]
  }

  function EntriesPositions(es: seq<EntryDeriv>, semi: bool): seq<Mode>
    requires es != []
  {
    EntryPositions(es[0]) +
    if |es| == 1 then (if semi then [Initial] else []) else [Initial] + EntriesPositions(es[1..], semi)
  }

  function PolicyPositions(p: PolicyDeriv): seq<Mode>
    requires WellFormedPolicy(p)
  {
    if p.entries == [] then [Initial]
    else (if p.version.Some? then [Initial, Initial] else []) + EntriesPositions(p.entries, p.semi)
  }

  /** The tokens start and end outside of terms, and in between the modes are ms. */
  predicate Outside(toks: seq<Token>, ms: seq<Mode>) {
    ModesAlong(Initial, toks) == ms && EndMode(Initial, toks) == Initial
  }

  lemma {:induction false} ModesAppend(m: Mode, a: seq<Token>, b: seq<Token>)
    ensures ModesAlong(m, a + b) == ModesAlong(m, a) + ModesAlong(EndMode(m, a), b)
    ensures EndMode(m, a + b) == EndMode(EndMode(m, a), b)
    decreases |a|
  {
    if a == [] {
      assert a + b == b;
    } else {
      assert (a + b)[1..] == a[1..] + b;
      ModesAppend(ModeAfter(m, a[0]), a[1..], b);
    }
  }

  lemma {:induction false} OutsideAppend(a: seq<Token>, ma: seq<Mode>, b: seq<Token>, mb: seq<Mode>)
    requires Outside(a, ma) && Outside(b, mb)
    ensures Outside(a + b, ma + mb)
  {
    ModesAppend(Initial, a, b);
  }

  lemma {:induction false} OneToken(m: Mode, t: Token)
    ensures ModesAlong(m, [t]) == [ModeAfter(m, t)] && EndMode(m, [t]) == ModeAfter(m, t)
  {
  }

  lemma {:induction false} OutsideToken(t: Token)
    requires t != KwUser && t != KwGroup && !t.Id?
    ensures Outside([t], [Initial])
  {
  }

  /** n tokens inside parentheses leave the scanner there. */
  function Inside(n: nat): seq<Mode> {
    if n == 0 then [] else [Args] + Inside(n - 1)
  }

  lemma {:induction false} ArgsModes(inner: seq<Token>)
    requires RPAREN !in inner
    ensures ModesAlong(Args, inner) == Inside(|inner|) && EndMode(Args, inner) == Args
    decreases |inner|
  {
    if inner != [] {
      ArgsModes(inner[1..]);
    }
  }

  lemma {:induction false} CallModes(name: Token, inner: seq<Token>)
    requires (name == KwUser || name == KwGroup || name.Id?) && RPAREN !in inner
    ensures Outside([name, LPAREN] + inner + [RPAREN], [BeforeArgs, Args] + Inside(|inner|) + [Initial])
  {
    var open := [name, LPAREN];
    OneToken(Initial, name);
    OneToken(BeforeArgs, LPAREN);
    OneToken(Args, RPAREN);
    ArgsModes(inner);
    hide ModesAlong, EndMode, Inside;
    assert open == [name] + [LPAREN];
    ModesAppend(Initial, [name], [LPAREN]);
    ModesAppend(Initial, open, inner);
    ModesAppend(Initial, open + inner, [RPAREN]);
  }

  lemma {:induction false} InnerTokens(t: Term)
    requires WellFormedTerm(t)
    ensures var toks := TermYield(t);
      RPAREN !in toks[2..|toks| - 1] && (toks[0] == KwUser || toks[0] == KwGroup || toks[0].Id?)
  {
  }

  lemma {:induction false} TermOutside(t: Term)
    requires WellFormedTerm(t)
    ensures Outside(TermYield(t), TermPositions(t))
  {
    hide Outside, IdTokens;
    var toks := TermYield(t);
    var inner := toks[2..|toks| - 1];
    assert toks == [toks[0], LPAREN] + inner + [RPAREN];
    InnerTokens(t);
    CallModes(toks[0], inner);
    assert Inside(1) == [Args] && Inside(3) == [Args, Args, Args];
    assert TermPositions(t) == [BeforeArgs, Args] + Inside(|inner|) + [Initial];
    hide TermYield, TermPositions, Inside;
  }

  lemma {:induction false} ExprOutside(d: Deriv)
    requires WellFormed(d)
    ensures Outside(Yield(d), Positions(d))
  {
    hide Outside, TermYield, TermPositions;
    match d
    case DTerm(t) => TermOutside(t);
    case DNot(x) =>
      ExprOutside(x);
      OutsideToken(BANG);
      OutsideAppend([BANG], [Initial], Yield(x), Positions(x));
    case DParen(x) =>
      ExprOutside(x);
      OutsideToken(LPAREN);
      OutsideToken(RPAREN);
      OutsideAppend([LPAREN], [Initial], Yield(x), Positions(x));
      OutsideAppend([LPAREN] + Yield(x), [Initial] + Positions(x), [RPAREN], [Initial]);
    case DBinary(op, l, r) =>
      ExprOutside(l);
      ExprOutside(r);
      OutsideToken(OpToken(op));
      OutsideAppend(Yield(l), Positions(l), [OpToken(op)], [Initial]);
      OutsideAppend(Yield(l) + [OpToken(op)], Positions(l) + [Initial], Yield(r), Positions(r));
  }

  lemma {:induction false} EntryOutside(e: EntryDeriv)
    requires WellFormedEntry(e)
    ensures Outside(EntryYield(e), EntryPositions(e))
  {
    hide Outside;
    OutsideToken(EQUALS);
    match e
    case DWildcard(a) =>
      assert [Initial] + [Initial] == [Initial, Initial];
      OutsideToken(STAR);
      OutsideToken(AccessToken(a));
      OutsideAppend([STAR], [Initial], [EQUALS], [Initial]);
      assert [STAR] + [EQUALS] == [STAR, EQUALS];
      OutsideAppend([STAR, EQUALS], [Initial, Initial], [AccessToken(a)], [Initial]);
      assert [STAR, EQUALS] + [AccessToken(a)] == EntryYield(e);
      assert [Initial, Initial] + [Initial] == EntryPositions(e);
    case DRule(d, None) => ExprOutside(d);
    case DRule(d, Some(a)) =>
      ExprOutside(d);
      OutsideToken(AccessToken(a));
      OutsideAppend([EQUALS], [Initial], [AccessToken(a)], [Initial]);
      assert [EQUALS] + [AccessToken(a)] == [EQUALS, AccessToken(a)];
      OutsideAppend(Yield(d), Positions(d), [EQUALS, AccessToken(a)], [Initial, Initial]);
  }

  lemma {:induction false} EntriesOutside(es: seq<EntryDeriv>, semi: bool)
    requires es != [] && forall i :: 0 <= i < |es| ==> WellFormedEntry(es[i])
    ensures Outside(EntriesYield(es, semi), EntriesPositions(es, semi))
  {
    EntryOutside(es[0]);
    OutsideToken(SEMI);
    assert Outside([], []);
    hide Outside, EntryYield, EntryPositions;
    var first, ms := EntryYield(es[0]), EntryPositions(es[0]);
    if |es| == 1 {
      OutsideAppend(first, ms, if semi then [SEMI] else [], if semi then [Initial] else []);
    } else {
      EntriesOutside(es[1..], semi);
      OutsideAppend([SEMI], [Initial], EntriesYield(es[1..], semi), EntriesPositions(es[1..], semi));
      OutsideAppend(first, ms, [SEMI] + EntriesYield(es[1..], semi), [Initial] + EntriesPositions(es[1..], semi));
    }
  }

  lemma {:induction false} PolicyOutside(p: PolicyDeriv)
    requires WellFormedPolicy(p)
    ensures Outside(PolicyYield(p), PolicyPositions(p))
  {
    hide Outside, EntriesYield, EntriesPositions;
    if p.version.Some? {
      OutsideToken(Number(p.version.value));
      OutsideToken(SEMI);
      OutsideAppend([Number(p.version.value)], [Initial], [SEMI], [Initial]);
      assert [Number(p.version.value)] + [SEMI] == [Number(p.version.value), SEMI];
    }
    if p.entries != [] {
      EntriesOutside(p.entries, p.semi);
      var toks, ms := EntriesYield(p.entries, p.semi), EntriesPositions(p.entries, p.semi);
      if p.version.Some? {
        OutsideAppend([Number(p.version.value), SEMI], [Initial, Initial], toks, ms);
      } else {
        assert [] + toks == toks && [] + ms == ms;
      }
    }
  }

  /**
   * For every accepted text the scanner's mode agrees with the parser's position after every token,
   * and the scanner ends outside of all arguments and quotes.
   */
  lemma {:induction false} ModesAgree(env: Env, text: string)
    requires Compile(env, Tokens(text)).Some?
    ensures var p := ParsePolicy(Tokens(text)).value;
      WellFormedPolicy(p) && PolicyYield(p) == Tokens(text)
      && Lex(Initial, "", text).modes == PolicyPositions(p)
      && Lex(Initial, "", text).end == Initial
  {
    ParsePolicySound(Tokens(text));
    PolicyOutside(ParsePolicy(Tokens(text)).value);
    LexModes(Initial, "", text);
  }
}
