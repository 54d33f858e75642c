/**
 * The flex scanner: start conditions, rules, and the choice of the longest match, the first rule
 * winning a tie. Rule matching is described twice: as the regular expressions of the rules, and as
 * the direct choice by the next characters that is proved to be the same.
 */
module Scanner {
  import opened Wrappers
  import opened Ascii
  import opened Numerals
  import opened Syntax

  /** Start conditions */
  datatype Mode = Initial | BeforeArgs | Args | Squote | Quote

  /** The rules, in the order of the scanner file. */
  datatype LexRule =
    | QuoteEnd | SquoteEnd | QuoteEscape | SquoteEscape | StringNewline | StringChar
    | OpenArgs | SquoteStart | QuoteStart | CloseArgs
    | UserRule | GroupRule | AllowRule | DenyRule | DigitsRule | WordRule | IdRule | SpacesRule | CharRule

  function Index(r: LexRule): nat {
    match r
    case QuoteEnd => 0 case SquoteEnd => 1 case QuoteEscape => 2 case SquoteEscape => 3
    case StringNewline => 4 case StringChar => 5
    case OpenArgs => 6 case SquoteStart => 7 case QuoteStart => 8 case CloseArgs => 9
    case UserRule => 10 case GroupRule => 11 case AllowRule => 12 case DenyRule => 13
    case DigitsRule => 14 case WordRule => 15 case IdRule => 16 case SpacesRule => 17 case CharRule => 18
  }

  /** The start conditions of a rule. */
  predicate Applies(r: LexRule, mode: Mode) {
    match r
    case QuoteEnd => mode == Quote
    case QuoteEscape => mode == Quote
    case SquoteEnd => mode == Squote
    case SquoteEscape => mode == Squote
    case StringNewline => mode == Quote || mode == Squote
    case StringChar => mode == Quote || mode == Squote
    case OpenArgs => mode == BeforeArgs
    case SquoteStart => mode == Args
    case QuoteStart => mode == Args
    case CloseArgs => mode == Args
    case DigitsRule => mode == Initial || mode == Args
    case WordRule => mode == Args
    case SpacesRule => mode == Initial || mode == BeforeArgs || mode == Args
    case CharRule => mode == Initial || mode == BeforeArgs || mode == Args
    case _ => mode == Initial
  }

  /** [[:alnum:]_\-?*] */
  predicate IsWordChar(c: char) {
    IsAlnum(c) || c == '_' || c == '-' || c == '?' || c == '*'
  }

  /** [[:alnum:]_\-] */
  predicate IsIdChar(c: char) {
    IsAlnum(c) || c == '_' || c == '-'
  }

  ghost predicate All(w: string, p: char -> bool) {
    forall i :: 0 <= i < |w| ==> p(w[i])
  }

  /** The regular expression of a rule matches w. */
  ghost predicate Matches(r: LexRule, w: string) {
    match r
    case QuoteEnd => w == "\""
    case SquoteEnd => w == "'"
    case QuoteEscape => w == "\\\""
    case SquoteEscape => w == "\\'"
    case StringNewline => w == "\n"
    case StringChar => |w| == 1 && w != "\n"
    case OpenArgs => w == "("
    case SquoteStart => w == "'"
    case QuoteStart => w == "\""
    case CloseArgs => w == ")"
    case UserRule => w == "user"
    case GroupRule => w == "group"
    case AllowRule => w == "allow"
    case DenyRule => w == "deny"
    case DigitsRule => w != "" && All(w, IsDigit)
    case WordRule => w != "" && All(w, IsWordChar)
    case IdRule => w != "" && IsAlpha(w[0]) && All(w, IsIdChar)
    case SpacesRule => w != "" && All(w, IsCSpace)
    case CharRule => |w| == 1 && w != "\n"
  }

  /** flex's choice: no rule matches more of the text, and no earlier rule matches as much. */
  ghost predicate IsBest(mode: Mode, s: string, r: LexRule, n: nat) {
    && n <= |s|
    && Applies(r, mode) && Matches(r, s[..n])
    && forall r', n' :: 0 <= n' <= |s| && Applies(r', mode) && Matches(r', s[..n']) ==>
         n' < n || (n' == n && Index(r) <= Index(r'))
  }

  /** The choice made by looking at the next characters. */
  function Next(mode: Mode, s: string): (r: (LexRule, nat))
    requires s != ""
    ensures 0 < r.1 <= |s|
  {
    match mode
    case Quote => NextInString('"', QuoteEnd, QuoteEscape, s)
    case Squote => NextInString('\'', SquoteEnd, SquoteEscape, s)
    case BeforeArgs => if s[0] == '(' then (OpenArgs, 1) else NextOther(s)
    case Args =>
      if s[0] == '\'' then (SquoteStart, 1)
      else if s[0] == '"' then (QuoteStart, 1)
      else if s[0] == ')' then (CloseArgs, 1)
      else if IsWordChar(s[0]) then
        var n := Run(s, IsWordChar);
        (if Run(s, IsDigit) == n then DigitsRule else WordRule, n)
      else NextOther(s)
    case Initial =>
      if IsAlpha(s[0]) then
        var n := Run(s, IsIdChar);
        (Keyword(s[..n]), n)
      else if IsDigit(s[0]) then (DigitsRule, Run(s, IsDigit))
      else NextOther(s)
  }

  function NextInString(quote: char, end: LexRule, escape: LexRule, s: string): (r: (LexRule, nat))
    requires s != ""
    ensures 0 < r.1 <= |s|
  {
    if s[0] == quote then (end, 1)
    else if s[0] == '\\' && |s| > 1 && s[1] == quote then (escape, 2)
    else (if s[0] == '\n' then StringNewline else StringChar, 1)
  }

  function NextOther(s: string): (r: (LexRule, nat))
    requires s != ""
    ensures 0 < r.1 <= |s|
  {
    if IsCSpace(s[0]) then (SpacesRule, Run(s, IsCSpace)) else (CharRule, 1)
  }

  function Keyword(w: string): LexRule {
    if w == "user" then UserRule
    else if w == "group" then GroupRule
    else if w == "allow" then AllowRule
    else if w == "deny" then DenyRule
    else IdRule
  }

  /** In every mode some rule matches, so the scanner never jams, and Next finds the one flex picks. */
  lemma {:induction false} NextIsBest(mode: Mode, s: string)
    requires s != ""
    ensures IsBest(mode, s, Next(mode, s).0, Next(mode, s).1)
  {
    var (r, n) := Next(mode, s);
    NextMatches(mode, s);
    forall r', n' | 0 <= n' <= |s| && Applies(r', mode) && Matches(r', s[..n'])
      ensures n' < n || (n' == n && Index(r) <= Index(r'))
    {
      NoBetter(mode, s, r', n');
    }
  }

  lemma {:induction false} NextMatches(mode: Mode, s: string)
    requires s != ""
    ensures var (r, n) := Next(mode, s); Applies(r, mode) && Matches(r, s[..n])
  {
    if mode == Args {
      NextInArgs(s);
    } else {
      assert s[..1] == [s[0]];
    }
  }

  lemma {:induction false} NextInArgs(s: string)
    requires s != ""
    ensures var (r, n) := Next(Args, s); Applies(r, Args) && Matches(r, s[..n])
  {
    assert s[..1] == [s[0]];
    assert Run(s, IsDigit) <= Run(s, IsWordChar);
  }

  /** A keyword or an identifier is no longer than the run of identifier characters. */
  lemma {:induction false} NoBetterWord(s: string, r': LexRule, n': nat)
    requires s != "" && n' <= |s| && Matches(r', s[..n'])
    requires r' == UserRule || r' == GroupRule || r' == AllowRule || r' == DenyRule || r' == IdRule
    ensures var (r, n) := Next(Initial, s); n' < n || (n' == n && Index(r) <= Index(r'))
  {
  }

  lemma {:induction false} NoBetterRun(mode: Mode, s: string, r': LexRule, n': nat)
    requires s != "" && n' <= |s| && Applies(r', mode) && Matches(r', s[..n'])
    requires r' == DigitsRule || r' == WordRule || r' == SpacesRule
    ensures var (r, n) := Next(mode, s); n' < n || (n' == n && Index(r) <= Index(r'))
  {
  }

  lemma {:induction false} NoBetter(mode: Mode, s: string, r': LexRule, n': nat)
    requires s != "" && n' <= |s| && Applies(r', mode) && Matches(r', s[..n'])
    ensures var (r, n) := Next(mode, s); n' < n || (n' == n && Index(r) <= Index(r'))
  {
    if r' == DigitsRule || r' == WordRule || r' == SpacesRule {
      NoBetterRun(mode, s, r', n');
    } else if mode == Initial && r' != CharRule {
      NoBetterWord(s, r', n');
    } else {
      hide Run;
      assert s[..n'][0] == s[0];
    }
  }

  // Actions

  /** An unsigned long stored in an int. */
  function ToInt(v: nat): int {
    var low := v % TWO_32;
    if low < TWO_31 then low else low - TWO_32
  }

  /** number(): strtoul with base 0 must use up the digits. */
  function NumberToken(digits: string): Token {
    var (v, end) := Strtoull(digits, 0);
    if end == |digits| then Number(ToInt(v)) else Error
  }

  /** What the action of a rule does: the next mode, the string buffer and the token returned. */
  function Act(r: LexRule, text: string, mode: Mode, buf: string): (Mode, string, Option<Token>)
    requires text != ""
  {
    match r
    case QuoteEnd => (Args, "", Some(Str(buf)))
    case SquoteEnd => (Args, "", Some(Str(buf)))
    case QuoteEscape => (mode, buf + "\"", None)
    case SquoteEscape => (mode, buf + "'", None)
    case StringNewline => (mode, buf + [text[0]], None)
    case StringChar => (mode, buf + [text[0]], None)
    case OpenArgs => (Args, buf, Some(Char(text[0])))
    case SquoteStart => (Squote, "", None)
    case QuoteStart => (Quote, "", None)
    case CloseArgs => (Initial, buf, Some(Char(text[0])))
    case UserRule => (BeforeArgs, buf, Some(KwUser))
    case GroupRule => (BeforeArgs, buf, Some(KwGroup))
    case AllowRule => (mode, buf, Some(KwAllow))
    case DenyRule => (mode, buf, Some(KwDeny))
    case DigitsRule => (mode, buf, Some(NumberToken(text)))
    case WordRule => (mode, buf, Some(if text == "*" then Wild else Word(text)))
    case IdRule => (BeforeArgs, buf, Some(Id(text)))
    case SpacesRule => (mode, buf, None)
    case CharRule => (mode, buf, Some(Char(text[0])))
  }

  /** The tokens of a text, the mode after each of them, and the mode at the end of the text. */
  datatype Lexed = Lexed(toks: seq<Token>, modes: seq<Mode>, end: Mode)

  function Cons(t: Token, mode: Mode, l: Lexed): Lexed {
    Lexed([t] + l.toks, [mode] + l.modes, l.end)
  }

  function Lex(mode: Mode, buf: string, s: string): (l: Lexed)
    ensures |l.modes| == |l.toks|
    decreases |s|
  {
    if s == "" then Lexed([], [], mode) else
      var (r, n) := Next(mode, s);
      var (mode', buf', tok) := Act(r, s[..n], mode, buf);
      var l := Lex(mode', buf', s[n..]);
      match tok
      case None => l
      case Some(t) => Cons(t, mode', l)
  }

  function Tokens(text: string): seq<Token> {
    Lex(Initial, "", text).toks
  }

  // Quoted strings

  function QuoteChar(mode: Mode): char {
    if mode == Quote then '"' else '\''
  }

  /** The value of the string literal whose body starts here, and the text after its closing quote. */
  function ReadString(q: char, buf: string, s: string): (r: Option<(string, string)>)
    ensures r.Some? ==> |r.value.1| < |s|
    decreases |s|
  {
    if s == "" then None
    else if s[0] == q then Some((buf, s[1..]))
    else if s[0] == '\\' && |s| > 1 && s[1] == q then ReadString(q, buf + [q], s[2..])
    else ReadString(q, buf + [s[0]], s[1..])
  }

  /** In a quote mode the scanner reads a string literal or, if the closing quote is missing, no token at all. */
  lemma {:induction false} LexString(mode: Mode, buf: string, s: string)
    requires mode == Quote || mode == Squote
    ensures Lex(mode, buf, s) ==
            match ReadString(QuoteChar(mode), buf, s)
            case None => Lexed([], [], mode)
            case Some((v, rest)) => Cons(Str(v), Args, Lex(Args, "", rest))
    decreases |s|
  {
    hide Strtoull, Run, NextOther, Keyword;
    if s != "" {
      var (r, n) := Next(mode, s);
      if r == QuoteEscape || r == SquoteEscape || r == StringNewline || r == StringChar {
        LexString(mode, buf + (if n == 2 then [QuoteChar(mode)] else [s[0]]), s[n..]);
      }
    }
  }

  /** Put a backslash before every quote, and before nothing else. */
  function Escape(q: char, v: string): string {
    if v == "" then "" else (if v[0] == q then ['\\', q] else [v[0]]) + Escape(q, v[1..])
  }

  predicate EndsInBackslash(v: string) {
    v != "" && v[|v| - 1] == '\\'
  }

  lemma {:induction false} ReadEscaped(q: char, buf: string, v: string, rest: string)
    requires q != '\\' && !EndsInBackslash(v)
    ensures ReadString(q, buf, Escape(q, v) + [q] + rest) == Some((buf + v, rest))
    decreases |v|
  {
    var s := Escape(q, v) + [q] + rest;
    if v == "" {
      assert s[1..] == rest && buf + v == buf;
    } else {
      var s' := Escape(q, v[1..]) + [q] + rest;
      ReadEscaped(q, buf + [v[0]], v[1..], rest);
      assert buf + [v[0]] + v[1..] == buf + v;
      if v[0] == q {
        assert s[2..] == s';
      } else {
        assert s[1..] == s';
        if v[0] == '\\' {
          assert v[1..] != "" && s'[0] != q;
        }
      }
    }
  }

  lemma {:induction false} ReadStringEnd(q: char, buf: string, s: string)
    requires q != '\\' && (EndsInBackslash(buf) ==> s != "" && s[0] != q)
    requires ReadString(q, buf, s).Some?
    ensures !EndsInBackslash(ReadString(q, buf, s).value.0)
    decreases |s|
  {
    if s[0] != q {
      if s[0] == '\\' && |s| > 1 && s[1] == q {
        ReadStringEnd(q, buf + [q], s[2..]);
      } else {
        ReadStringEnd(q, buf + [s[0]], s[1..]);
      }
    }
  }

  /**
   * A quoted parameter denotes exactly the strings that do not end in a backslash: escaping the
   * quotes is undone by scanning, and no terminated literal yields anything else.
   */
  lemma {:induction false} QuotedStrings(q: char, v: string)
    requires q != '\\'
    ensures !EndsInBackslash(v) <==> exists s, rest :: ReadString(q, "", s) == Some((v, rest))
  {
    if !EndsInBackslash(v) {
      ReadEscaped(q, "", v, "");
      assert "" + v == v;
      assert ReadString(q, "", Escape(q, v) + [q] + "") == Some((v, ""));
    }
    forall s, rest | ReadString(q, "", s) == Some((v, rest)) ensures !EndsInBackslash(v) {
      ReadStringEnd(q, "", s);
    }
  }
}
