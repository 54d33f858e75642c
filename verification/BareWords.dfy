/**
 * When a parameter may be written without quotes, and when a number denotes itself. The documentation
 * asks for quotes around spaces; the scanner asks for more.
 */
module BareWords {
  import opened Wrappers
  import opened Ascii
  import opened Numerals
  import opened Syntax
  import opened Grammar
  import opened Scanner
  import opened PolicyPrinter

  /** A call with its parameter written as it is. */
  function BareCall(name: string, w: string): string {
    name + ("(" + (w + ")"))
  }

  /** The word is made of letters, digits and the four other characters of a word, and is no number. */
  predicate NeedsNoQuotes(w: string) {
    w != "" && (forall i :: 0 <= i < |w| ==> IsWordChar(w[i])) && exists i :: 0 <= i < |w| && !IsDigit(w[i])
  }

  /** The text is the call of the action with parameter w. */
  ghost predicate ReadsAs(text: string, name: string, w: string) {
    exists t :: IsParam(t) && ParamText(t) == w && ParseTerm(Tokens(text)) == Some((CallParamTerm(name, t), []))
  }

  lemma {:induction false} ReadStringLength(q: char, buf: string, s: string)
    requires ReadString(q, buf, s).Some?
    ensures |ReadString(q, buf, s).value.0| + 1 <= |buf| + |s|
    decreases |s|
  {
    if s[0] != q {
      if s[0] == '\\' && |s| > 1 && s[1] == q {
        ReadStringLength(q, buf + [q], s[2..]);
      } else {
        ReadStringLength(q, buf + [s[0]], s[1..]);
      }
    }
  }

  /** A parameter is a word that needs no quotes, or it is shorter than its text by at least two quotes. */
  lemma {:induction false} FirstParam(s: string)
    requires var toks := Lex(Args, "", s).toks; toks != [] && IsParam(toks[0])
    ensures var w := ParamText(Lex(Args, "", s).toks[0]); NeedsNoQuotes(w) || |w| + 2 <= |s|
    decreases |s|
  {
    hide NeedsNoQuotes;
    var (r, n) := Next(Args, s);
    match r
    case SpacesRule => FirstParam(s[n..]);
    case QuoteStart =>
      LexString(Quote, "", s[1..]);
      ReadStringLength('"', "", s[1..]);
    case SquoteStart =>
      LexString(Squote, "", s[1..]);
      ReadStringLength('\'', "", s[1..]);
    case WordRule => WordNeedsNoQuotes(s);
    case _ =>
  }

  lemma {:induction false} WordNeedsNoQuotes(s: string)
    requires s != "" && Next(Args, s).0 == WordRule
    ensures NeedsNoQuotes(s[..Next(Args, s).1])
  {
  }

  lemma {:induction false} LexCall(name: string, w: string)
    requires IsName(name)
    ensures Tokens(BareCall(name, w)) == [Id(name), LPAREN] + Lex(Args, "", w + ")").toks
  {
    hide Keyword, Next;
    LexName(name, "(" + (w + ")"), Id(name), BeforeArgs);
    LexChar(BeforeArgs, '(', w + ")");
  }

  lemma {:induction false} LexBareWord(w: string)
    requires NeedsNoQuotes(w)
    ensures Lex(Args, "", w + ")").toks == [if w == "*" then Wild else Word(w), RPAREN]
  {
    var s := w + ")";
    var i :| 0 <= i < |w| && !IsDigit(w[i]);
    assert s[0] == w[0] && s[i] == w[i];
    RunShown(w, ")", IsWordChar);
    hide Run;
    LexStep(Args, s, WordRule, w, ")", if w == "*" then Wild else Word(w), Args);
    LexChar(Args, ')', "");
    LexNothing(Initial);
  }

  lemma {:induction false} BareReads(name: string, w: string)
    requires IsName(name) && NeedsNoQuotes(w)
    ensures ReadsAs(BareCall(name, w), name, w)
  {
    hide BareCall, Tokens, Lex, ParseTerm, NeedsNoQuotes, IsName;
    LexCall(name, w);
    LexBareWord(w);
    var t := if w == "*" then Wild else Word(w);
    ParseTermYield(CallParamTerm(name, t), []);
    assert Tokens(BareCall(name, w)) == TermYield(CallParamTerm(name, t)) + [];
    assert IsParam(t) && ParamText(t) == w;
    hide TermYield;
  }

  lemma {:induction false} OnlyBareReads(name: string, w: string)
    requires IsName(name) && ReadsAs(BareCall(name, w), name, w)
    ensures NeedsNoQuotes(w)
  {
    var toks := Lex(Args, "", w + ")").toks;
    LexCall(name, w);
    hide BareCall, Tokens, Lex, ParseTerm, NeedsNoQuotes, IsName;
    var t :| IsParam(t) && ParamText(t) == w
      && ParseTerm(Tokens(BareCall(name, w))) == Some((CallParamTerm(name, t), []));
    assert ([Id(name), LPAREN] + toks)[2] == t;
    FirstParam(w + ")");
  }

  /** Quotes may be left out exactly around words that are not numbers. */
  lemma {:induction false} QuotesOptional(name: string, w: string)
    requires IsName(name)
    ensures ReadsAs(BareCall(name, w), name, w) <==> NeedsNoQuotes(w)
  {
    hide *;
    if NeedsNoQuotes(w) {
      BareReads(name, w);
    }
    if ReadsAs(BareCall(name, w), name, w) {
      OnlyBareReads(name, w);
    }
  }

  lemma {:induction false} NumberIsNoParam(name: string, n: int, rest: seq<Token>)
    ensures ParseTerm([Id(name), LPAREN] + ([Number(n)] + rest)) == None
  {
    assert ([Id(name), LPAREN] + ([Number(n)] + rest))[2..] == [Number(n)] + rest;
  }

  /** So a number has no spaces and still needs quotes: without them the call is no term at all. */
  lemma {:induction false} NumberNeedsQuotes(name: string, n: nat)
    requires IsName(name) && n < TWO_31
    ensures ' ' !in Decimal(n) && ParseTerm(Tokens(BareCall(name, Decimal(n)))) == None
  {
    hide Lex, Decimal, BareCall, Tokens, ParseTerm, IsName;
    LexCall(name, Decimal(n));
    LexNumber(Args, n, ")");
    NumberIsNoParam(name, n, Lex(Args, "", ")").toks);
  }

  // Numbers as ids

  /** A leading zero makes a number octal. */
  function NumeralBase(s: string): nat
    requires s != ""
  {
    if s[0] == '0' then 8 else 10
  }

  lemma {:induction false} NumeralRead(s: string)
    requires s != "" && forall i :: 0 <= i < |s| ==> IsDigit(s[i])
    ensures Strtoull(s, 0).1 == |s| <==> forall i :: 0 <= i < |s| ==> DigitValue(s[i]) < NumeralBase(s)
    ensures Strtoull(s, 0).1 == |s| ==> Strtoull(s, 0).0 == Saturate(DigitsValue(s, NumeralBase(s), 0))
  {
    var b := NumeralBase(s);
    StrtoullUnsigned(s, 0);
    assert |s| >= 2 ==> IsDigit(s[1]);
    assert ReadUnsigned(s, 0).1 == ReadDigits(s, b, 0).1;
    ReadDigitsOnly(s, b, 0);
    if forall i :: 0 <= i < |s| ==> DigitValue(s[i]) < b {
      ReadDigitsAll(s, "", b, 0);
      assert s + "" == s;
    }
  }

  lemma {:induction false} ToIntDenotes(ids: map<string, int>, v: nat)
    ensures IdValue(ids, IdNumber(ToInt(Saturate(v)))) == v <==> v < TWO_31
    ensures IdValue(ids, IdNumber(ToInt(Saturate(v)))) == WILDCARD <==> Saturate(v) / 0x8000_0000 % 2 == 1
  {
  }

  /**
   * A number in a policy is rejected if it has a leading zero and is not octal. Otherwise it denotes
   * the user or group with its value exactly if that is below 2^31, and it is the wildcard if bit 31
   * of its value, saturated at 64 bits, is set.
   */
  lemma {:induction false} NumberDenotes(ids: map<string, int>, s: string)
    requires s != "" && forall i :: 0 <= i < |s| ==> IsDigit(s[i])
    ensures var v := DigitsValue(s, NumeralBase(s), 0);
      if exists i :: 0 <= i < |s| && DigitValue(s[i]) >= NumeralBase(s) then NumberToken(s) == Error
      else
        && NumberToken(s).Number?
        && (IdValue(ids, IdNumber(NumberToken(s).n)) == v <==> v < 0x8000_0000)
        && (IdValue(ids, IdNumber(NumberToken(s).n)) == WILDCARD <==> Saturate(v) / 0x8000_0000 % 2 == 1)
  {
    NumeralRead(s);
    ToIntDenotes(ids, DigitsValue(s, NumeralBase(s), 0));
    hide Strtoull, DigitsValue, ToInt, IdValue;
  }

  /** The numbers from 2^31 to 2^32 - 1, which unsigned 32-bit ids can have, are read as the wildcard. */
  lemma {:induction false} HighNumbersAreWild(ids: map<string, int>, n: nat)
    requires 0x8000_0000 <= n < 0x1_0000_0000
    ensures NumberToken(Decimal(n)).Number? && IdValue(ids, IdNumber(NumberToken(Decimal(n)).n)) == WILDCARD
  {
    ReadDecimal(n);
    hide Strtoull, Decimal;
  }

  /** So 010 is 8. */
  lemma {:induction false} OctalSurprise()
    ensures NumberToken("010") == Number(8)
  {
    OctalForm("10");
    hide Strtoull;
    assert "010" == "0" + "10" && DigitsValue("10", 8, 0) == 8;
  }
}
