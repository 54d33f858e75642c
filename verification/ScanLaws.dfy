/**
 * How the scans of two texts join, and that white space between tokens does not matter. Scanning is
 * shown to be compositional wherever two texts cannot grow together.
 */
module ScanLaws {
  import opened Wrappers
  import opened Ascii
  import opened Numerals
  import opened Syntax
  import opened Scanner
  import opened ScannerModes

  /** No word goes on from the end of s into t. */
  predicate Apart(s: string, t: string) {
    s == "" || t == "" || !IsWordChar(s[|s| - 1]) || !IsWordChar(t[0])
  }

  const LOWER := "abcdefghijklmnopqrstuvwxyz"
  const UPPER := "ABCDEFGHIJKLMNOPQRSTUVWXYZ"
  const DIGITS := "0123456789"

  lemma {:induction false} LowerAre(c: char)
    ensures 'a' <= c <= 'z' <==> c in LOWER
  {
  }

  lemma {:induction false} UpperAre(c: char)
    ensures 'A' <= c <= 'Z' <==> c in UPPER
  {
  }

  lemma {:induction false} LettersAre(c: char)
    ensures IsAlpha(c) <==> c in LOWER || c in UPPER
  {
    LowerAre(c);
    UpperAre(c);
    assert IsAlpha(c) <==> 'a' <= c <= 'z' || 'A' <= c <= 'Z';
  }

  lemma {:induction false} DigitsAre(c: char)
    ensures IsDigit(c) <==> c in DIGITS
  {
  }

  /** The characters that words and names are made of, */
  lemma {:induction false} WordCharsAre(c: char)
    ensures IsIdChar(c) <==> c in LOWER || c in UPPER || c in DIGITS || c in "_-"
    ensures IsWordChar(c) <==> c in LOWER || c in UPPER || c in DIGITS || c in "_-?*"
  {
    LettersAre(c);
    DigitsAre(c);
    hide IsAlpha, IsDigit;
  }

  /** and white space. */
  lemma {:induction false} SpacesAre(c: char)
    ensures IsCSpace(c) <==> c in " \t\n\r\U{0B}\U{0C}"
    ensures IsSpace(c) <==> c in " \t\n\r\U{0C}"
  {
  }

  predicate Blank(w: string) {
    forall i :: 0 <= i < |w| ==> IsCSpace(w[i])
  }

  /** One scan after another. */
  function Join(l: Lexed, k: Lexed): Lexed {
    Lexed(l.toks + k.toks, l.modes + k.modes, k.end)
  }

  lemma {:induction false} JoinCons(t: Token, m: Mode, l: Lexed, k: Lexed)
    ensures Join(Cons(t, m, l), k) == Cons(t, m, Join(l, k))
  {
  }

  lemma {:induction false} JoinNothing(m: Mode, k: Lexed)
    ensures Join(Lexed([], [], m), k) == k
  {
    assert [] + k.toks == k.toks && [] + k.modes == k.modes;
  }

  // White space

  lemma {:induction false} SpaceRule(m: Mode, s: string)
    requires !InQuotes(m) && s != "" && IsCSpace(s[0])
    ensures Next(m, s) == (SpacesRule, Run(s, IsCSpace))
  {
  }

  /** White space at the start is skipped. */
  lemma {:induction false} SkipSpaces(m: Mode, s: string)
    requires !InQuotes(m)
    ensures Lex(m, "", s) == Lex(m, "", s[Run(s, IsCSpace)..])
  {
    if s != "" && IsCSpace(s[0]) {
      SpaceRule(m, s);
    } else {
      assert s[0..] == s;
    }
  }

  lemma {:induction false} SpacesVanish(m: Mode, w: string, t: string)
    requires !InQuotes(m) && Blank(w)
    ensures Lex(m, "", w + t) == Lex(m, "", t)
  {
    hide Lex;
    var n := Run(t, IsCSpace);
    BlankRun(w, t);
    hide Blank;
    SkipSpaces(m, w + t);
    SkipSpaces(m, t);
    assert (w + t)[|w| + n..] == t[n..];
  }

  lemma {:induction false} BlankRun(w: string, t: string)
    requires Blank(w)
    ensures Run(w + t, IsCSpace) == |w| + Run(t, IsCSpace)
  {
    hide IsCSpace;
    var n := Run(t, IsCSpace);
    RunIs(w + t, IsCSpace, |w| + n);
  }

  // Texts one after the other

  lemma {:induction false} RunAppend(s: string, t: string, p: char -> bool)
    requires Run(s, p) < |s| || t == "" || !p(t[0])
    ensures Run(s + t, p) == Run(s, p)
  {
    RunIs(s + t, p, Run(s, p));
  }

  /** Where a word ends within s, or t does not go on with it, what follows does not matter. */
  lemma {:induction false} WordRunAppend(s: string, t: string, p: char -> bool)
    requires s != "" && Apart(s, t) && forall c :: p(c) ==> IsWordChar(c)
    ensures Run(s + t, p) == Run(s, p)
  {
    RunAppend(s, t, p);
  }

  lemma {:induction false} NextAppend(m: Mode, s: string, t: string)
    requires !InQuotes(m) && s != "" && Apart(s, t) && !IsCSpace(s[0])
    ensures Next(m, s + t) == Next(m, s)
  {
    WordRunAppend(s, t, IsWordChar);
    WordRunAppend(s, t, IsIdChar);
    WordRunAppend(s, t, IsDigit);
    assert (s + t)[0] == s[0];
    assert (s + t)[..Run(s, IsIdChar)] == s[..Run(s, IsIdChar)];
    hide Run, Keyword;
  }

  lemma {:induction false} ReadStringAppend(q: char, buf: string, s: string, t: string)
    requires ReadString(q, buf, s).Some?
    ensures var (v, rest) := ReadString(q, buf, s).value;
      ReadString(q, buf, s + t) == Some((v, rest + t)) && rest == s[|s| - |rest|..]
    decreases |s|
  {
    if s[0] == q {
      assert (s + t)[1..] == s[1..] + t;
    } else if s[0] == '\\' && |s| > 1 && s[1] == q {
      assert (s + t)[2..] == s[2..] + t;
      ReadStringAppend(q, buf + [q], s[2..], t);
    } else {
      assert (s + t)[1..] == s[1..] + t;
      assert |s| > 1;
      ReadStringAppend(q, buf + [s[0]], s[1..], t);
    }
  }

  /** The end of a text decides whether it is apart from the next one. */
  lemma {:induction false} ApartTail(s: string, n: nat, t: string)
    requires Apart(s, t) && n <= |s|
    ensures Apart(s[n..], t)
  {
  }

  /** Outside of quotes a rule leaves the buffer empty. */
  lemma {:induction false} BufferEmpty(m: Mode, s: string)
    requires !InQuotes(m) && s != "" && !IsCSpace(s[0])
    ensures var (r, n) := Next(m, s); var (m', buf', tok) := Act(r, s[..n], m, "");
      buf' == "" && (InQuotes(m') ==> m == Args && n == 1 && tok == None)
  {
    hide Run, Strtoull;
  }

  /** The first rule, and then the others. */
  lemma {:induction false} LexFirst(m: Mode, s: string)
    requires s != ""
    ensures var (r, n) := Next(m, s); var (m', buf', tok) := Act(r, s[..n], m, "");
      Lex(m, "", s) == if tok.None? then Lex(m', buf', s[n..]) else Cons(tok.value, m', Lex(m', buf', s[n..]))
  {
    hide Next, Act;
  }

  /**
   * The scans of two texts join, if no word goes on from one into the other and no quote is open
   * between them.
   */
  lemma {:induction false} LexAppend(m: Mode, s: string, t: string)
    requires !InQuotes(m) && !InQuotes(Lex(m, "", s).end) && Apart(s, t)
    ensures Lex(m, "", s + t) == Join(Lex(m, "", s), Lex(Lex(m, "", s).end, "", t))
    decreases |s|
  {
    hide Lex, Apart, Join;
    if s == "" {
      NothingFirst(m, t);
      assert s + t == t;
    } else if IsCSpace(s[0]) {
      SpacesFirst(m, s, t);
    } else {
      RuleFirst(m, s, t);
    }
  }

  lemma {:induction false} NothingFirst(m: Mode, t: string)
    ensures Lex(m, "", t) == Join(Lex(m, "", ""), Lex(Lex(m, "", "").end, "", t))
  {
    JoinNothing(m, Lex(m, "", t));
  }

  lemma {:induction false} RuleFirst(m: Mode, s: string, t: string)
    requires !InQuotes(m) && !InQuotes(Lex(m, "", s).end) && Apart(s, t) && s != "" && !IsCSpace(s[0])
    ensures Lex(m, "", s + t) == Join(Lex(m, "", s), Lex(Lex(m, "", s).end, "", t))
    decreases |s|, 0
  {
    hide Lex, Next, Act, Apart, IsCSpace, Join;
    var (r, n) := Next(m, s);
    var (m', buf', tok) := Act(r, s[..n], m, "");
    NextAppend(m, s, t);
    BufferEmpty(m, s);
    LexFirst(m, s);
    LexFirst(m, s + t);
    assert (s + t)[..n] == s[..n] && (s + t)[n..] == s[n..] + t;
    ApartTail(s, n, t);
    var l := Lex(m', "", s[n..]);
    if InQuotes(m') {
      StringFirst(m', s[n..], t);
    } else {
      LexAppend(m', s[n..], t);
    }
    if tok.Some? {
      JoinCons(tok.value, m', l, Lex(l.end, "", t));
    }
  }

  lemma {:induction false} SpacesFirst(m: Mode, s: string, t: string)
    requires !InQuotes(m) && !InQuotes(Lex(m, "", s).end) && Apart(s, t) && s != "" && IsCSpace(s[0])
    ensures Lex(m, "", s + t) == Join(Lex(m, "", s), Lex(Lex(m, "", s).end, "", t))
    decreases |s|, 0
  {
    hide Lex, Apart;
    var n := Run(s, IsCSpace);
    assert n > 0 && Blank(s[..n]);
    SkipSpaces(m, s);
    SpacesVanish(m, s[..n], s[n..] + t);
    assert s[..n] + (s[n..] + t) == s + t;
    ApartTail(s, n, t);
    hide Run, Blank, IsCSpace;
    LexAppend(m, s[n..], t);
  }

  /** s is what comes after an opening quote. */
  lemma {:induction false} StringFirst(q: Mode, s: string, t: string)
    requires InQuotes(q) && !InQuotes(Lex(q, "", s).end) && Apart(s, t)
    ensures Lex(q, "", s + t) == Join(Lex(q, "", s), Lex(Lex(q, "", s).end, "", t))
    decreases |s|, 0
  {
    LexString(q, "", s);
    LexString(q, "", s + t);
    hide Lex;
    var (v, rest) := ReadString(QuoteChar(q), "", s).value;
    ReadStringAppend(QuoteChar(q), "", s, t);
    ApartTail(s, |s| - |rest|, t);
    hide ReadString, Apart;
    LexAppend(Args, rest, t);
    JoinCons(Str(v), Args, Lex(Args, "", rest), Lex(Lex(Args, "", rest).end, "", t));
  }

  /** White space between tokens does not matter. */
  lemma {:induction false} SpacesBetween(s: string, w: string, t: string)
    requires !InQuotes(Lex(Initial, "", s).end) && Blank(w) && Apart(s, t)
    ensures Tokens(s + w + t) == Tokens(s + t)
  {
    hide Lex, Join, Apart;
    if w == "" {
      assert s + w == s;
    } else {
      SpaceIsApart(s, w, t);
      LexAppend(Initial, s, t);
      LexAppend(Initial, s, w + t);
      SpacesVanish(Lex(Initial, "", s).end, w, t);
      assert s + w + t == s + (w + t);
    }
  }

  lemma {:induction false} SpaceIsApart(s: string, w: string, t: string)
    requires Blank(w) && w != ""
    ensures Apart(s, w + t)
  {
    assert IsCSpace((w + t)[0]);
  }
}
