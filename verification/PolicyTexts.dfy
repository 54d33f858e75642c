/**
 * What policy texts mean, piece by piece and character by character: every way of building a text
 * from smaller ones, with the decision of the whole in terms of its parts.
 */
module PolicyTexts {
  import opened Wrappers
  import opened Ascii
  import opened Numerals
  import opened Syntax
  import opened Grammar
  import opened PolicyGrammar
  import opened Policy
  import opened Scanner
  import opened ScannerModes
  import opened ScanLaws
  import opened PolicyPrinter
  import opened BareWords
  import opened Meaning
  import EndToEnd

  // Texts of expressions

  /** The tokens of the text are those of the derivation, as the parser reads them. */
  ghost predicate Reads(env: Env, s: string, d: Deriv, e: Expr) {
    WellFormed(d) && RightNested(d) && Yield(d) == Tokens(s) && Value(env, d) == Some(e)
  }

  ghost predicate IsExprText(env: Env, s: string) {
    exists d, e :: Reads(env, s, d, e)
  }

  /** A term or a text in parentheses: what may stand to the left of an operator. */
  ghost predicate IsPrimaryText(env: Env, s: string) {
    exists d, e :: Reads(env, s, d, e) && (d.DTerm? || d.DParen?)
  }

  ghost function ExprOf(env: Env, s: string): (e: Expr)
    requires IsExprText(env, s)
    ensures exists d :: Reads(env, s, d, e)
  {
    var d, e :| Reads(env, s, d, e);
    e
  }

  /** The text applies to the check. */
  ghost predicate Says(ps: Patterns, env: Env, s: string, pc: Check)
    requires IsExprText(env, s)
  {
    Match(ps, CompileExpr(ExprOf(env, s)), pc)
  }

  lemma {:induction false} OneReading(env: Env, s: string, d: Deriv, e: Expr, d': Deriv, e': Expr)
    requires Reads(env, s, d, e) && Reads(env, s, d', e')
    ensures d == d' && e == e'
  {
    hide WellFormed, RightNested, Yield, Value, Tokens;
    RightNestedUnique(d, d');
  }

  lemma {:induction false} ExprIs(env: Env, s: string, d: Deriv, e: Expr)
    requires Reads(env, s, d, e)
    ensures IsExprText(env, s) && ExprOf(env, s) == e
    ensures d.DTerm? || d.DParen? ==> IsPrimaryText(env, s)
  {
    hide Reads;
    assert IsExprText(env, s);
    var e' := ExprOf(env, s);
    var d' :| Reads(env, s, d', e');
    OneReading(env, s, d, e, d', e');
  }

  lemma {:induction false} PrimaryIsExpr(env: Env, s: string)
    requires IsPrimaryText(env, s)
    ensures IsExprText(env, s)
  {
    var d, e :| Reads(env, s, d, e) && (d.DTerm? || d.DParen?);
    assert Reads(env, s, d, e);
  }

  /** Expressions end outside of arguments. */
  lemma {:induction false} ExprEnds(env: Env, s: string, d: Deriv, e: Expr)
    requires Reads(env, s, d, e)
    ensures Lex(Initial, "", s).end == Initial
  {
    ExprOutside(d);
    LexModes(Initial, "", s);
    hide Lex, Yield, ModesAlong, EndMode;
  }

  // Operators

  /** Tokens of a text with one character between two texts. */
  lemma {:induction false} JoinedTokens(s: string, c: char, t: string)
    requires Lex(Initial, "", s).end == Initial && IsPunctuation(c) && c != '*'
    ensures Tokens(s + [c] + t) == Tokens(s) + [Char(c)] + Tokens(t)
  {
    LexChar(Initial, c, t);
    LexAppend(Initial, s, [c] + t) by { NotInWord(c, t, s); }
    hide Lex;
    assert s + [c] + t == s + ([c] + t);
    assert ModeAfter(Initial, Char(c)) == Initial;
  }

  lemma {:induction false} NotInWord(c: char, t: string, s: string)
    requires IsPunctuation(c) && c != '*'
    ensures Apart(s, [c] + t)
  {
  }

  lemma {:induction false} FirstToken(c: char, t: string)
    requires IsPunctuation(c) && c != '*'
    ensures Tokens([c] + t) == [Char(c)] + Tokens(t)
  {
    LexChar(Initial, c, t);
    hide Lex;
  }

  /** "&" is and, for any text in place of l and r. */
  lemma {:induction false} AndText(ps: Patterns, env: Env, l: string, r: string, pc: Check)
    requires IsPrimaryText(env, l) && IsExprText(env, r)
    ensures IsExprText(env, l) && IsExprText(env, l + "&" + r)
    ensures Says(ps, env, l + "&" + r, pc) <==> Says(ps, env, l, pc) && Says(ps, env, r, pc)
  {
    BinaryText(env, l, '&', r, And);
    hide ExprOf, IsExprText, IsPrimaryText;
  }

  /** "|" is or. */
  lemma {:induction false} OrText(ps: Patterns, env: Env, l: string, r: string, pc: Check)
    requires IsPrimaryText(env, l) && IsExprText(env, r)
    ensures IsExprText(env, l) && IsExprText(env, l + "|" + r)
    ensures Says(ps, env, l + "|" + r, pc) <==> Says(ps, env, l, pc) || Says(ps, env, r, pc)
  {
    BinaryText(env, l, '|', r, Or);
    hide ExprOf, IsExprText, IsPrimaryText;
  }

  lemma {:induction false} BinaryText(env: Env, l: string, c: char, r: string, op: BinOp)
    requires IsPrimaryText(env, l) && IsExprText(env, r) && Char(c) == OpToken(op)
    ensures IsExprText(env, l) && IsExprText(env, l + [c] + r)
    ensures ExprOf(env, l + [c] + r) == Binary(op, ExprOf(env, l), ExprOf(env, r))
  {
    hide Reads, Tokens, Lex, ExprOf;
    var d, e :| Reads(env, l, d, e) && (d.DTerm? || d.DParen?);
    var d', e' :| Reads(env, r, d', e');
    ExprIs(env, l, d, e);
    ExprIs(env, r, d', e');
    ExprEnds(env, l, d, e);
    JoinedTokens(l, c, r);
    BinaryReads(env, l, d, e, op, r, d', e');
    ExprIs(env, l + [c] + r, DBinary(op, d, d'), Binary(op, e, e'));
  }

  lemma {:induction false} BinaryReads(env: Env, l: string, d: Deriv, e: Expr, op: BinOp, r: string, d': Deriv,
                                       e': Expr)
    requires Reads(env, l, d, e) && (d.DTerm? || d.DParen?) && Reads(env, r, d', e')
    ensures forall s :: Tokens(s) == Tokens(l) + [OpToken(op)] + Tokens(r) ==>
              Reads(env, s, DBinary(op, d, d'), Binary(op, e, e'))
  {
    hide Tokens;
  }

  /** "!" is not, and reaches to the end of the text behind it. */
  lemma {:induction false} NotText(ps: Patterns, env: Env, s: string, pc: Check)
    requires IsExprText(env, s)
    ensures IsExprText(env, "!" + s)
    ensures Says(ps, env, "!" + s, pc) <==> !Says(ps, env, s, pc)
  {
    var d, e :| Reads(env, s, d, e);
    ExprIs(env, s, d, e);
    FirstToken('!', s);
    hide Tokens, Lex;
    assert Reads(env, "!" + s, DNot(d), Expr.Not(e));
    ExprIs(env, "!" + s, DNot(d), Expr.Not(e));
    hide Reads;
  }

  /** Parentheses change nothing but what the text may be combined with. */
  lemma {:induction false} ParenText(ps: Patterns, env: Env, s: string, pc: Check)
    requires IsExprText(env, s)
    ensures IsPrimaryText(env, "(" + s + ")") && IsExprText(env, "(" + s + ")")
    ensures Says(ps, env, "(" + s + ")", pc) <==> Says(ps, env, s, pc)
  {
    var d, e :| Reads(env, s, d, e);
    ExprIs(env, s, d, e);
    ExprEnds(env, s, d, e);
    hide Reads, Tokens, Lex;
    var p := "(" + s + ")";
    ParenTokens(s);
    ParenReads(env, s, d, e);
    ExprIs(env, p, DParen(d), e);
  }

  lemma {:induction false} ParenTokens(s: string)
    requires Lex(Initial, "", s).end == Initial
    ensures Tokens("(" + s + ")") == [Char('(')] + Tokens(s) + [Char(')')]
  {
    hide Lex;
    JoinedTokens(s, ')', "");
    FirstToken('(', s + ")");
    LexNothing(Initial);
    assert s + ")" + "" == s + ")" && "(" + s + ")" == "(" + (s + ")");
  }

  lemma {:induction false} ParenReads(env: Env, s: string, d: Deriv, e: Expr)
    requires Reads(env, s, d, e)
    ensures forall p :: Tokens(p) == [Char('(')] + Tokens(s) + [Char(')')] ==> Reads(env, p, DParen(d), e)
  {
    hide Tokens;
  }

  /** White space between tokens, or around them, means nothing. */
  lemma {:induction false} SpacesText(ps: Patterns, env: Env, s: string, w: string, t: string, pc: Check)
    requires IsExprText(env, s + t)
    requires Blank(w) && Apart(s, t) && !InQuotes(Lex(Initial, "", s).end)
    ensures IsExprText(env, s + w + t) && (IsPrimaryText(env, s + t) ==> IsPrimaryText(env, s + w + t))
    ensures Says(ps, env, s + w + t, pc) <==> Says(ps, env, s + t, pc)
  {
    SpacesBetween(s, w, t);
    hide Tokens, Lex, Apart;
    forall d, e | Reads(env, s + t, d, e) ensures Reads(env, s + w + t, d, e) {}
    var d, e :| Reads(env, s + t, d, e);
    hide Reads;
    ExprIs(env, s + t, d, e);
    ExprIs(env, s + w + t, d, e);
  }

  // Terms

  /** A number or a name as it is written in a policy; names are words that are no numbers. */
  function IdText(x: IdSyntax): string {
    match x
    case IdNumber(n) => if n >= 0 then Decimal(n) else ""
    case IdWild => "*"
    case IdWord(name) => name
  }

  predicate IsWritten(x: IdSyntax) {
    match x
    case IdNumber(n) => 0 <= n < TWO_31
    case IdWild => true
    case IdWord(name) => NeedsNoQuotes(name) && name != "*"
  }

  lemma {:induction false} LexWord(w: string, rest: string)
    requires NeedsNoQuotes(w) && Stops(rest)
    ensures Lex(Args, "", w + rest) == Cons(if w == "*" then Wild else Word(w), Args, Lex(Args, "", rest))
  {
    var s := w + rest;
    var i :| 0 <= i < |w| && !IsDigit(w[i]);
    assert s[0] == w[0] && s[i] == w[i];
    RunShown(w, rest, IsWordChar);
    hide Run;
    LexStep(Args, s, WordRule, w, rest, if w == "*" then Wild else Word(w), Args);
  }

  lemma {:induction false} LexId(x: IdSyntax, rest: string)
    requires IsWritten(x) && Stops(rest)
    ensures Lex(Args, "", IdText(x) + rest) == Cons(IdTokens(x), Args, Lex(Args, "", rest))
  {
    hide Lex, Stops, Decimal, NeedsNoQuotes;
    match x
    case IdNumber(n) => LexNumber(Args, n, rest);
    case IdWild => LexWild(rest);
    case IdWord(name) => LexWord(name, rest);
  }

  /** The name of a term, with its parentheses. */
  lemma {:induction false} LexHead(name: string, t: Token, rest: string)
    requires name != "" && IsAlpha(name[0]) && (forall i :: 0 <= i < |name| ==> IsIdChar(name[i]))
    requires Act(Keyword(name), name, Initial, "") == (BeforeArgs, "", Some(t))
    ensures Tokens(name + "(" + rest) == [t, LPAREN] + Lex(Args, "", rest).toks
  {
    hide Lex, Act, Keyword;
    LexName(name, "(" + rest, t, BeforeArgs);
    LexChar(BeforeArgs, '(', rest);
    assert name + "(" + rest == name + ("(" + rest);
    assert ModeAfter(BeforeArgs, LPAREN) == Args;
  }

  lemma {:induction false} LexClose(args: string)
    requires args == ")"
    ensures Lex(Args, "", args).toks == [RPAREN] && Stops(args)
  {
    LexChar(Args, ')', "");
    LexNothing(Initial);
    assert args == [')'] + "";
  }

  /** A text with the tokens of a term is that term. */
  lemma {:induction false} TermText(env: Env, s: string, t: Term)
    requires WellFormedTerm(t) && TermYield(t) == Tokens(s)
    ensures IsExprText(env, s) <==> TermValue(env, t).Some?
    ensures TermValue(env, t).Some? ==> IsPrimaryText(env, s) && ExprOf(env, s) == TermValue(env, t).value
  {
    hide TermYield, TermValue, Tokens, WellFormedTerm;
    var d := DTerm(t);
    if TermValue(env, t).Some? {
      assert Reads(env, s, d, TermValue(env, t).value);
      hide Reads;
      ExprIs(env, s, d, TermValue(env, t).value);
    } else if IsExprText(env, s) {
      var d', e' :| Reads(env, s, d', e');
      RightNestedUnique(d, d');
    }
  }

  lemma {:induction false} UserTokens(x: IdSyntax)
    requires IsWritten(x)
    ensures Tokens("user(" + IdText(x) + ")") == TermYield(UserTerm(x))
    ensures Tokens("group(" + IdText(x) + ")") == TermYield(GroupTerm(x))
  {
    KeywordsAreNames();
    hide Lex, IdText, IsWritten, Keyword, Tokens;
    LexClose(")");
    LexId(x, ")");
    LexHead("user", KwUser, IdText(x) + ")");
    LexHead("group", KwGroup, IdText(x) + ")");
    assert "user(" + IdText(x) + ")" == "user" + "(" + (IdText(x) + ")");
    assert "group(" + IdText(x) + ")" == "group" + "(" + (IdText(x) + ")");
  }

  lemma {:induction false} UserGroupTokens(u: IdSyntax, g: IdSyntax)
    requires IsWritten(u) && IsWritten(g)
    ensures Tokens("user(" + IdText(u) + ":" + IdText(g) + ")") == TermYield(UserGroupTerm(u, g))
  {
    KeywordsAreNames();
    hide Lex, IdText, IsWritten, Keyword, Tokens;
    LexClose(")");
    LexId(g, ")");
    LexChar(Args, ':', IdText(g) + ")");
    LexId(u, ":" + (IdText(g) + ")"));
    LexHead("user", KwUser, IdText(u) + (":" + (IdText(g) + ")")));
    assert "user(" + IdText(u) + ":" + IdText(g) + ")" == "user" + "(" + (IdText(u) + (":" + (IdText(g) + ")")));
  }

  /** user() and group() with any id, by the values that the grammar's actions compute. */
  lemma {:induction false} IdentityText(env: Env, x: IdSyntax)
    requires IsWritten(x)
    ensures var u, g := "user(" + IdText(x) + ")", "group(" + IdText(x) + ")";
      && IsPrimaryText(env, u) && IsExprText(env, u) && ExprOf(env, u) == Identity(IdValue(env.users, x), WILDCARD)
      && IsPrimaryText(env, g) && IsExprText(env, g) && ExprOf(env, g) == Identity(WILDCARD, IdValue(env.groups, x))
  {
    UserTokens(x);
    TermText(env, "user(" + IdText(x) + ")", UserTerm(x));
    TermText(env, "group(" + IdText(x) + ")", GroupTerm(x));
    hide Tokens, TermYield, IdText, IdValue, ExprOf, IsPrimaryText, IsExprText;
  }

  lemma {:induction false} IdentitySays(ps: Patterns, env: Env, x: IdSyntax, pc: Check)
    requires IsWritten(x) && IdFits(env.users, x) && IdFits(env.groups, x)
    ensures var u, g := "user(" + IdText(x) + ")", "group(" + IdText(x) + ")";
      && IsPrimaryText(env, u) && IsExprText(env, u) && (Says(ps, env, u, pc) <==> DenotesUser(env.users, x, pc.cred))
      && IsPrimaryText(env, g) && IsExprText(env, g) && (Says(ps, env, g, pc) <==> DenotesGroup(env.groups, x, pc.cred))
  {
    hide IdText, IsWritten, IdFits, IdValue, ExprOf, IsPrimaryText, IsExprText, MatchUser, MatchGroup, DenotesUser,
         DenotesGroup;
    IdentityText(env, x);
    UserMeans(env.users, x, pc.cred);
    GroupMeans(env.groups, x, pc.cred);
    assert MatchUser(WILDCARD, pc.cred) && MatchGroup(WILDCARD, pc.cred) by { AnyoneMatches(pc.cred); }
  }

  lemma {:induction false} AnyoneMatches(cred: Option<Caller>)
    ensures MatchUser(WILDCARD, cred) && MatchGroup(WILDCARD, cred)
  {
  }

  /** The ids of this name are 31-bit numbers, if it is known. */
  predicate SystemIdsFit(env: Env, name: string) {
    && (name in env.users ==> env.users[name] < 0x8000_0000)
    && (name in env.groups ==> env.groups[name] < 0x8000_0000)
  }

  /**
   * user(n) is about the caller with that id, user(name) about the one whom the system knows by the
   * name, and user(*) about everyone, known or not.
   */
  lemma {:induction false} UserText(ps: Patterns, env: Env, n: nat, name: string, pc: Check)
    requires n < 0x8000_0000 && NeedsNoQuotes(name) && name != "*" && SystemIdsFit(env, name)
    ensures IsPrimaryText(env, "user(" + Decimal(n) + ")") && IsExprText(env, "user(" + Decimal(n) + ")")
    ensures Says(ps, env, "user(" + Decimal(n) + ")", pc) <==> pc.cred.Some? && pc.cred.value.euid == n
    ensures IsPrimaryText(env, "user(" + name + ")") && IsExprText(env, "user(" + name + ")")
    ensures Says(ps, env, "user(" + name + ")", pc) <==>
            pc.cred.Some? && name in env.users && env.users[name] == pc.cred.value.euid
    ensures IsPrimaryText(env, "user(*)") && IsExprText(env, "user(*)") && Says(ps, env, "user(*)", pc)
  {
    hide Decimal, NeedsNoQuotes, Says, IsPrimaryText, IsExprText;
    IdentitySays(ps, env, IdNumber(n), pc);
    IdentitySays(ps, env, IdWord(name), pc);
    IdentitySays(ps, env, IdWild, pc);
    assert "user(" + "*" + ")" == "user(*)";
  }

  /** group() is about the effective group or any of the supplementary ones. */
  lemma {:induction false} GroupText(ps: Patterns, env: Env, n: nat, name: string, pc: Check)
    requires n < 0x8000_0000 && NeedsNoQuotes(name) && name != "*" && SystemIdsFit(env, name)
    ensures IsPrimaryText(env, "group(" + Decimal(n) + ")") && IsExprText(env, "group(" + Decimal(n) + ")")
    ensures Says(ps, env, "group(" + Decimal(n) + ")", pc) <==>
            pc.cred.Some? && (pc.cred.value.egid == n || n in pc.cred.value.groups)
    ensures IsPrimaryText(env, "group(" + name + ")") && IsExprText(env, "group(" + name + ")")
    ensures Says(ps, env, "group(" + name + ")", pc) <==>
            && pc.cred.Some? && name in env.groups && env.groups[name] >= 0
            && (env.groups[name] == pc.cred.value.egid || env.groups[name] in pc.cred.value.groups)
    ensures IsPrimaryText(env, "group(*)") && IsExprText(env, "group(*)") && Says(ps, env, "group(*)", pc)
  {
    hide Decimal, NeedsNoQuotes, Says, IsPrimaryText, IsExprText;
    IdentitySays(ps, env, IdNumber(n), pc);
    IdentitySays(ps, env, IdWord(name), pc);
    IdentitySays(ps, env, IdWild, pc);
    assert "group(" + "*" + ")" == "group(*)";
  }

  /** user(u:g) is user(u) and group(g). */
  lemma {:induction false} UserGroupText(ps: Patterns, env: Env, u: IdSyntax, g: IdSyntax, pc: Check)
    requires IsWritten(u) && IsWritten(g)
    ensures var both, user, group :=
        "user(" + IdText(u) + ":" + IdText(g) + ")", "user(" + IdText(u) + ")", "group(" + IdText(g) + ")";
      && IsPrimaryText(env, both) && IsExprText(env, both) && IsExprText(env, user) && IsExprText(env, group)
      && (Says(ps, env, both, pc) <==> Says(ps, env, user, pc) && Says(ps, env, group, pc))
  {
    IdentityText(env, u);
    IdentityText(env, g);
    UserGroupTokens(u, g);
    var both := "user(" + IdText(u) + ":" + IdText(g) + ")";
    TermText(env, both, UserGroupTerm(u, g));
    PrimaryIsExpr(env, both);
    hide Tokens, TermYield, IdText, IdValue, ExprOf, IsPrimaryText, IsExprText, IsWritten;
  }

  // Calls

  /** The action that a name stands for, which is the first one that has it. */
  predicate IsFirst(actions: seq<Action>, name: string, a: Action) {
    && a.name == name
    && exists i :: 0 <= i < |actions| && actions[i] == a && forall j :: 0 <= j < i ==> actions[j].name != name
  }

  lemma {:induction false} FindFirst(actions: seq<Action>, name: string, a: Action)
    requires IsFirst(actions, name, a)
    ensures FindAction(actions, name) == Some(a)
  {
    FoundIsFirst(actions, name);
  }

  /** The text between the parentheses of a call gives one parameter, or none. */
  ghost predicate IsArgument(args: string, param: Option<Token>) {
    match param
    case None => args == ""
    case Some(t) => IsParam(t) && Lex(Args, "", args + ")").toks == [t, RPAREN]
  }

  function CallTermOf(name: string, param: Option<Token>): Term {
    match param
    case None => CallTerm(name)
    case Some(t) => CallParamTerm(name, t)
  }

  lemma {:induction false} CallTokens(name: string, args: string, param: Option<Token>)
    requires IsName(name) && IsArgument(args, param)
    ensures WellFormedTerm(CallTermOf(name, param))
    ensures Tokens(name + "(" + args + ")") == TermYield(CallTermOf(name, param))
  {
    hide Lex, Tokens;
    LexHead(name, Id(name), args + ")");
    LexClose(")");
    assert name + "(" + args + ")" == name + "(" + (args + ")");
    assert param.None? ==> args + ")" == ")";
  }

  /**
   * A call is accepted exactly if the first action of its name takes a parameter exactly if one is
   * given, and it is about that action.
   */
  lemma {:induction false} CallText(ps: Patterns, env: Env, name: string, a: Action, args: string, param: Option<Token>,
                                    pc: Check)
    requires IsName(name) && IsFirst(env.actions, name, a) && IsArgument(args, param)
    ensures var s := name + "(" + args + ")";
      && (IsExprText(env, s) <==> (param.Some? <==> a.args != 0))
      && (IsExprText(env, s) ==>
            && IsPrimaryText(env, s)
            && (Says(ps, env, s, pc) <==>
                  && pc.action == a.id
                  && (param.Some? && ParamText(param.value) != "*" ==>
                        pc.arg.Some? && ps.matches(ParamText(param.value), pc.arg.value))))
  {
    hide IsArgument, IsName, IsFirst, Tokens, TermYield, ExprOf, IsExprText, IsPrimaryText;
    FindFirst(env.actions, name, a);
    CallTokens(name, args, param);
    TermText(env, name + "(" + args + ")", CallTermOf(name, param));
    hide FindAction;
  }

  /** A call of a name that no action has is no expression. */
  lemma {:induction false} UnknownText(env: Env, name: string, args: string, param: Option<Token>)
    requires IsName(name) && IsArgument(args, param)
    requires forall i :: 0 <= i < |env.actions| ==> env.actions[i].name != name
    ensures !IsExprText(env, name + "(" + args + ")")
  {
    hide IsArgument, IsName, Tokens, TermYield, IsExprText;
    FoundIsFirst(env.actions, name);
    CallTokens(name, args, param);
    TermText(env, name + "(" + args + ")", CallTermOf(name, param));
  }

  /** Parameters may be words, */
  lemma {:induction false} WordArgument(w: string)
    requires NeedsNoQuotes(w)
    ensures var t := if w == "*" then Wild else Word(w);
      IsArgument(w, Some(t)) && ParamText(t) == w
  {
    hide Lex, NeedsNoQuotes;
    LexClose(")");
    LexWord(w, ")");
  }

  /** or strings in either kind of quotes; a backslash goes before that quote only. */
  lemma {:induction false} QuotedArgument(v: string)
    requires v == "" || v[|v| - 1] != '\\'
    ensures IsArgument("\"" + Escape('"', v) + "\"", Some(Token.Str(v)))
    ensures IsArgument("'" + Escape('\'', v) + "'", Some(Token.Str(v)))
    ensures '"' !in v ==> Escape('"', v) == v
    ensures '\'' !in v ==> Escape('\'', v) == v
  {
    hide Lex, Escape;
    LexClose(")");
    LexStr(Quote, v, ")");
    LexStr(Squote, v, ")");
    EscapeNothing('"', v);
    EscapeNothing('\'', v);
  }

  /** Escaping puts a backslash before each quote, one after the other. */
  lemma {:induction false} EscapeNext(q: char, v: string, w: string)
    requires q !in v
    ensures Escape(q, v + [q] + w) == v + "\\" + [q] + Escape(q, w)
  {
    var s := v + [q] + w;
    if v == "" {
      assert s[1..] == w && [] + [q] == [q];
    } else {
      assert s[1..] == v[1..] + [q] + w && s[0] == v[0];
      EscapeNext(q, v[1..], w);
      assert [v[0]] + (v[1..] + "\\" + [q] + Escape(q, w)) == v + "\\" + [q] + Escape(q, w);
    }
  }

  lemma {:induction false} EscapeNothing(q: char, v: string)
    ensures q !in v ==> Escape(q, v) == v
  {
    if v != "" {
      EscapeNothing(q, v[1..]);
      assert v == [v[0]] + v[1..];
    }
  }

  // Policies

  /** The decision about a check under the policy with this text, if it is one. */
  function Decides(ps: Patterns, env: Env, text: string, pc: Check, def: Access): Access {
    Decision(ps, EndToEnd.RulesIn(env, text), pc, def)
  }

  predicate IsPolicyText(env: Env, text: string) {
    EndToEnd.RulesIn(env, text).Some?
  }

  /** A text with the tokens of a right-nested policy is that policy. */
  lemma {:induction false} PolicyText(env: Env, s: string, p: PolicyDeriv)
    requires WellFormedPolicy(p) && RightNestedPolicy(p) && PolicyYield(p) == Tokens(s)
    ensures Compile(env, Tokens(s)) == PolicyValue(env, p)
  {
    hide PolicyYield, PolicyValue, ParsePolicy, Tokens;
    ParsePolicyComplete(p);
  }

  lemma {:induction false} OneEntry(env: Env, e: EntryDeriv)
    requires WellFormedEntry(e) && EntryValue(env, e).Some?
    ensures EntriesValue(env, [e]) == Some([EntryValue(env, e).value])
  {
    hide EntryValue, WellFormedEntry;
    var es := [e];
    assert es[1..] == [] && EntriesValue(env, []) == Some([]);
    assert EntriesValue(env, es[1..]) == Some([]);
    assert EntryValue(env, es[0]) == EntryValue(env, e);
    assert [EntryValue(env, e).value] + [] == [EntryValue(env, e).value];
  }

  lemma {:induction false} OneRule(env: Env, s: string, e: EntryDeriv)
    requires WellFormedEntry(e) && RightNestedEntry(e) && EntryYield(e) == Tokens(s) && EntryValue(env, e).Some?
    ensures EndToEnd.RulesIn(env, s) == Some([CompileEntry(EntryValue(env, e).value)])
  {
    hide EntryYield, EntryValue, Tokens, Compile, CompileEntry, WellFormedEntry, RightNestedEntry;
    var p := DPolicy(None, [e], false);
    assert EntryYield(e) + [] == EntryYield(e);
    OneEntry(env, e);
    PolicyText(env, s, p);
    var v := EntryValue(env, e).value;
    assert [v][..0] == [];
    assert CompileEntries([v]) == [CompileEntry(v)];
  }

  /** The keywords behind an equals sign. */
  lemma {:induction false} GrantTokens(s: string)
    requires Lex(Initial, "", s).end == Initial
    ensures Tokens(s + "=allow") == Tokens(s) + [Char('='), KwAllow]
    ensures Tokens(s + "=deny") == Tokens(s) + [Char('='), KwDeny]
  {
    hide Lex;
    KeywordsAreNames();
    LexNothing(Initial);
    LexName("allow", "", KwAllow, Initial);
    LexName("deny", "", KwDeny, Initial);
    assert "allow" + "" == "allow" && "deny" + "" == "deny";
    JoinedTokens(s, '=', "allow");
    JoinedTokens(s, '=', "deny");
    assert s + "=" + "allow" == s + "=allow" && s + "=" + "deny" == s + "=deny";
  }

  lemma {:induction false} RuleTokens(env: Env, s: string, t: string, d: Deriv, e: Expr, grant: Option<Access>)
    requires Reads(env, s, d, e)
    requires Tokens(t) == Tokens(s) + if grant.None? then [] else [EQUALS, AccessToken(grant.value)]
    ensures EndToEnd.RulesIn(env, t) == Some([Rule(Some(CompileExpr(e)), grant.GetOr(Allow))])
  {
    hide Tokens, Yield, Value, Compile, EndToEnd.RulesIn, CompileExpr;
    assert Tokens(s) + [] == Tokens(s);
    assert EntryYield(DRule(d, grant)) == Tokens(t);
    OneRule(env, t, DRule(d, grant));
  }

  /** An expression is a policy of one rule, which denies exactly if "=deny" follows it, */
  lemma {:induction false} RuleText(ps: Patterns, env: Env, s: string, pc: Check, def: Access)
    requires IsExprText(env, s) && (pc.cred.Some? ==> pc.cred.value.euid != 0)
    ensures IsPolicyText(env, s) && IsPolicyText(env, s + "=allow") && IsPolicyText(env, s + "=deny")
    ensures Decides(ps, env, s, pc, def) == if Says(ps, env, s, pc) then Allow else def
    ensures Decides(ps, env, s + "=allow", pc, def) == if Says(ps, env, s, pc) then Allow else def
    ensures Decides(ps, env, s + "=deny", pc, def) == if Says(ps, env, s, pc) then Deny else def
  {
    hide Reads, Tokens, Lex, EndToEnd.RulesIn, CompileExpr, ExprOf;
    var d, e :| Reads(env, s, d, e);
    ExprIs(env, s, d, e);
    ExprEnds(env, s, d, e);
    GrantTokens(s);
    assert Tokens(s) + [] == Tokens(s);
    RuleTokens(env, s, s, d, e, None);
    RuleTokens(env, s, s + "=allow", d, e, Some(Allow));
    RuleTokens(env, s, s + "=deny", d, e, Some(Deny));
    DecideOne(ps, Rule(Some(CompileExpr(e)), Allow), pc, def);
    DecideOne(ps, Rule(Some(CompileExpr(e)), Deny), pc, def);
    hide Decide;
  }

  lemma {:induction false} DecideOne(ps: Patterns, r: Rule, pc: Check, def: Access)
    ensures Decide(ps, [r], pc, def) ==
            if r.expr.None? || Match(ps, r.expr.value, pc) then r.access else def
  {
    assert [r][..0] == [];
  }

  /** and an asterisk stands for everything, with its access. */
  lemma {:induction false} StarText(ps: Patterns, env: Env, pc: Check, def: Access)
    requires pc.cred.Some? ==> pc.cred.value.euid != 0
    ensures IsPolicyText(env, "*=allow") && Decides(ps, env, "*=allow", pc, def) == Allow
    ensures IsPolicyText(env, "*=deny") && Decides(ps, env, "*=deny", pc, def) == Deny
  {
    hide Tokens, Lex, EndToEnd.RulesIn, Decide;
    StarTokens();
    OneRule(env, "*=allow", DWildcard(Allow));
    OneRule(env, "*=deny", DWildcard(Deny));
    DecideOne(ps, Rule(None, Allow), pc, def);
    DecideOne(ps, Rule(None, Deny), pc, def);
  }

  lemma {:induction false} StarTokens()
    ensures Tokens("*=allow") == [Char('*'), Char('='), KwAllow]
    ensures Tokens("*=deny") == [Char('*'), Char('='), KwDeny]
  {
    hide Lex;
    LexChar(Initial, '*', "");
    LexNothing(Initial);
    assert ['*'] + "" == "*" && Tokens("*") == [Char('*')];
    StarEnds();
    GrantTokens("*");
    assert "*" + "=allow" == "*=allow" && "*" + "=deny" == "*=deny";
  }

  lemma {:induction false} StarEnds()
    ensures Lex(Initial, "", "*").end == Initial
  {
    LexModes(Initial, "", "*");
  }

  /** Whoever is root may do everything, whatever the text. */
  lemma {:induction false} RootText(ps: Patterns, env: Env, text: string, pc: Check, def: Access)
    requires pc.cred.Some? && pc.cred.value.euid == 0
    ensures Decides(ps, env, text, pc, def) == Allow
  {
  }

  /** A text that is no policy decides nothing. */
  lemma {:induction false} NoPolicyText(ps: Patterns, env: Env, text: string, pc: Check, def: Access)
    requires !IsPolicyText(env, text) && (pc.cred.Some? ==> pc.cred.value.euid != 0)
    ensures Decides(ps, env, text, pc, def) == def
  {
  }

  // One policy after another

  /** The last token is a semicolon. */
  predicate EndsInSemi(s: string) {
    Tokens(s) != [] && Tokens(s)[|Tokens(s)| - 1] == Char(';')
  }

  /** The text starts with a number. */
  predicate HasVersion(s: string) {
    Tokens(s) != [] && Tokens(s)[0].Number?
  }

  lemma {:induction false} EntriesYieldAppend(es: seq<EntryDeriv>, fs: seq<EntryDeriv>, semi: bool)
    requires es != [] && fs != []
    ensures EntriesYield(es + fs, semi) == EntriesYield(es, false) + [SEMI] + EntriesYield(fs, semi)
    decreases |es|
  {
    hide EntryYield;
    assert (es + fs)[1..] == es[1..] + fs;
    if |es| > 1 {
      EntriesYieldAppend(es[1..], fs, semi);
    } else {
      assert es[1..] + fs == fs && EntryYield(es[0]) + [] == EntryYield(es[0]);
    }
  }

  /** A semicolon at the end is the last token, and is no part of the entries. */
  lemma {:induction false} EntriesYieldSemi(es: seq<EntryDeriv>)
    requires es != []
    ensures EntriesYield(es, true) == EntriesYield(es, false) + [SEMI]
  {
    hide EntryYield;
    if |es| > 1 {
      EntriesYieldSemi(es[1..]);
    }
  }

  lemma {:induction false} EntriesValueAppend(env: Env, es: seq<EntryDeriv>, fs: seq<EntryDeriv>)
    requires GoodEntries(es) && GoodEntries(fs)
    requires EntriesValue(env, es).Some? && EntriesValue(env, fs).Some?
    ensures GoodEntries(es + fs)
    ensures EntriesValue(env, es + fs) == Some(EntriesValue(env, es).value + EntriesValue(env, fs).value)
    decreases |es|
  {
    hide EntryValue, WellFormedEntry, RightNestedEntry;
    if es == [] {
      assert es + fs == fs && [] + EntriesValue(env, fs).value == EntriesValue(env, fs).value;
    } else {
      var all := es + fs;
      assert all[1..] == es[1..] + fs && all[0] == es[0];
      EntriesValueAppend(env, es[1..], fs);
      var a, b := EntriesValue(env, es[1..]).value, EntriesValue(env, fs).value;
      assert [EntryValue(env, es[0]).value] + (a + b) == [EntryValue(env, es[0]).value] + a + b;
    }
  }

  /** What an accepted text is. */
  ghost function PolicyOf(env: Env, s: string): (p: PolicyDeriv)
    requires Compile(env, Tokens(s)).Some?
    ensures WellFormedPolicy(p) && RightNestedPolicy(p) && PolicyYield(p) == Tokens(s)
    ensures PolicyValue(env, p) == Compile(env, Tokens(s)) && EntriesValue(env, p.entries) == Compile(env, Tokens(s))
    ensures Lex(Initial, "", s).end == Initial
  {
    ParsePolicySound(Tokens(s));
    ModesAgree(env, s);
    ParsePolicy(Tokens(s)).value
  }

  /** A semicolon at the end of the tokens is that of the policy. */
  lemma {:induction false} PolicyEnds(p: PolicyDeriv)
    requires WellFormedPolicy(p) && p.entries != [] && p.semi
    ensures PolicyYield(p) != [] && PolicyYield(p)[|PolicyYield(p)| - 1] == SEMI
  {
    EntriesYieldSemi(p.entries);
    hide EntriesYield;
  }

  /** Only a version is a number. */
  lemma {:induction false} PolicyStarts(p: PolicyDeriv)
    requires WellFormedPolicy(p)
    ensures PolicyYield(p) != [] && (p.version.Some? <==> PolicyYield(p)[0].Number?)
  {
    if p.entries != [] {
      EntriesYieldStart(p.entries, p.semi);
      NoNumber(EntriesYield(p.entries, p.semi)[0]);
    }
    hide EntriesYield;
  }

  lemma {:induction false} JoinedYield(p: PolicyDeriv, q: PolicyDeriv)
    requires WellFormedPolicy(p) && WellFormedPolicy(q) && !p.semi && q.version.None?
    ensures var j := DPolicy(p.version, p.entries + q.entries, q.semi);
      WellFormedPolicy(j) && PolicyYield(j) == PolicyYield(p) + [SEMI] + PolicyYield(q)
  {
    hide WellFormedEntry, EntriesYield;
    var more := EntriesYield(q.entries, q.semi);
    assert PolicyYield(q) == more;
    if p.entries == [] {
      assert p.entries + q.entries == q.entries;
      assert [Number(p.version.value), SEMI] + more == [Number(p.version.value)] + [SEMI] + more;
    } else {
      EntriesYieldAppend(p.entries, q.entries, q.semi);
      var head := if p.version.Some? then [Number(p.version.value), SEMI] else [];
      var es := EntriesYield(p.entries, false);
      assert head + (es + [SEMI] + more) == head + es + [SEMI] + more;
    }
  }

  lemma {:induction false} CompileAppend(a: seq<Entry>, b: seq<Entry>)
    ensures CompileEntries(a + b) == CompileEntries(a) + CompileEntries(b)
  {
    hide CompileEntry;
    var x, y := CompileEntries(a + b), CompileEntries(a) + CompileEntries(b);
    assert forall i :: 0 <= i < |x| ==> x[i] == y[i];
  }

  /** The rules of a policy followed by another one are those of the first, and then those of the other. */
  lemma {:induction false} AfterRules(env: Env, p: string, q: string)
    requires IsPolicyText(env, p) && IsPolicyText(env, q) && !EndsInSemi(p) && !HasVersion(q)
    ensures EndToEnd.RulesIn(env, p + ";" + q) ==
            Some(EndToEnd.RulesIn(env, p).value + EndToEnd.RulesIn(env, q).value)
  {
    hide Lex, Tokens, Compile, PolicyYield, EntriesValue, CompileEntries, GoodEntries;
    var dp, dq := PolicyOf(env, p), PolicyOf(env, q);
    PolicyStarts(dp);
    NoSemi(dp);
    PolicyStarts(dq);
    JoinedTokens(p, ';', q);
    JoinedYield(dp, dq);
    GoodPolicy(dp);
    GoodPolicy(dq);
    EntriesValueAppend(env, dp.entries, dq.entries);
    var j := DPolicy(dp.version, dp.entries + dq.entries, dq.semi);
    GoodIsNested(j);
    PolicyText(env, p + ";" + q, j);
    CompileAppend(EntriesValue(env, dp.entries).value, EntriesValue(env, dq.entries).value);
  }

  lemma {:induction false} NoSemi(p: PolicyDeriv)
    requires WellFormedPolicy(p) && PolicyYield(p) != [] && PolicyYield(p)[|PolicyYield(p)| - 1] != SEMI
    ensures !p.semi
  {
    if p.semi {
      PolicyEnds(p);
    }
  }

  lemma {:induction false} GoodPolicy(p: PolicyDeriv)
    requires WellFormedPolicy(p) && RightNestedPolicy(p)
    ensures GoodEntries(p.entries)
  {
  }

  lemma {:induction false} GoodIsNested(p: PolicyDeriv)
    requires GoodEntries(p.entries)
    ensures RightNestedPolicy(p)
  {
  }

  /** Later rules override earlier ones: a policy after a semicolon takes what was decided as its default. */
  lemma {:induction false} AfterText(ps: Patterns, env: Env, p: string, q: string, pc: Check, def: Access)
    requires IsPolicyText(env, p) && IsPolicyText(env, q) && !EndsInSemi(p) && !HasVersion(q)
    ensures IsPolicyText(env, p + ";" + q)
    ensures Decides(ps, env, p + ";" + q, pc, def) == Decides(ps, env, q, pc, Decides(ps, env, p, pc, def))
  {
    hide Tokens, EndToEnd.RulesIn, Decide;
    AfterRules(env, p, q);
    DecideAppend(ps, EndToEnd.RulesIn(env, p).value, EndToEnd.RulesIn(env, q).value, pc, def);
  }

  /** A semicolon at the end changes nothing. */
  lemma {:induction false} SemiText(env: Env, p: string)
    requires IsPolicyText(env, p) && !EndsInSemi(p) && EndToEnd.RulesIn(env, p) != Some([])
    ensures EndToEnd.RulesIn(env, p + ";") == EndToEnd.RulesIn(env, p)
  {
    hide Lex, Tokens, Compile, PolicyYield, EntriesValue, CompileEntries;
    var d := PolicyOf(env, p);
    PolicyStarts(d);
    NoSemi(d);
    assert d.entries != [] by { NoRules(env); }
    var d' := d.(semi := true);
    JoinedTokens(p, ';', "");
    LexNothing(Initial);
    assert p + ";" + "" == p + ";" && Tokens("") == [] by { EmptyTokens(); }
    assert Tokens(p) + [SEMI] + [] == Tokens(p) + [SEMI];
    SemiYield(d);
    PolicyText(env, p + ";", d');
  }

  lemma {:induction false} EmptyTokens()
    ensures Tokens("") == []
  {
    LexNothing(Initial);
  }

  lemma {:induction false} NoRules(env: Env)
    ensures EntriesValue(env, []) == Some([]) && CompileEntries([]) == []
  {
  }

  lemma {:induction false} SemiYield(p: PolicyDeriv)
    requires WellFormedPolicy(p) && !p.semi && p.entries != []
    ensures WellFormedPolicy(p.(semi := true)) && PolicyYield(p.(semi := true)) == PolicyYield(p) + [SEMI]
  {
    EntriesYieldSemi(p.entries);
    hide EntriesYield;
  }

  /** The version may stand alone, and before a policy it changes nothing (see AfterText); only 1 is supported. */
  lemma {:induction false} VersionText(env: Env, n: nat, more: string)
    requires n < 0x8000_0000
    ensures EndToEnd.RulesIn(env, "1") == Some([]) && !EndsInSemi("1")
    ensures n != 1 ==> !IsPolicyText(env, Decimal(n)) && !IsPolicyText(env, Decimal(n) + ";" + more)
  {
    hide Lex, Tokens, PolicyYield, Decimal;
    VersionTokens(n, more);
    VersionTokens(1, more);
    assert "1" == Decimal(1) by { DecimalOne(); }
    NoRules(env);
    hide EntriesValue, CompileEntries, ParseEntries;
  }

  lemma {:induction false} DecimalOne()
    ensures Decimal(1) == "1"
  {
  }

  lemma {:induction false} VersionTokens(n: nat, more: string)
    requires n < TWO_31
    ensures Tokens(Decimal(n)) == [Number(n)]
    ensures Tokens(Decimal(n) + ";" + more) == [Number(n), SEMI] + Tokens(more)
  {
    hide Lex, Decimal;
    LexNothing(Initial);
    LexNumber(Initial, n, "");
    assert Decimal(n) + "" == Decimal(n);
    LexNumber(Initial, n, ";" + more);
    FirstToken(';', more);
    assert Decimal(n) + ";" + more == Decimal(n) + (";" + more);
  }

  /** A text without any tokens is no policy. */
  lemma {:induction false} BlankText(env: Env, w: string)
    requires Blank(w)
    ensures !IsPolicyText(env, w)
  {
    hide Lex;
    SpacesVanish(Initial, w, "");
    LexNothing(Initial);
    assert w + "" == w;
  }
}
