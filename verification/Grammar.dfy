/**
 * The ambiguous grammar of policies, the parser that yacc makes of it by preferring to shift, and a
 * recursive description of the language that parser accepts.
 */
module Grammar {
  import opened Wrappers
  import opened Syntax

  // The grammar as written: derivations and the token sequences they yield

  datatype Deriv =
    | DTerm(t: Term)
    | DNot(d: Deriv)
    | DParen(d: Deriv)
    | DBinary(op: BinOp, l: Deriv, r: Deriv)

  predicate WellFormed(d: Deriv) {
    match d
    case DTerm(t) => WellFormedTerm(t)
    case DNot(x) => WellFormed(x)
    case DParen(x) => WellFormed(x)
    case DBinary(_, l, r) => WellFormed(l) && WellFormed(r)
  }

  function IdTokens(x: IdSyntax): Token {
    match x
    case IdNumber(n) => Number(n)
    case IdWild => Wild
    case IdWord(name) => Word(name)
  }

  function TermYield(t: Term): seq<Token> {
    match t
    case UserTerm(u) => [KwUser, LPAREN, IdTokens(u), RPAREN]
    case UserGroupTerm(u, g) => [KwUser, LPAREN, IdTokens(u), COLON, IdTokens(g), RPAREN]
    case GroupTerm(g) => [KwGroup, LPAREN, IdTokens(g), RPAREN]
    case CallTerm(name) => [Id(name), LPAREN, RPAREN]
    case CallParamTerm(name, param) => [Id(name), LPAREN, param, RPAREN]
  }

  function Yield(d: Deriv): seq<Token> {
    match d
    case DTerm(t) => TermYield(t)
    case DNot(x) => [BANG] + Yield(x)
    case DParen(x) => [LPAREN] + Yield(x) + [RPAREN]
    case DBinary(op, l, r) => Yield(l) + [OpToken(op)] + Yield(r)
  }

  /** The tree that the grammar's actions build; an unknown or misused action fails the parse. */
  function Value(env: Env, d: Deriv): Option<Expr>
    requires WellFormed(d)
  {
    match d
    case DTerm(t) => TermValue(env, t)
    case DNot(x) =>
      var v := Value(env, x);
      if v.Some? then Some(Not(v.value)) else None
    case DParen(x) => Value(env, x)
    case DBinary(op, l, r) =>
      var lv, rv := Value(env, l), Value(env, r);
      if lv.Some? && rv.Some? then Some(Binary(op, lv.value, rv.value)) else None
  }

  // Preferring to shift: right-nested derivations

  /** No left operand ends in an operator or starts with '!': everything reaches as far right as it can. */
  predicate RightNested(d: Deriv) {
    match d
    case DTerm(_) => true
    case DNot(x) => RightNested(x)
    case DParen(x) => RightNested(x)
    case DBinary(_, l, r) => (l.DTerm? || l.DParen?) && RightNested(l) && RightNested(r)
  }

  /** Hang "op r" under the rightmost operand of l. */
  function Graft(l: Deriv, op: BinOp, r: Deriv): Deriv {
    match l
    case DTerm(_) => DBinary(op, l, r)
    case DParen(_) => DBinary(op, l, r)
    case DNot(x) => DNot(Graft(x, op, r))
    case DBinary(op', a, b) => DBinary(op', a, Graft(b, op, r))
  }

  /** The right-nested derivation of the same sentence. */
  function Reshape(d: Deriv): Deriv {
    match d
    case DTerm(_) => d
    case DNot(x) => DNot(Reshape(x))
    case DParen(x) => DParen(Reshape(x))
    case DBinary(op, l, r) => Graft(Reshape(l), op, Reshape(r))
  }

  lemma {:induction false} GraftKeeps(env: Env, l: Deriv, op: BinOp, r: Deriv)
    requires WellFormed(l) && WellFormed(r) && RightNested(l) && RightNested(r)
    ensures var d := Graft(l, op, r);
      WellFormed(d) && RightNested(d) && Yield(d) == Yield(l) + [OpToken(op)] + Yield(r)
      && (Value(env, d).Some? <==> Value(env, l).Some? && Value(env, r).Some?)
  {
    hide WellFormedTerm, TermYield, TermValue, OpToken;
    match l
    case DTerm(_) =>
    case DParen(_) =>
    case DNot(x) => GraftKeeps(env, x, op, r);
    case DBinary(op', a, b) => GraftKeeps(env, b, op, r);
  }

  /** Every sentence has a right-nested derivation, and one with a tree if it has any with a tree. */
  lemma {:induction false} ReshapeKeeps(env: Env, d: Deriv)
    requires WellFormed(d)
    ensures var d' := Reshape(d);
      WellFormed(d') && RightNested(d') && Yield(d') == Yield(d) && (Value(env, d').Some? <==> Value(env, d).Some?)
  {
    match d
    case DTerm(_) =>
    case DNot(x) => ReshapeKeeps(env, x);
    case DParen(x) => ReshapeKeeps(env, x);
    case DBinary(op, l, r) =>
      ReshapeKeeps(env, l);
      ReshapeKeeps(env, r);
      GraftKeeps(env, Reshape(l), op, Reshape(r));
  }

  // The recursive description: E ::= '!' E | P | P op E,  P ::= term | '(' E ')'

  function ParseId(toks: seq<Token>): (r: Option<(IdSyntax, seq<Token>)>)
    ensures r.Some? ==> toks == [IdTokens(r.value.0)] + r.value.1
  {
    if toks == [] then None
    else match toks[0]
      case Number(n) => Some((IdNumber(n), toks[1..]))
      case Wild => Some((IdWild, toks[1..]))
      case Word(s) => Some((IdWord(s), toks[1..]))
      case _ => None
  }

  /** Drop the expected token. */
  function Expect(t: Token, toks: seq<Token>): (r: Option<seq<Token>>)
    ensures r.Some? <==> toks != [] && toks[0] == t
    ensures r.Some? ==> toks == [t] + r.value
  {
    if toks != [] && toks[0] == t then Some(toks[1..]) else None
  }

  function Finish<T>(x: T, toks: seq<Token>): (r: Option<(T, seq<Token>)>)
    ensures r.Some? ==> r.value.0 == x && toks == [RPAREN] + r.value.1
  {
    match Expect(RPAREN, toks)
    case Some(rest) => Some((x, rest))
    case None => None
  }

  function ParseUserArgs(toks: seq<Token>): Option<(Term, seq<Token>)> {
    match ParseId(toks)
    case None => None
    case Some((u, rest)) =>
      match Expect(COLON, rest)
      case None => Finish(UserTerm(u), rest)
      case Some(rest') =>
        match ParseId(rest')
        case None => None
        case Some((g, rest'')) => Finish(UserGroupTerm(u, g), rest'')
  }

  function ParseGroupArgs(toks: seq<Token>): Option<(Term, seq<Token>)> {
    match ParseId(toks)
    case None => None
    case Some((g, rest)) => Finish(GroupTerm(g), rest)
  }

  function ParseCallArgs(name: string, toks: seq<Token>): Option<(Term, seq<Token>)> {
    if toks != [] && IsParam(toks[0]) then Finish(CallParamTerm(name, toks[0]), toks[1..])
    else Finish(CallTerm(name), toks)
  }

  /** A term is told by its first token. */
  function ParseTerm(toks: seq<Token>): (r: Option<(Term, seq<Token>)>)
    ensures r.Some? ==> WellFormedTerm(r.value.0) && toks == TermYield(r.value.0) + r.value.1
  {
    if |toks| < 2 || toks[1] != LPAREN then None
    else match toks[0]
      case KwUser => ParseUserArgs(toks[2..])
      case KwGroup => ParseGroupArgs(toks[2..])
      case Id(name) => ParseCallArgs(name, toks[2..])
      case _ => None
  }

  lemma {:induction false} UserArgsYield(u: IdSyntax, rest: seq<Token>)
    ensures ParseUserArgs([IdTokens(u)] + ([RPAREN] + rest)) == Some((UserTerm(u), rest))
  {
  }

  lemma {:induction false} UserGroupArgsYield(u: IdSyntax, g: IdSyntax, rest: seq<Token>)
    ensures ParseUserArgs([IdTokens(u)] + ([COLON] + ([IdTokens(g)] + ([RPAREN] + rest))))
      == Some((UserGroupTerm(u, g), rest))
  {
  }

  lemma {:induction false} OtherArgsYield(g: IdSyntax, name: string, param: Token, rest: seq<Token>)
    requires IsParam(param)
    ensures ParseGroupArgs([IdTokens(g)] + ([RPAREN] + rest)) == Some((GroupTerm(g), rest))
    ensures ParseCallArgs(name, [RPAREN] + rest) == Some((CallTerm(name), rest))
    ensures ParseCallArgs(name, [param] + ([RPAREN] + rest)) == Some((CallParamTerm(name, param), rest))
  {
  }

  /** The first two tokens tell what the arguments are. */
  lemma {:induction false} ParseTermHead(head: Token, args: seq<Token>)
    ensures ParseTerm([head, LPAREN] + args) ==
            match head
            case KwUser => ParseUserArgs(args)
            case KwGroup => ParseGroupArgs(args)
            case Id(name) => ParseCallArgs(name, args)
            case _ => None
  {
    hide ParseUserArgs, ParseGroupArgs, ParseCallArgs;
    assert ([head, LPAREN] + args)[2..] == args;
  }

  lemma {:induction false} ParseTermYield(t: Term, rest: seq<Token>)
    requires WellFormedTerm(t)
    ensures ParseTerm(TermYield(t) + rest) == Some((t, rest))
  {
    hide ParseTerm, ParseUserArgs, ParseGroupArgs, ParseCallArgs, IdTokens;
    var toks := TermYield(t) + rest;
    ParseTermHead(toks[0], toks[2..]);
    assert toks == [toks[0], LPAREN] + toks[2..];
    match t
    case UserTerm(u) =>
      UserArgsYield(u, rest);
      assert toks[2..] == [IdTokens(u)] + ([RPAREN] + rest);
    case UserGroupTerm(u, g) =>
      UserGroupArgsYield(u, g, rest);
      assert toks[2..] == [IdTokens(u)] + ([COLON] + ([IdTokens(g)] + ([RPAREN] + rest)));
    case GroupTerm(g) =>
      OtherArgsYield(g, "", Wild, rest);
      assert toks[2..] == [IdTokens(g)] + ([RPAREN] + rest);
    case CallTerm(name) =>
      OtherArgsYield(IdWild, name, Wild, rest);
      assert toks[2..] == [RPAREN] + rest;
    case CallParamTerm(name, param) =>
      OtherArgsYield(IdWild, name, param, rest);
      assert toks[2..] == [param] + ([RPAREN] + rest);
  }

  /** P */
  function ParsePrimary(toks: seq<Token>): (r: Option<(Deriv, seq<Token>)>)
    ensures r.Some? ==> |r.value.1| < |toks|
    decreases |toks|, 0
  {
    if toks != [] && toks[0] == LPAREN then
      match ParseExpr(toks[1..])
      case None => None
      case Some((d, rest)) => Finish(DParen(d), rest)
    else
      match ParseTerm(toks)
      case None => None
      case Some((t, rest)) => Some((DTerm(t), rest))
  }

  /** E */
  function ParseExpr(toks: seq<Token>): (r: Option<(Deriv, seq<Token>)>)
    ensures r.Some? ==> |r.value.1| < |toks|
    decreases |toks|, 1
  {
    if toks != [] && toks[0] == BANG then
      match ParseExpr(toks[1..])
      case None => None
      case Some((d, rest)) => Some((DNot(d), rest))
    else
      match ParsePrimary(toks)
      case None => None
      case Some((p, rest)) =>
        if StartsWithOp(rest) then
          match ParseExpr(rest[1..])
          case None => None
          case Some((d, rest')) => Some((DBinary(OpOf(rest[0]).value, p, d), rest'))
        else Some((p, rest))
  }

  /** What the recursive parser finds is a right-nested derivation of what it consumed, and it stops at no operator. */
  lemma {:induction false} ParsePrimarySound(toks: seq<Token>)
    requires ParsePrimary(toks).Some?
    ensures var (d, rest) := ParsePrimary(toks).value;
      (d.DTerm? || d.DParen?) && WellFormed(d) && RightNested(d) && toks == Yield(d) + rest
    decreases |toks|, 0
  {
    hide ParseExpr, ParseTerm, TermYield;
    if toks[0] == LPAREN {
      ParseExprSound(toks[1..]);
      var (d, rest) := ParseExpr(toks[1..]).value;
      assert toks == [LPAREN] + Yield(d) + rest;
    }
  }

  lemma {:induction false} ParseExprSound(toks: seq<Token>)
    requires ParseExpr(toks).Some?
    ensures var (d, rest) := ParseExpr(toks).value;
      WellFormed(d) && RightNested(d) && toks == Yield(d) + rest && !StartsWithOp(rest)
    decreases |toks|, 1
  {
    hide ParsePrimary, ParseTerm, TermYield;
    if toks[0] == BANG {
      ParseExprSound(toks[1..]);
    } else {
      ParsePrimarySound(toks);
      var (p, rest) := ParsePrimary(toks).value;
      if StartsWithOp(rest) {
        ParseExprSound(rest[1..]);
        assert rest == [OpToken(OpOf(rest[0]).value)] + rest[1..];
      }
    }
  }

  /** Every right-nested derivation is found, whatever follows it except an operator. */
  lemma {:induction false} ParsePrimaryComplete(d: Deriv, rest: seq<Token>)
    requires WellFormed(d) && RightNested(d) && (d.DTerm? || d.DParen?)
    ensures ParsePrimary(Yield(d) + rest) == Some((d, rest))
    decreases d, 0
  {
    var toks := Yield(d) + rest;
    if d.DTerm? {
      ParseTermYield(d.t, rest);
    } else {
      assert toks[1..] == Yield(d.d) + ([RPAREN] + rest);
      ParseExprComplete(d.d, [RPAREN] + rest);
    }
  }

  lemma {:induction false} PrimaryStart(d: Deriv)
    requires d.DTerm? || d.DParen?
    ensures Yield(d) != [] && Yield(d)[0] != BANG
  {
  }

  lemma {:induction false} ParseExprComplete(d: Deriv, rest: seq<Token>)
    requires WellFormed(d) && RightNested(d) && !StartsWithOp(rest)
    ensures ParseExpr(Yield(d) + rest) == Some((d, rest))
    decreases d, 1
  {
    hide ParsePrimary, ParseTerm, TermYield, WellFormedTerm;
    var toks := Yield(d) + rest;
    match d
    case DTerm(t) =>
      PrimaryStart(d);
      ParsePrimaryComplete(d, rest);
    case DParen(_) =>
      PrimaryStart(d);
      ParsePrimaryComplete(d, rest);
    case DNot(x) =>
      assert toks[1..] == Yield(x) + rest;
      ParseExprComplete(x, rest);
    case DBinary(op, l, r) =>
      var rest' := [OpToken(op)] + (Yield(r) + rest);
      assert toks == Yield(l) + rest' && rest'[1..] == Yield(r) + rest;
      PrimaryStart(l);
      ParsePrimaryComplete(l, rest');
      ParseExprComplete(r, rest);
  }

  /** A sentence has exactly one right-nested derivation. */
  lemma {:induction false} RightNestedUnique(d1: Deriv, d2: Deriv)
    requires WellFormed(d1) && WellFormed(d2) && RightNested(d1) && RightNested(d2)
    requires Yield(d1) == Yield(d2)
    ensures d1 == d2
  {
    ParseExprComplete(d1, []);
    ParseExprComplete(d2, []);
  }

  /**
   * What preferring to shift makes of any derivation: the sentence l op r is read with "op r" under
   * the rightmost operand of l, so '!' reaches over it and '&' does not bind tighter than '|'.
   */
  lemma {:induction false} ParseIsReshape(env: Env, d: Deriv, rest: seq<Token>)
    requires WellFormed(d) && !StartsWithOp(rest)
    ensures ParseExpr(Yield(d) + rest) == Some((Reshape(d), rest))
  {
    hide ParseExpr, Yield, Reshape, WellFormed, RightNested, Value;
    ReshapeKeeps(env, d);
    ParseExprComplete(Reshape(d), rest);
  }
}
