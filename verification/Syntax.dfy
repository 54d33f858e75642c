/** Tokens, syntax trees and the caller's action table: what the scanner, the grammar and the policy share. */
module Syntax {
  import opened Wrappers

  datatype Access = Deny | Allow

  /** Matches any user or group id. */
  const WILDCARD: int := -1
  /** Never matches anything. */
  const INVALID: int := -2

  datatype BinOp = And | Or

  /** DAParserExpr */
  datatype Expr =
    | Identity(uid: int, gid: int)
    | Custom(action: nat, param: Option<string>)
    | Not(operand: Expr)
    | Binary(op: BinOp, left: Expr, right: Expr)

  /** DAParserEntry; no expression stands for the wildcard that matches everything. */
  datatype Entry = Entry(expr: Option<Expr>, access: Access)

  /** DA_ACTION */
  datatype Action = Action(name: string, id: nat, args: nat)

  /** What a policy text means depends on the action table and on the system's users and groups. */
  datatype Env = Env(actions: seq<Action>, users: map<string, int>, groups: map<string, int>)

  /** The tokens of the grammar; Char stands for the single-character ones. */
  datatype Token =
    | Number(n: int)
    | Id(name: string)
    | Word(text: string)
    | Wild
    | Str(text: string)
    | KwUser
    | KwGroup
    | KwAllow
    | KwDeny
    | Error
    | Char(c: char)

  const BANG: Token := Char('!')
  const LPAREN: Token := Char('(')
  const RPAREN: Token := Char(')')
  const COLON: Token := Char(':')
  const SEMI: Token := Char(';')
  const EQUALS: Token := Char('=')
  const STAR: Token := Char('*')

  function OpToken(op: BinOp): Token {
    match op
    case And => Char('&')
    case Or => Char('|')
  }

  function OpOf(t: Token): Option<BinOp> {
    if t == Char('&') then Some(And) else if t == Char('|') then Some(Or) else None
  }

  /** The token after which the parser stands, if there is one. */
  function Head(toks: seq<Token>): Option<Token> {
    if toks == [] then None else Some(toks[0])
  }

  predicate StartsWithOp(toks: seq<Token>) {
    toks != [] && OpOf(toks[0]).Some?
  }

  /** The first action with the name: da_parser_find_action. */
  function FindAction(actions: seq<Action>, name: string): Option<Action> {
    if actions == [] then None
    else if actions[0].name == name then Some(actions[0])
    else FindAction(actions[1..], name)
  }

  // The values that the grammar's actions compute

  /** A user or group inside user() or group(). */
  datatype IdSyntax = IdNumber(n: int) | IdWild | IdWord(name: string)

  /** getpwnam and getgrnam: an unknown name and a negative id never match. */
  function LookupId(ids: map<string, int>, name: string): int {
    if name in ids && ids[name] >= 0 then ids[name] else INVALID
  }

  function IdValue(ids: map<string, int>, x: IdSyntax): int {
    match x
    case IdNumber(n) => if n < 0 then WILDCARD else n
    case IdWild => WILDCARD
    case IdWord(name) => LookupId(ids, name)
  }

  /** da_parser_new_expr_custom: the action must be known and take a parameter exactly if one is given. */
  function CustomValue(actions: seq<Action>, name: string, param: Option<string>): Option<Expr> {
    match FindAction(actions, name)
    case None => None
    case Some(a) => if param.Some? == (a.args != 0) then Some(Custom(a.id, param)) else None
  }

  datatype Term =
    | UserTerm(u: IdSyntax)
    | UserGroupTerm(u: IdSyntax, g: IdSyntax)
    | GroupTerm(g: IdSyntax)
    | CallTerm(name: string)
    | CallParamTerm(name: string, param: Token)

  /** WORD, STRING and WILDCARD are parameters. */
  predicate IsParam(t: Token) {
    t.Word? || t.Str? || t.Wild?
  }

  function ParamText(t: Token): string
    requires IsParam(t)
  {
    match t
    case Word(s) => s
    case Str(s) => s
    case Wild => "*"
  }

  predicate WellFormedTerm(t: Term) {
    t.CallParamTerm? ==> IsParam(t.param)
  }

  function TermValue(env: Env, t: Term): Option<Expr>
    requires WellFormedTerm(t)
  {
    match t
    case UserTerm(u) => Some(Identity(IdValue(env.users, u), WILDCARD))
    case UserGroupTerm(u, g) => Some(Identity(IdValue(env.users, u), IdValue(env.groups, g)))
    case GroupTerm(g) => Some(Identity(WILDCARD, IdValue(env.groups, g)))
    case CallTerm(name) => CustomValue(env.actions, name, None)
    case CallParamTerm(name, param) => CustomValue(env.actions, name, Some(ParamText(param)))
  }
}
