/**
 * da_parser_compile: the scanner and the generated parser at work on the arena. The scanner hands
 * out tokens one at a time, the parser keeps a stack of pending operators, and every reduction
 * builds its node in the arena. The result is proved to be that of the pure machine, and the
 * arena's contents to be all that is ever allocated.
 */
module Driver {
  import opened Wrappers
  import opened Syntax
  import opened Grammar
  import opened PolicyGrammar
  import opened Scanner
  import opened ShiftMachine
  import opened Memory
  import opened Arena

  /** A stack symbol pending below an expression. */
  datatype Pending =
    | PNot
    | PParen
    | POp(op: BinOp, left: ParserExpr)

  ghost function FrameOf(p: Pending): Frame {
    match p
    case PNot => PendingNot
    case PParen => PendingParen
    case POp(op, left) => PendingOp(op, left.tree)
  }

  ghost function FramesOf(stack: seq<Pending>): (frames: seq<Frame>)
    ensures |frames| == |stack|
    ensures forall i :: 0 <= i < |stack| ==> frames[i] == FrameOf(stack[i])
  {
    seq(|stack|, i requires 0 <= i < |stack| => FrameOf(stack[i]))
  }

  class Driver {
    const text: string
    const users: map<string, int>
    const groups: map<string, int>
    const parser: Parser
    // The scanner
    var pos: nat
    var mode: Mode
    // The lookahead token; None is the end of the input
    var look: Option<Token>
    var str: Str?

    ghost function TheEnv(): Env {
      Env(parser.actions, users, groups)
    }

    /** The copied string that goes with a token is on the parser's list. */
    ghost predicate Carries(t: Token, s: Str?)
      reads parser`alloc_list
    {
      match t
      case Id(name) => s != null && s.text == name && s in parser.Allocs()
      case Word(text) => s != null && s.text == text && s in parser.Allocs()
      case Str(text) => s != null && s.text == text && s in parser.Allocs()
      case Wild => s != null && s.text == "*" && s in parser.Allocs()
      case _ => true
    }

    /** The left operands on the stack are owned by the parser. */
    ghost predicate ValidStack(stack: seq<Pending>)
      reads parser`alloc_list
    {
      forall i :: 0 <= i < |stack| ==> stack[i].POp? ==> parser.OwnsExpr(stack[i].left)
    }

    /** What the scanner is going to return. */
    ghost function Rest(): seq<Token>
      reads this, parser.buf
      requires pos <= |text|
    {
      Lex(mode, parser.buf.str, text[pos..]).toks
    }

    /** What the parser has not consumed yet. */
    ghost function Toks(): seq<Token>
      reads this, parser.buf
      requires pos <= |text|
    {
      if look.None? then [] else [look.value] + Rest()
    }

    ghost predicate Valid()
      reads this, parser, parser.mem, parser.buf
    {
      && parser.Valid()
      && pos <= |text|
      && (look.Some? ==> Carries(look.value, str))
      && (look.None? ==> Rest() == [])
    }

    /** The scanner is a block of its own, da_scanner_create. */
    constructor (text: string, users: map<string, int>, groups: map<string, int>, parser: Parser)
      requires parser.Valid() && parser.buf.str == ""
      modifies parser`alloc_list, parser.mem, parser.buf
      ensures Valid() && parser.Others() == old(parser.Others()) + {this} && parser.mem.freed == old(parser.mem.freed)
      ensures old(parser.Owned()) <= parser.Owned()
      ensures this.parser == parser && this.users == users && this.groups == groups
      ensures Toks() == Tokens(text)
      ensures forall o: object :: IsBlock(o) && fresh(o) ==> o == this || o in parser.Owned()
    {
      this.text, this.users, this.groups, this.parser := text, users, groups, parser;
      pos, mode, look, str := 0, Initial, None, null;
      new;
      assert text[0..] == text;
      parser.mem.Allocated(this);
      hide Parser.Allocs, Lex;
      ReadToken();
    }

    /** The action of a rule. */
    method ApplyRule(rule: LexRule, word: string)
      requires parser.Valid() && word != "" && look.None?
      modifies this`mode, this`look, this`str, parser`alloc_list, parser.mem, parser.buf
      ensures parser.Valid() && parser.Kept()
      ensures forall o: object :: IsBlock(o) && fresh(o) ==> o in parser.Owned()
      ensures (mode, parser.buf.str, look) == Act(rule, word, old(mode), old(parser.buf.str))
      ensures look.Some? ==> Carries(look.value, str)
    {
      hide Parser.Valid, Parser.Owned, Parser.Others, Parser.Allocs, ToInt;
      match rule {
        case QuoteEnd =>
          mode := Args;
          str := parser.FinishString();
          look := Some(Token.Str(str.text));
        case SquoteEnd =>
          mode := Args;
          str := parser.FinishString();
          look := Some(Token.Str(str.text));
        case QuoteEscape => parser.buf.str := parser.buf.str + "\"";
        case SquoteEscape => parser.buf.str := parser.buf.str + "'";
        case StringNewline => parser.buf.str := parser.buf.str + [word[0]];
        case StringChar => parser.buf.str := parser.buf.str + [word[0]];
        case OpenArgs =>
          mode := Args;
          look := Some(Char(word[0]));
        case SquoteStart =>
          mode := Squote;
          parser.buf.str := "";
        case QuoteStart =>
          mode := Quote;
          parser.buf.str := "";
        case CloseArgs =>
          mode := Initial;
          look := Some(Char(word[0]));
        case UserRule =>
          mode := BeforeArgs;
          look := Some(KwUser);
        case GroupRule =>
          mode := BeforeArgs;
          look := Some(KwGroup);
        case AllowRule => look := Some(KwAllow);
        case DenyRule => look := Some(KwDeny);
        case DigitsRule => look := Some(NumberToken(word));
        case WordRule =>
          str := parser.NewString(word);
          look := Some(if word == "*" then Wild else Word(word));
        case IdRule =>
          mode := BeforeArgs;
          str := parser.NewString(word);
          look := Some(Id(word));
        case SpacesRule =>
        case CharRule => look := Some(Char(word[0]));
      }
    }

    /** da_parser_lex: apply rules until one of them returns a token. */
    method ReadToken()
      requires parser.Valid() && pos <= |text|
      modifies this`pos, this`mode, this`look, this`str, parser`alloc_list, parser.mem, parser.buf
      ensures Valid() && parser.Kept()
      ensures forall o: object :: IsBlock(o) && fresh(o) ==> o in parser.Owned()
      ensures Toks() == old(Rest())
    {
      hide Next, Act, Carries, Parser.Valid, Parser.Owned, Parser.Others, Parser.Allocs;
      look, str := None, null;
      while pos < |text|
        invariant parser.Valid() && parser.Kept()
        invariant forall o: object :: IsBlock(o) && fresh(o) ==> o in parser.Owned()
        invariant pos <= |text|
        invariant Rest() == old(Rest())
        invariant look.None?
        decreases |text| - pos
      {
        var (rule, n) := Next(mode, text[pos..]);
        assert text[pos..][..n] == text[pos..pos + n] && text[pos..][n..] == text[pos + n..];
        ApplyRule(rule, text[pos..pos + n]);
        pos := pos + n;
        if look.Some? {
          return;
        }
      }
      assert text[pos..] == "";
    }

    /** Consume the lookahead token. */
    method Advance()
      requires Valid() && look.Some?
      modifies this`pos, this`mode, this`look, this`str, parser`alloc_list, parser.mem, parser.buf
      ensures Valid() && parser.Kept()
      ensures forall o: object :: IsBlock(o) && fresh(o) ==> o in parser.Owned()
      ensures Toks() == old(Toks())[1..]
    {
      hide Lex, Parser.Valid, Parser.Owned, Parser.Others, Parser.Allocs;
      ReadToken();
    }

    /** Consume the lookahead token if it is the one given. */
    method Take(t: Token) returns (taken: bool)
      requires Valid()
      modifies this`pos, this`mode, this`look, this`str, parser`alloc_list, parser.mem, parser.buf
      ensures Valid() && parser.Kept()
      ensures forall o: object :: IsBlock(o) && fresh(o) ==> o in parser.Owned()
      ensures match Expect(t, old(Toks()))
        case Some(rest) => taken && Toks() == rest
        case None => !taken && Toks() == old(Toks())
    {
      hide Lex, Parser.Valid, Parser.Owned, Parser.Others, Parser.Allocs;
      taken := look == Some(t);
      if taken {
        Advance();
      }
    }

    // The rules for terms

    /** NUMBER, WILDCARD or WORD as a user or group id. */
    method ReadId(ids: map<string, int>) returns (id: Option<int>)
      requires Valid()
      modifies this`pos, this`mode, this`look, this`str, parser`alloc_list, parser.mem, parser.buf
      ensures Valid() && parser.Kept()
      ensures forall o: object :: IsBlock(o) && fresh(o) ==> o in parser.Owned()
      ensures match ParseId(old(Toks()))
        case Some((x, rest)) => id == Some(IdValue(ids, x)) && Toks() == rest
        case None => id == None && Toks() == old(Toks())
    {
      hide Lex, LookupId, Parser.Valid, Parser.Owned, Parser.Others, Parser.Allocs;
      match look {
        case Some(Number(n)) => id := Some(if n < 0 then WILDCARD else n);
        case Some(Wild) => id := Some(WILDCARD);
        case Some(Word(name)) => id := Some(LookupId(ids, name));
        case _ => id := None;
      }
      if id.Some? {
        Advance();
      }
    }

    /** What the reduction to a term must give back. */
    ghost predicate IsTerm(parsed: Option<(Term, seq<Token>)>, e: ParserExpr?)
      reads this, parser, parser.buf
      requires pos <= |text|
    {
      match parsed
      case None => e == null
      case Some((t, rest)) =>
        WellFormedTerm(t) &&
        match TermValue(TheEnv(), t)
        case None => e == null
        case Some(v) => e != null && parser.OwnsExpr(e) && e.tree == v && Toks() == rest
    }

    /** USER '(' user ')' and USER '(' user ':' group ')', after the parenthesis */
    method ReadUserArgs() returns (e: ParserExpr?)
      requires Valid()
      modifies this`pos, this`mode, this`look, this`str, parser`alloc_list, parser.mem, parser.buf
      ensures Valid() && parser.Kept()
      ensures forall o: object :: IsBlock(o) && fresh(o) ==> o in parser.Owned()
      ensures IsTerm(ParseUserArgs(old(Toks())), e)
    {
      hide Toks, LookupId, ParserExpr.Valid, Parser.Valid, Parser.Owned, Parser.Others, Parser.Allocs;
      var uid := ReadId(users);
      if uid.None? {
        return null;
      }
      var colon := Take(COLON);
      var gid := Some(WILDCARD);
      if colon {
        gid := ReadId(groups);
        if gid.None? {
          return null;
        }
      }
      var closed := Take(RPAREN);
      if !closed {
        return null;
      }
      e := parser.NewExprIdentity(uid.value, gid.value);
    }

    /** GROUP '(' group ')', after the parenthesis */
    method ReadGroupArgs() returns (e: ParserExpr?)
      requires Valid()
      modifies this`pos, this`mode, this`look, this`str, parser`alloc_list, parser.mem, parser.buf
      ensures Valid() && parser.Kept()
      ensures forall o: object :: IsBlock(o) && fresh(o) ==> o in parser.Owned()
      ensures IsTerm(ParseGroupArgs(old(Toks())), e)
    {
      hide Toks, LookupId, ParserExpr.Valid, Parser.Valid, Parser.Owned, Parser.Others, Parser.Allocs;
      var gid := ReadId(groups);
      if gid.None? {
        return null;
      }
      var closed := Take(RPAREN);
      if !closed {
        return null;
      }
      e := parser.NewExprIdentity(WILDCARD, gid.value);
    }

    /** ID '(' ')' and ID '(' param ')', after the parenthesis */
    method ReadCallArgs(name: string) returns (e: ParserExpr?)
      requires Valid()
      modifies this`pos, this`mode, this`look, this`str, parser`alloc_list, parser.mem, parser.buf
      ensures Valid() && parser.Kept()
      ensures forall o: object :: IsBlock(o) && fresh(o) ==> o in parser.Owned()
      ensures IsTerm(ParseCallArgs(name, old(Toks())), e)
    {
      hide Lex, LookupId, ParserExpr.Valid, FindAction, Parser.Valid, Parser.Owned, Parser.Others, Parser.Allocs;
      var param: Str? := null;
      if look.Some? && IsParam(look.value) {
        param := str;
        Advance();
      }
      var closed := Take(RPAREN);
      if !closed {
        return null;
      }
      e := parser.NewExprCustom(name, param);
    }

    /** term */
    method ReadTerm() returns (e: ParserExpr?)
      requires Valid()
      modifies this`pos, this`mode, this`look, this`str, parser`alloc_list, parser.mem, parser.buf
      ensures Valid() && parser.Kept()
      ensures forall o: object :: IsBlock(o) && fresh(o) ==> o in parser.Owned()
      ensures IsTerm(ParseTerm(old(Toks())), e)
    {
      hide Lex, IsTerm, Parser.Valid, Parser.Owned, Parser.Others, Parser.Allocs;
      if look == None || !(look.value == KwUser || look.value == KwGroup || look.value.Id?) {
        NoTerm();
        return null;
      }
      var name := look.value;
      Advance();
      var open := Take(LPAREN);
      if !open {
        NoTerm();
        return null;
      }
      assert Toks() == old(Toks())[2..];
      match name {
        case KwUser => e := ReadUserArgs();
        case KwGroup => e := ReadGroupArgs();
        case Id(n) => e := ReadCallArgs(n);
      }
    }

    lemma {:induction false} NoTerm()
      requires pos <= |text|
      ensures IsTerm(None, null)
    {
    }

    // The stack machine

    /** What the machine must give back for an expression. */
    ghost predicate IsExpr(result: Option<(Expr, seq<Token>)>, e: ParserExpr?)
      reads this, parser, parser.buf
      requires pos <= |text|
    {
      match result
      case None => e == null
      case Some((v, rest)) => e != null && parser.OwnsExpr(e) && e.tree == v && Toks() == rest
    }

    /** The machine, with this stack and expression, is on its way to the result. */
    ghost predicate OnTheWay(result: Option<(Expr, seq<Token>)>, stack: seq<Pending>, e: ParserExpr?)
      reads this, parser, parser.buf
      requires pos <= |text|
    {
      && ValidStack(stack)
      && if e == null then result == Operand(TheEnv(), FramesOf(stack), Toks())
         else parser.OwnsExpr(e) && result == Operator(TheEnv(), FramesOf(stack), e.tree, Toks())
    }

    /** expr: shift while an operand is expected or an operator follows, and reduce otherwise. */
    method ReadExpr() returns (e: ParserExpr?)
      requires Valid()
      modifies this`pos, this`mode, this`look, this`str, parser`alloc_list, parser.mem, parser.buf
      ensures Valid() && parser.Kept()
      ensures forall o: object :: IsBlock(o) && fresh(o) ==> o in parser.Owned()
      ensures IsExpr(Operand(TheEnv(), [], old(Toks())), e)
    {
      hide Lex, ParserExpr.Valid, Parser.Valid, Parser.Owned, Parser.Others, Parser.Allocs;
      ghost var result := Operand(TheEnv(), [], Toks());
      var stack: seq<Pending> := [];
      var ok := true;
      e := null;
      assert FramesOf(stack) == [];
      while e == null || stack != [] || (look.Some? && OpOf(look.value).Some?)
        invariant Valid() && parser.Kept()
        invariant forall o: object :: IsBlock(o) && fresh(o) ==> o in parser.Owned()
        invariant OnTheWay(result, stack, e)
        decreases |Toks()|, |stack|
      {
        if e == null {
          ok, stack, e := Shift(stack, result);
        } else {
          ok, stack, e := ShiftOrReduce(stack, e, result);
        }
        if !ok {
          return null;
        }
      }
    }

    /** An operand is expected: shift '!' or '(', or reduce a term. */
    method Shift(stack: seq<Pending>, ghost result: Option<(Expr, seq<Token>)>)
      returns (ok: bool, stack': seq<Pending>, e: ParserExpr?)
      requires Valid() && OnTheWay(result, stack, null)
      modifies this`pos, this`mode, this`look, this`str, parser`alloc_list, parser.mem, parser.buf
      ensures Valid() && parser.Kept()
      ensures forall o: object :: IsBlock(o) && fresh(o) ==> o in parser.Owned()
      ensures if ok then OnTheWay(result, stack', e) && |Toks()| < |old(Toks())| else result == None
    {
      hide Lex, ParserExpr.Valid, Parser.Valid, Parser.Owned, Parser.Others, Parser.Allocs;
      stack', e := stack, null;
      if look == Some(BANG) {
        Advance();
        stack' := stack + [PNot];
        assert FramesOf(stack') == FramesOf(stack) + [PendingNot];
      } else if look == Some(LPAREN) {
        Advance();
        stack' := stack + [PParen];
        assert FramesOf(stack') == FramesOf(stack) + [PendingParen];
      } else {
        ghost var toks := Toks();
        e := ReadTerm();
        if e == null {
          return false, stack', e;
        }
        ghost var (t, rest) := ParseTerm(toks).value;
        hide ParseTerm, TermValue;
      }
      ok := true;
    }

    /** An expression is complete: shift an operator if there is one, and reduce what is pending otherwise. */
    method ShiftOrReduce(stack: seq<Pending>, e: ParserExpr, ghost result: Option<(Expr, seq<Token>)>)
      returns (ok: bool, stack': seq<Pending>, e': ParserExpr?)
      requires Valid() && OnTheWay(result, stack, e)
      requires stack != [] || (look.Some? && OpOf(look.value).Some?)
      modifies this`pos, this`mode, this`look, this`str, parser`alloc_list, parser.mem, parser.buf
      ensures Valid() && parser.Kept()
      ensures forall o: object :: IsBlock(o) && fresh(o) ==> o in parser.Owned()
      ensures if ok
        then OnTheWay(result, stack', e') && (|Toks()| < |old(Toks())| || (Toks() == old(Toks()) && |stack'| < |stack|))
        else result == None
    {
      hide Lex, ParserExpr.Valid, Operand, OpOf, Parser.Valid, Parser.Owned, Parser.Others, Parser.Allocs;
      ok := true;
      if look.Some? && OpOf(look.value).Some? {
        stack' := stack + [POp(OpOf(look.value).value, e)];
        e' := null;
        Advance();
        assert FramesOf(stack') == FramesOf(stack) + [FrameOf(stack'[|stack|])];
      } else {
        ok, stack', e' := Reduce(stack, e, result);
      }
    }

    /** No operator follows: what the expression on top of the stack was waiting for is complete. */
    method Reduce(stack: seq<Pending>, e: ParserExpr, ghost result: Option<(Expr, seq<Token>)>)
      returns (ok: bool, stack': seq<Pending>, e': ParserExpr?)
      requires Valid() && OnTheWay(result, stack, e)
      requires stack != [] && !(look.Some? && OpOf(look.value).Some?)
      modifies this`pos, this`mode, this`look, this`str, parser`alloc_list, parser.mem, parser.buf
      ensures Valid() && parser.Kept()
      ensures forall o: object :: IsBlock(o) && fresh(o) ==> o in parser.Owned()
      ensures if ok
        then OnTheWay(result, stack', e') && (|Toks()| < |old(Toks())| || (Toks() == old(Toks()) && |stack'| < |stack|))
        else result == None
    {
      hide Lex, ParserExpr.Valid, Operand, OpOf, Parser.Valid, Parser.Owned, Parser.Others, Parser.Allocs;
      ok := true;
      var top := stack[|stack| - 1];
      stack' := stack[..|stack| - 1];
      assert FramesOf(stack') == FramesOf(stack)[..|stack| - 1];
      match top {
        case PNot => e' := parser.NewExprNot(e);
        case POp(op, left) => e' := parser.NewExprBinary(op, left, e);
        case PParen =>
          e' := e;
          ok := Take(RPAREN);
      }
    }

    // Entries and policies

    /** '=' access, or nothing if the access is wrong or missing */
    method ReadGrant() returns (access: Option<Access>)
      requires Valid()
      modifies this`pos, this`mode, this`look, this`str, parser`alloc_list, parser.mem, parser.buf
      ensures Valid() && parser.Kept()
      ensures forall o: object :: IsBlock(o) && fresh(o) ==> o in parser.Owned()
      ensures match ParseGrant(old(Toks()))
        case Some((a, rest)) => access == Some(a) && Toks() == rest
        case None => access == None
    {
      hide Lex, Parser.Valid, Parser.Owned, Parser.Others, Parser.Allocs;
      var equals := Take(EQUALS);
      if equals && look == Some(KwAllow) {
        access := Some(Allow);
        Advance();
      } else if equals && look == Some(KwDeny) {
        access := Some(Deny);
        Advance();
      } else {
        access := None;
      }
    }

    /** What an entry must be. */
    ghost predicate IsEntry(result: Option<(Entry, seq<Token>)>, e: ParserEntry?)
      reads this, parser, parser.buf
      requires pos <= |text|
    {
      match result
      case None => e == null
      case Some((v, rest)) => e != null && parser.OwnsEntry(e) && e.Value() == v && Toks() == rest
    }

    /** entry */
    method ReadEntry() returns (entry: ParserEntry?)
      requires Valid()
      modifies this`pos, this`mode, this`look, this`str, parser`alloc_list, parser.mem, parser.buf
      ensures Valid() && parser.Kept()
      ensures forall o: object :: IsBlock(o) && fresh(o) ==> o in parser.Owned()
      ensures IsEntry(EntryShift(TheEnv(), old(Toks())), entry)
    {
      hide Lex, ParserExpr.Valid, Operand, ParseGrant, Parser.Valid, Parser.Owned, Parser.Others, Parser.Allocs;
      var star := Take(STAR);
      var expr: ParserExpr? := null;
      if !star {
        expr := ReadExpr();
        if expr == null {
          return null;
        }
      }
      var access := Some(Allow);
      if star || look == Some(EQUALS) {
        access := ReadGrant();
        if access.None? {
          return null;
        }
      }
      entry := parser.NewEntry(expr, access.value);
    }

    /** entries ';' entry: a new link at the end of the list. */
    method Append(list: Link?, entry: ParserEntry, ghost chain: seq<Link>, ghost es: seq<Entry>)
      returns (list': Link?, ghost chain': seq<Link>)
      requires Valid() && parser.OwnsEntry(entry) && Holds(list, chain, es, parser)
      modifies parser`link_list, parser.mem, chain
      ensures Valid() && parser.Kept()
      ensures forall o: object :: IsBlock(o) && fresh(o) ==> o in parser.Owned()
      ensures Holds(list', chain', es + [entry.Value()], parser)
      ensures forall i :: 0 <= i < |chain'| ==> chain'[i] in chain || fresh(chain'[i])
    {
      hide Lex, ParserExpr.Valid, Entries, ParserEntry.Value, IsChain, Parser.Valid, Parser.Owned, Parser.Others,
           Parser.Allocs;
      var link := parser.NewLink(entry);
      assert link in parser.link_list;
      list' := AppendLink(list, link, chain, es, parser);
      chain' := chain + [link];
    }

    /** entries, with or without a final ';' */
    method ReadEntries() returns (ok: bool, list: Link?, ghost chain: seq<Link>)
      requires Valid()
      modifies this`pos, this`mode, this`look, this`str, parser`alloc_list, parser`link_list, parser.mem, parser.buf
      ensures Valid() && parser.Kept()
      ensures forall o: object :: IsBlock(o) && fresh(o) ==> o in parser.Owned()
      ensures match EntriesShift(TheEnv(), [], old(Toks()))
        case None => !ok
        case Some(es) => ok && Holds(list, chain, es, parser)
      ensures forall i :: 0 <= i < |chain| ==> fresh(chain[i])
    {
      hide Lex, EntryShift, ParserExpr.Valid, ParserEntry.Value, ParserEntry.Repr, IsList, IsAmong, Carries,
           Parser.Valid, Parser.Owned, Parser.Others, Parser.Allocs;
      ghost var result := EntriesShift(TheEnv(), [], Toks());
      ghost var es: seq<Entry> := [];
      list, chain, ok := null, [], false;
      HoldsNothing(parser);
      while !ok
        invariant Valid() && parser.Kept()
        invariant forall o: object :: IsBlock(o) && fresh(o) ==> o in parser.Owned()
        invariant forall i :: 0 <= i < |chain| ==> fresh(chain[i])
        invariant Holds(list, chain, es, parser)
        invariant if ok then result == Some(es) else result == EntriesShift(TheEnv(), es, Toks())
        decreases |Toks()|, !ok
      {
        ghost var links, allocs := parser.link_list, parser.Allocs();
        var entry := ReadEntry();
        if entry == null {
          return;
        }
        AmongMore(chain, links, allocs, parser);
        list, chain := Append(list, entry, chain, es);
        es := es + [entry.Value()];
        if look.None? {
          ok := true;
        } else {
          links, allocs := parser.link_list, parser.Allocs();
          var semi := Take(SEMI);
          if !semi {
            return;
          }
          AmongMore(chain, links, allocs, parser);
          ok := look.None?;
        }
      }
    }

    /** [version ';'] before the entries, or a version alone */
    method ReadVersion() returns (ok: bool, more: bool)
      requires Valid()
      modifies this`pos, this`mode, this`look, this`str, parser`alloc_list, parser.mem, parser.buf
      ensures Valid() && parser.Kept()
      ensures forall o: object :: IsBlock(o) && fresh(o) ==> o in parser.Owned()
      ensures PolicyShift(TheEnv(), old(Toks())) ==
              if !ok then None else if !more then Some([]) else EntriesShift(TheEnv(), [], Toks())
    {
      hide Lex, EntriesShift, ParserExpr.Valid, Parser.Valid, Parser.Owned, Parser.Others, Parser.Allocs;
      if look.Some? && look.value.Number? {
        if look.value.n != FORMAT_VERSION {
          return false, false;
        }
        Advance();
        if look.None? {
          return true, false;
        }
        more := Take(SEMI);
        ok := more;
      } else {
        ok, more := true, true;
      }
    }

    /** policy */
    method ReadPolicy() returns (ok: bool)
      requires Valid() && parser.entries == null && parser.chain == []
      modifies this`pos, this`mode, this`look, this`str, parser, parser.mem, parser.buf
      ensures Valid() && parser.Kept()
      ensures forall o: object :: IsBlock(o) && fresh(o) ==> o in parser.Owned()
      ensures match PolicyShift(TheEnv(), old(Toks()))
        case None => !ok
        case Some(es) => ok && Holds(parser.entries, parser.chain, es, parser)
    {
      hide Lex, EntriesShift, PolicyShift, ParserExpr.Valid, Holds, Parser.Valid, Parser.Owned, Parser.Others,
           Parser.Allocs;
      var more;
      ok, more := ReadVersion();
      HoldsNothing(parser);
      if ok && more {
        var list: Link?;
        ghost var chain: seq<Link>;
        ok, list, chain := ReadEntries();
        if ok {
          AddTo(list, chain, PolicyShift(TheEnv(), old(Toks())).value);
        }
      }
    }

    /** da_parser_add_entries on a parser that has none yet. */
    method AddTo(list: Link?, ghost chain: seq<Link>, ghost es: seq<Entry>)
      requires parser.Valid() && parser.entries == null && parser.chain == []
      requires Holds(list, chain, es, parser)
      modifies parser`entries, parser`chain
      ensures parser.Valid() && parser.Kept() && Holds(parser.entries, parser.chain, es, parser)
      ensures forall o: object :: IsBlock(o) ==> !fresh(o)
    {
      hide ParserExpr.Valid, Entries, ParserEntry.Value;
      parser.AddEntries(list, chain);
      assert [] + chain == chain;
    }
  }

  /** The chain holds these entries, and the parser owns its links and everything in them. */
  ghost predicate Holds(list: Link?, chain: seq<Link>, es: seq<Entry>, parser: Parser)
    reads parser, chain
  {
    IsList(list, chain, es) && parser.OwnsChain(chain)
  }

  ghost predicate IsList(list: Link?, chain: seq<Link>, es: seq<Entry>)
    reads chain
  {
    IsChain(list, chain) && Entries(chain) == es
  }

  /** What is on the parser's lists is still on longer ones. */
  lemma {:induction false} AmongMore(chain: seq<Link>, links: seq<Link>, allocs: set<object>, parser: Parser)
    requires IsAmong(chain, links, allocs)
    requires allocs <= parser.Allocs() && forall l :: l in links ==> l in parser.link_list
    ensures parser.OwnsChain(chain)
  {
  }

  /** The new link goes to the end of the chain. */
  method AppendLink(list: Link?, link: Link, ghost chain: seq<Link>, ghost es: seq<Entry>, parser: Parser)
    returns (list': Link?)
    requires parser.Valid() && Holds(list, chain, es, parser)
    requires link in parser.link_list && link !in chain && link.next == null && parser.OwnsEntry(link.data)
    modifies chain
    ensures Holds(list', chain + [link], es + [link.data.Value()], parser)
    ensures forall o: object :: IsBlock(o) ==> !fresh(o)
  {
    hide ParserExpr.Valid, Entries, ParserEntry.Value;
    assert IsChain(link, [link]);
    assert forall i :: 0 <= i < |chain| ==> chain[i] in chain;
    list' := Concat(list, link, chain, [link], parser.mem);
    hide IsChain;
    var all := chain + [link];
    assert Entries(all) == es + [link.data.Value()] by {
      forall i | 0 <= i < |chain| ensures all[i].data.Value() == es[i] {
        assert all[i] == chain[i] && chain[i] in all;
      }
      assert link in all;
    }
  }

  lemma {:induction false} HoldsNothing(parser: Parser)
    ensures Holds(null, [], [], parser)
  {
  }

  /**
   * da_parser_compile: the parser with the entries of the policy, or nothing if there is no text or
   * it does not parse. Of the blocks created on the way, the parser owns those that are live, and
   * all others were freed.
   */
  method CompileText(spec: Option<string>, actions: seq<Action>, users: map<string, int>, groups: map<string, int>,
                     mem: Memory)
    returns (parser: Parser?)
    modifies mem
    ensures var env := Env(actions, users, groups);
      var result := if spec.None? then None else Compile(env, Tokens(spec.value));
      match result
      case None => parser == null && mem.live == old(mem.live)
      case Some(es) =>
        && parser != null && fresh(parser) && parser.mem == mem
        && parser.Valid() && parser.Others() == old(mem.live)
        && parser.ValidResult() && Entries(parser.chain) == es
    ensures forall o: object :: IsBlock(o) && fresh(o) ==> o in mem.freed || (parser != null && o in parser.Owned())
  {
    if spec.None? {
      return null;
    }
    hide Compile, Tokens, Entries, IsChain, Parser.Allocs, Parser.Owned, Parser.OwnsChain;
    parser := new Parser(actions, mem);
    var ok := ParseText(spec.value, users, groups, parser);
    if !ok {
      parser.Delete();
      parser := null;
    }
  }

  /** da_parser_parse: a scanner is created for the text, and deleted after it. */
  method ParseText(text: string, users: map<string, int>, groups: map<string, int>, parser: Parser) returns (ok: bool)
    requires parser.Valid() && parser.entries == null && parser.chain == [] && parser.buf.str == ""
    modifies parser, parser.mem, parser.buf
    ensures parser.Valid() && parser.Others() == old(parser.Others())
    ensures old(parser.Owned()) <= parser.Owned() && old(parser.mem.freed) <= parser.mem.freed
    ensures match Compile(Env(parser.actions, users, groups), Tokens(text))
      case None => !ok
      case Some(es) => ok && parser.ValidResult() && Entries(parser.chain) == es
    ensures forall o: object :: IsBlock(o) && fresh(o) ==> o in parser.mem.freed || o in parser.Owned()
  {
    hide PolicyShift, Compile, Tokens, Entries, IsChain, Parser.Allocs, Parser.Owned, Parser.OwnsChain;
    PolicyShiftIsCompile(Env(parser.actions, users, groups), Tokens(text));
    var driver := new Driver(text, users, groups, parser);
    ok := driver.ReadPolicy();
    parser.mem.Free(driver);
  }
}
