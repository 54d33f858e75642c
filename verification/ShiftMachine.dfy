/**
 * The parser that yacc generates: a stack machine with one token of lookahead. Only '!' has a
 * declared precedence, so whenever an operator follows a complete operand there is a conflict, and
 * yacc shifts. The machine is proved to be the recursive parser of module Grammar.
 */
module ShiftMachine {
  import opened Wrappers
  import opened Syntax
  import opened Grammar
  import opened PolicyGrammar

  /** What is pending below the expression on top of the stack. */
  datatype Frame =
    | PendingNot
    | PendingParen
    | PendingOp(op: BinOp, left: Expr)

  /** The machine expects an operand: '!' and '(' are shifted, a term is reduced to its value. */
  function Operand(env: Env, stack: seq<Frame>, toks: seq<Token>): (r: Option<(Expr, seq<Token>)>)
    ensures r.Some? ==> |r.value.1| < |toks|
    decreases |toks|, |stack|
  {
    if toks == [] then None
    else if toks[0] == BANG then Operand(env, stack + [PendingNot], toks[1..])
    else if toks[0] == LPAREN then Operand(env, stack + [PendingParen], toks[1..])
    else
      match ParseTerm(toks)
      case None => None
      case Some((t, rest)) =>
        match TermValue(env, t)
        case None => None
        case Some(e) => Operator(env, stack, e, rest)
  }

  /** The machine has an expression on top: it shifts an operator, and otherwise reduces what is pending. */
  function Operator(env: Env, stack: seq<Frame>, e: Expr, toks: seq<Token>): (r: Option<(Expr, seq<Token>)>)
    ensures r.Some? ==> |r.value.1| <= |toks|
    decreases |toks|, |stack|
  {
    if StartsWithOp(toks) then
      Operand(env, stack + [PendingOp(OpOf(toks[0]).value, e)], toks[1..])
    else if stack == [] then
      Some((e, toks))
    else
      var top, below := stack[|stack| - 1], stack[..|stack| - 1];
      match top
      case PendingNot => Operator(env, below, Not(e), toks)
      case PendingOp(op, left) => Operator(env, below, Binary(op, left, e), toks)
      case PendingParen =>
        match Expect(RPAREN, toks)
        case None => None
        case Some(rest) => Operator(env, below, e, rest)
  }

  /** What the machine does once a parse of an operand gave d and left rest. */
  function Continue(env: Env, stack: seq<Frame>, parsed: Option<(Deriv, seq<Token>)>): Option<(Expr, seq<Token>)>
    requires parsed.Some? ==> WellFormed(parsed.value.0)
  {
    match parsed
    case None => None
    case Some((d, rest)) =>
      match Value(env, d)
      case None => None
      case Some(e) => Operator(env, stack, e, rest)
  }

  lemma {:induction false} PopNot(env: Env, stack: seq<Frame>, e: Expr, toks: seq<Token>)
    requires !StartsWithOp(toks)
    ensures Operator(env, stack + [PendingNot], e, toks) == Operator(env, stack, Not(e), toks)
  {
  }

  lemma {:induction false} PopOp(env: Env, stack: seq<Frame>, op: BinOp, left: Expr, e: Expr, toks: seq<Token>)
    requires !StartsWithOp(toks)
    ensures Operator(env, stack + [PendingOp(op, left)], e, toks) == Operator(env, stack, Binary(op, left, e), toks)
  {
  }

  lemma {:induction false} PopParen(env: Env, stack: seq<Frame>, e: Expr, toks: seq<Token>)
    requires !StartsWithOp(toks)
    ensures Operator(env, stack + [PendingParen], e, toks) ==
            match Expect(RPAREN, toks) case None => None case Some(rest) => Operator(env, stack, e, rest)
  {
  }

  lemma {:induction false} OperandIsPrimary(env: Env, stack: seq<Frame>, toks: seq<Token>)
    requires toks != [] && toks[0] != BANG
    requires ParsePrimary(toks).Some? ==> WellFormed(ParsePrimary(toks).value.0)
    ensures Operand(env, stack, toks) == Continue(env, stack, ParsePrimary(toks))
    decreases |toks|, 0
  {
    hide ParseTerm, ParseExpr, Operator;
    if toks[0] == LPAREN {
      if ParseExpr(toks[1..]).Some? {
        ParseExprSound(toks[1..]);
      }
      OperandIsExpr(env, stack + [PendingParen], toks[1..]);
      if ParseExpr(toks[1..]).Some? {
        var (d, rest) := ParseExpr(toks[1..]).value;
        if Value(env, d).Some? {
          PopParen(env, stack, Value(env, d).value, rest);
        }
      }
    }
  }

  /** With anything pending, the machine takes the operand that the recursive parser takes. */
  lemma {:induction false} OperandIsExpr(env: Env, stack: seq<Frame>, toks: seq<Token>)
    requires ParseExpr(toks).Some? ==> WellFormed(ParseExpr(toks).value.0)
    ensures Operand(env, stack, toks) == Continue(env, stack, ParseExpr(toks))
    decreases |toks|, 1
  {
    hide ParseTerm, ParsePrimary;
    if toks == [] {
      assert ParseExpr(toks) == None by { NothingParses(); }
    } else if toks[0] == BANG {
      if ParseExpr(toks[1..]).Some? {
        ParseExprSound(toks[1..]);
        var (d, rest) := ParseExpr(toks[1..]).value;
        if Value(env, d).Some? {
          PopNot(env, stack, Value(env, d).value, rest);
        }
      }
      OperandIsExpr(env, stack + [PendingNot], toks[1..]);
    } else {
      if ParsePrimary(toks).Some? {
        ParsePrimarySound(toks);
        OperandThenOp(env, stack, toks);
      }
      OperandIsPrimary(env, stack, toks);
    }
  }

  lemma {:induction false} NothingParses()
    ensures ParseExpr([]) == None && ParsePrimary([]) == None
  {
  }

  /** After a primary, the machine shifts an operator just where the recursive parser goes on. */
  lemma {:induction false} OperandThenOp(env: Env, stack: seq<Frame>, toks: seq<Token>)
    requires toks != [] && toks[0] != BANG && ParsePrimary(toks).Some?
    requires WellFormed(ParsePrimary(toks).value.0)
    requires ParseExpr(toks).Some? ==> WellFormed(ParseExpr(toks).value.0)
    ensures Continue(env, stack, ParsePrimary(toks)) == Continue(env, stack, ParseExpr(toks))
    decreases |toks|, 0
  {
    hide ParseTerm, ParsePrimary;
    var (p, rest) := ParsePrimary(toks).value;
    if StartsWithOp(rest) && Value(env, p).Some? {
      var e, op := Value(env, p).value, OpOf(rest[0]).value;
      if ParseExpr(rest[1..]).Some? {
        ParseExprSound(rest[1..]);
        var (d, rest') := ParseExpr(rest[1..]).value;
        if Value(env, d).Some? {
          PopOp(env, stack, op, e, Value(env, d).value, rest');
        }
      }
      OperandIsExpr(env, stack + [PendingOp(op, e)], rest[1..]);
    }
  }

  // Entries and policies: the list of entries grows to the right

  function EntryShift(env: Env, toks: seq<Token>): (r: Option<(Entry, seq<Token>)>)
    ensures r.Some? ==> |r.value.1| < |toks|
  {
    if toks != [] && toks[0] == STAR then
      match ParseGrant(toks[1..])
      case None => None
      case Some((a, rest)) => Some((Entry(None, a), rest))
    else
      match Operand(env, [], toks)
      case None => None
      case Some((e, rest)) =>
        if Head(rest) == Some(EQUALS) then
          match ParseGrant(rest)
          case None => None
          case Some((a, rest')) => Some((Entry(Some(e), a), rest'))
        else Some((Entry(Some(e), Allow), rest))
  }

  function EntriesShift(env: Env, done: seq<Entry>, toks: seq<Token>): Option<seq<Entry>>
    decreases |toks|
  {
    match EntryShift(env, toks)
    case None => None
    case Some((e, rest)) =>
      if rest == [] then Some(done + [e])
      else if rest[0] != SEMI then None
      else if |rest| == 1 then Some(done + [e])
      else EntriesShift(env, done + [e], rest[1..])
  }

  function PolicyShift(env: Env, toks: seq<Token>): Option<seq<Entry>> {
    if toks != [] && toks[0].Number? then
      if toks[0].n != FORMAT_VERSION then None
      else if |toks| == 1 then Some([])
      else if toks[1] != SEMI then None
      else EntriesShift(env, [], toks[2..])
    else EntriesShift(env, [], toks)
  }

  lemma {:induction false} EntryShiftIs(env: Env, toks: seq<Token>)
    ensures ParseEntry(toks).Some? ==> WellFormedEntry(ParseEntry(toks).value.0)
    ensures EntryShift(env, toks) ==
            match ParseEntry(toks)
            case None => None
            case Some((e, rest)) =>
              (match EntryValue(env, e) case None => None case Some(v) => Some((v, rest)))
  {
    if ParseEntry(toks).Some? {
      ParseEntrySound(toks);
    }
    if toks != [] && toks[0] != STAR {
      if ParseExpr(toks).Some? {
        ParseExprSound(toks);
      }
      OperandIsExpr(env, [], toks);
      hide ParseExpr, Operand;
    }
  }

  function After(done: seq<Entry>, more: Option<seq<Entry>>): Option<seq<Entry>> {
    match more
    case None => None
    case Some(es) => Some(done + es)
  }

  lemma {:induction false} EntriesValueCons(env: Env, done: seq<Entry>, e: EntryDeriv, es: seq<EntryDeriv>)
    requires GoodEntries(es) && WellFormedEntry(e) && RightNestedEntry(e)
    ensures GoodEntries([e] + es)
    ensures After(done, EntriesValue(env, [e] + es)) ==
            match EntryValue(env, e) case None => None case Some(v) => After(done + [v], EntriesValue(env, es))
  {
    GoodCons(e, es);
    hide EntryValue;
    assert ([e] + es)[1..] == es;
    var v, vs := EntryValue(env, e), EntriesValue(env, es);
    if v.Some? && vs.Some? {
      assert done + [v.value] + vs.value == done + ([v.value] + vs.value);
    }
  }

  function EntriesOf(env: Env, parsed: Option<(seq<EntryDeriv>, bool)>): Option<seq<Entry>>
    requires parsed.Some? ==> GoodEntries(parsed.value.0)
  {
    match parsed
    case None => None
    case Some((es, _)) => EntriesValue(env, es)
  }

  lemma {:induction false} EntriesShiftIs(env: Env, done: seq<Entry>, toks: seq<Token>)
    ensures ParseEntries(toks).Some? ==> GoodEntries(ParseEntries(toks).value.0)
    ensures EntriesShift(env, done, toks) == After(done, EntriesOf(env, ParseEntries(toks)))
    decreases |toks|
  {
    if ParseEntries(toks).Some? {
      ParseEntriesSound(toks);
    }
    EntryShiftIs(env, toks);
    if ParseEntry(toks).Some? {
      ParseEntrySound(toks);
      var (e, rest) := ParseEntry(toks).value;
      EntriesValueCons(env, done, e, []);
      hide ParseEntry, EntryShift, EntryValue, WellFormedEntry, RightNestedEntry, EntryYield;
      assert [e] + [] == [e] && EntriesValue(env, []) == Some([]);
      if |rest| > 1 && rest[0] == SEMI {
        if ParseEntries(rest[1..]).Some? {
          ParseEntriesSound(rest[1..]);
          EntriesValueCons(env, done, e, ParseEntries(rest[1..]).value.0);
        }
        if EntryValue(env, e).Some? {
          EntriesShiftIs(env, done + [EntryValue(env, e).value], rest[1..]);
        }
      } else if EntryValue(env, e).Some? {
        assert done + [EntryValue(env, e).value] + [] == done + [EntryValue(env, e).value];
      }
    }
  }

  /**
   * For every token sequence, the shift-preferring machine and the recursive parser accept the same
   * inputs and build the same entries.
   */
  lemma {:induction false} PolicyShiftIsCompile(env: Env, toks: seq<Token>)
    ensures PolicyShift(env, toks) == Compile(env, toks)
  {
    if ParsePolicy(toks).Some? {
      ParsePolicySound(toks);
    }
    if toks != [] && toks[0].Number? {
      if |toks| > 1 && toks[1] == SEMI {
        EntriesShiftIs(env, [], toks[2..]);
        AfterNothing(EntriesOf(env, ParseEntries(toks[2..])));
      }
    } else {
      EntriesShiftIs(env, [], toks);
      AfterNothing(EntriesOf(env, ParseEntries(toks)));
    }
  }

  lemma {:induction false} AfterNothing(more: Option<seq<Entry>>)
    ensures After([], more) == more
  {
    assert more.Some? ==> [] + more.value == more.value;
  }
}
