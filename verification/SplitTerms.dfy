/** user(u:g) and (user(u)&group(g)) are interchangeable in the text of a policy. */
module SplitTerms {
  import opened Wrappers
  import opened Syntax
  import opened Grammar
  import opened PolicyGrammar
  import opened Policy

  /** d' is d with some user(u:g) written as (user(u)&group(g)). */
  predicate SplitsDeriv(d: Deriv, d': Deriv)
    decreases d
  {
    || d == d'
    || (d.DTerm? && d.t.UserGroupTerm? &&
        d' == DParen(DBinary(And, DTerm(UserTerm(d.t.u)), DTerm(GroupTerm(d.t.g)))))
    || (d.DNot? && d'.DNot? && SplitsDeriv(d.d, d'.d))
    || (d.DParen? && d'.DParen? && SplitsDeriv(d.d, d'.d))
    || (d.DBinary? && d'.DBinary? && d.op == d'.op && SplitsDeriv(d.l, d'.l) && SplitsDeriv(d.r, d'.r))
  }

  predicate SplitsEntryDeriv(e: EntryDeriv, e': EntryDeriv) {
    e == e' || (e.DRule? && e'.DRule? && e.grant == e'.grant && SplitsDeriv(e.d, e'.d))
  }

  predicate SplitsPolicy(p: PolicyDeriv, p': PolicyDeriv) {
    && p.version == p'.version && p.semi == p'.semi && |p.entries| == |p'.entries|
    && forall i :: 0 <= i < |p.entries| ==> SplitsEntryDeriv(p.entries[i], p'.entries[i])
  }

  lemma {:induction false} SplitsDerivValue(env: Env, d: Deriv, d': Deriv)
    requires WellFormed(d) && RightNested(d) && SplitsDeriv(d, d')
    ensures WellFormed(d') && RightNested(d') && (d.DTerm? || d.DParen? ==> d'.DTerm? || d'.DParen?)
    ensures var v, v' := Value(env, d), Value(env, d');
      v.Some? == v'.Some? && (v.Some? ==> Splits(v.value, v'.value))
    decreases d
  {
    if d != d' {
      match d
      case DTerm(t) =>
        var user, group := DTerm(UserTerm(t.u)), DTerm(GroupTerm(t.g));
        assert WellFormed(user) && WellFormed(group);
        assert Value(env, DBinary(And, user, group))
          == Some(Binary(And, Value(env, user).value, Value(env, group).value));
      case DNot(x) => SplitsDerivValue(env, x, d'.d);
      case DParen(x) => SplitsDerivValue(env, x, d'.d);
      case DBinary(_, l, r) =>
        SplitsDerivValue(env, l, d'.l);
        SplitsDerivValue(env, r, d'.r);
    }
  }

  lemma {:induction false} SplitsEntryValue(env: Env, e: EntryDeriv, e': EntryDeriv)
    requires WellFormedEntry(e) && RightNestedEntry(e) && SplitsEntryDeriv(e, e')
    ensures WellFormedEntry(e') && RightNestedEntry(e')
    ensures var v, v' := EntryValue(env, e), EntryValue(env, e');
      v.Some? == v'.Some? && (v.Some? ==> SplitsEntry(v.value, v'.value))
  {
    if e.DRule? {
      SplitsDerivValue(env, e.d, e'.d);
    }
  }

  predicate SplitsAll(es: seq<Entry>, es': seq<Entry>) {
    |es| == |es'| && forall i :: 0 <= i < |es| ==> SplitsEntry(es[i], es'[i])
  }

  lemma {:induction false} SplitsEntriesValue(env: Env, es: seq<EntryDeriv>, es': seq<EntryDeriv>)
    requires GoodEntries(es) && |es| == |es'|
    requires forall i :: 0 <= i < |es| ==> SplitsEntryDeriv(es[i], es'[i])
    ensures GoodEntries(es')
    ensures var v, v' := EntriesValue(env, es), EntriesValue(env, es');
      v.Some? == v'.Some? && (v.Some? ==> SplitsAll(v.value, v'.value))
  {
    hide WellFormedEntry, RightNestedEntry, SplitsEntryDeriv, EntryValue, SplitsEntry;
    if es != [] {
      SplitsEntryValue(env, es[0], es'[0]);
      SplitsEntriesValue(env, es[1..], es'[1..]);
      forall i | 0 <= i < |es'| ensures WellFormedEntry(es'[i]) && RightNestedEntry(es'[i]) {
        assert i > 0 ==> es'[i] == es'[1..][i - 1];
      }
    }
  }

  /**
   * In any policy, writing some user(u:g) as (user(u)&group(g)) changes neither whether the text is
   * accepted nor any decision.
   */
  lemma {:induction false} SplitText(ps: Patterns, env: Env, toks: seq<Token>, p': PolicyDeriv, pc: Check, def: Access)
    requires ParsePolicy(toks).Some? && SplitsPolicy(ParsePolicy(toks).value, p')
    ensures WellFormedPolicy(p')
    ensures var es, es' := Compile(env, toks), Compile(env, PolicyYield(p'));
      && es.Some? == es'.Some?
      && (es.Some? ==> Decide(ps, CompileEntries(es.value), pc, def) == Decide(ps, CompileEntries(es'.value), pc, def))
  {
    var p := ParsePolicy(toks).value;
    ParsePolicySound(toks);
    assert GoodEntries(p.entries);
    SplitsEntriesValue(env, p.entries, p'.entries);
    assert WellFormedPolicy(p') && RightNestedPolicy(p');
    ParsePolicyComplete(p');
    hide ParsePolicy, PolicyYield, EntriesValue, GoodEntries, SplitsEntryDeriv, SplitsEntry;
    var es, es' := Compile(env, toks), Compile(env, PolicyYield(p'));
    if es.Some? {
      assert SplitsAll(es.value, es'.value);
      SplitDecides(ps, es.value, es'.value, pc, def);
    }
  }

  /** user(1:2)|user(3) */
  const WHOLE: Deriv :=
    DBinary(Or, DTerm(UserGroupTerm(IdNumber(1), IdNumber(2))), DTerm(UserTerm(IdNumber(3))))

  /** user(1)&group(2)|user(3), as it is read */
  const SPLIT: Deriv :=
    DBinary(And, DTerm(UserTerm(IdNumber(1))), DBinary(Or, DTerm(GroupTerm(IdNumber(2))), DTerm(UserTerm(IdNumber(3)))))

  /** The parentheses are needed: without them the text is read differently, */
  lemma {:induction false} ParenthesesNeeded()
    ensures ParseExpr(Yield(WHOLE)) == Some((WHOLE, []))
    ensures ParseExpr(TermYield(UserTerm(IdNumber(1))) + [OpToken(And)] + TermYield(GroupTerm(IdNumber(2))) +
                      [OpToken(Or)] + TermYield(UserTerm(IdNumber(3)))) == Some((SPLIT, []))
  {
    hide ParseExpr, Yield, TermYield, OpToken;
    ParsedWhole(WHOLE);
    ParsedWhole(SPLIT);
    YieldOfSplit();
  }

  /** and differ on user 3. */
  lemma {:induction false} ParenthesesMatter(ps: Patterns, env: Env)
    ensures var pc, whole, split := Check(Some(Caller(3, 0, [])), 0, None), Value(env, WHOLE), Value(env, SPLIT);
      whole.Some? && split.Some? && Holds(ps, whole.value, pc) && !Holds(ps, split.value, pc)
  {
    var u1, g2, u3 := Identity(1, WILDCARD), Identity(WILDCARD, 2), Identity(3, WILDCARD);
    var inner := SPLIT.r;
    assert Value(env, inner.l) == Some(g2) && Value(env, inner.r) == Some(u3) && Value(env, SPLIT.l) == Some(u1);
    assert Value(env, inner) == Some(Binary(Or, g2, u3));
    assert Value(env, SPLIT) == Some(Binary(And, u1, Binary(Or, g2, u3)));
    assert Value(env, WHOLE.l) == Some(Identity(1, 2)) && Value(env, WHOLE.r) == Some(u3);
    assert Value(env, WHOLE) == Some(Binary(Or, Identity(1, 2), u3));
    hide Value;
  }

  lemma {:induction false} YieldOfSplit()
    ensures Yield(SPLIT) == TermYield(UserTerm(IdNumber(1))) + [OpToken(And)] + TermYield(GroupTerm(IdNumber(2))) +
                            [OpToken(Or)] + TermYield(UserTerm(IdNumber(3)))
  {
    hide TermYield, OpToken;
    assert Yield(SPLIT.r) == TermYield(GroupTerm(IdNumber(2))) + [OpToken(Or)] + TermYield(UserTerm(IdNumber(3)));
  }

  lemma {:induction false} ParsedWhole(d: Deriv)
    requires WellFormed(d) && RightNested(d)
    ensures ParseExpr(Yield(d)) == Some((d, []))
  {
    hide ParseExpr, Yield;
    ParseExprComplete(d, []);
    assert Yield(d) + [] == Yield(d);
  }
}
