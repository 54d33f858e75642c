/** The rules of the grammar above expressions: versions, entries and whole policies. */
module PolicyGrammar {
  import opened Wrappers
  import opened Syntax
  import opened Grammar

  const FORMAT_VERSION: int := 1

  datatype EntryDeriv =
    | DWildcard(access: Access)
    | DRule(d: Deriv, grant: Option<Access>)

  /** version | [version ';'] entries [';'] */
  datatype PolicyDeriv = DPolicy(version: Option<int>, entries: seq<EntryDeriv>, semi: bool)

  predicate WellFormedEntry(e: EntryDeriv) {
    e.DRule? ==> WellFormed(e.d)
  }

  predicate WellFormedPolicy(p: PolicyDeriv) {
    && (p.entries == [] ==> p.version.Some? && !p.semi)
    && forall i :: 0 <= i < |p.entries| ==> WellFormedEntry(p.entries[i])
  }

  function AccessToken(a: Access): Token {
    match a
    case Allow => KwAllow
    case Deny => KwDeny
  }

  function EntryYield(e: EntryDeriv): seq<Token> {
    match e
    case DWildcard(a) => [STAR, EQUALS, AccessToken(a)]
    case DRule(d, None) => Yield(d)
    case DRule(d, Some(a)) => Yield(d) + [EQUALS, AccessToken(a)]
  }

  function EntriesYield(es: seq<EntryDeriv>, semi: bool): seq<Token>
    requires es != []
  {
    EntryYield(es[0]) +
    if |es| == 1 then (if semi then [SEMI] else []) else [SEMI] + EntriesYield(es[1..], semi)
  }

  function PolicyYield(p: PolicyDeriv): seq<Token>
    requires WellFormedPolicy(p)
  {
    if p.entries == [] then [Number(p.version.value)]
    else (if p.version.Some? then [Number(p.version.value), SEMI] else []) + EntriesYield(p.entries, p.semi)
  }

  /** The entry that the actions build; access defaults to allow. */
  function EntryValue(env: Env, e: EntryDeriv): Option<Entry>
    requires WellFormedEntry(e)
  {
    match e
    case DWildcard(a) => Some(Entry(None, a))
    case DRule(d, a) =>
      var v := Value(env, d);
      if v.Some? then Some(Entry(v, a.GetOr(Allow))) else None
  }

  function EntriesValue(env: Env, es: seq<EntryDeriv>): (r: Option<seq<Entry>>)
    requires forall i :: 0 <= i < |es| ==> WellFormedEntry(es[i])
  {
    if es == [] then Some([]) else
      var e, rest := EntryValue(env, es[0]), EntriesValue(env, es[1..]);
      if e.Some? && rest.Some? then Some([e.value] + rest.value) else None
  }

  function PolicyValue(env: Env, p: PolicyDeriv): Option<seq<Entry>>
    requires WellFormedPolicy(p)
  {
    if p.version.Some? && p.version.value != FORMAT_VERSION then None else EntriesValue(env, p.entries)
  }

  // Right-nested policies

  predicate RightNestedEntry(e: EntryDeriv) {
    e.DRule? ==> RightNested(e.d)
  }

  predicate RightNestedPolicy(p: PolicyDeriv) {
    forall i :: 0 <= i < |p.entries| ==> RightNestedEntry(p.entries[i])
  }

  function ReshapeEntry(e: EntryDeriv): EntryDeriv {
    match e
    case DWildcard(_) => e
    case DRule(d, a) => DRule(Reshape(d), a)
  }

  function ReshapeEntries(es: seq<EntryDeriv>): (r: seq<EntryDeriv>)
    ensures |r| == |es|
  {
    if es == [] then [] else [ReshapeEntry(es[0])] + ReshapeEntries(es[1..])
  }

  lemma {:induction false} ReshapeEntryKeeps(env: Env, e: EntryDeriv)
    requires WellFormedEntry(e)
    ensures var e' := ReshapeEntry(e);
      WellFormedEntry(e') && RightNestedEntry(e') && EntryYield(e') == EntryYield(e)
      && (EntryValue(env, e').Some? <==> EntryValue(env, e).Some?)
  {
    if e.DRule? {
      ReshapeKeeps(env, e.d);
    }
  }

  lemma {:induction false} ReshapeEntriesKeeps(env: Env, es: seq<EntryDeriv>, semi: bool)
    requires es != [] && forall i :: 0 <= i < |es| ==> WellFormedEntry(es[i])
    ensures var es' := ReshapeEntries(es);
      (forall i :: 0 <= i < |es'| ==> WellFormedEntry(es'[i]) && RightNestedEntry(es'[i]))
      && EntriesYield(es', semi) == EntriesYield(es, semi)
      && (EntriesValue(env, es').Some? <==> EntriesValue(env, es).Some?)
  {
    ReshapeEntryKeeps(env, es[0]);
    var es' := ReshapeEntries(es);
    assert es'[1..] == ReshapeEntries(es[1..]);
    if |es| > 1 {
      ReshapeEntriesKeeps(env, es[1..], semi);
      forall i | 0 <= i < |es'| ensures WellFormedEntry(es'[i]) && RightNestedEntry(es'[i]) {
        assert i > 0 ==> es'[i] == es'[1..][i - 1];
      }
    }
  }

  // The recursive parser

  function ParseAccess(toks: seq<Token>): (r: Option<(Access, seq<Token>)>)
    ensures r.Some? ==> toks == [AccessToken(r.value.0)] + r.value.1
  {
    if toks != [] && toks[0] == KwAllow then Some((Allow, toks[1..]))
    else if toks != [] && toks[0] == KwDeny then Some((Deny, toks[1..]))
    else None
  }

  /** '=' access */
  function ParseGrant(toks: seq<Token>): (r: Option<(Access, seq<Token>)>)
    ensures r.Some? ==> toks == [EQUALS, AccessToken(r.value.0)] + r.value.1
  {
    match Expect(EQUALS, toks)
    case None => None
    case Some(rest) => ParseAccess(rest)
  }

  function ParseEntry(toks: seq<Token>): (r: Option<(EntryDeriv, seq<Token>)>)
    ensures r.Some? ==> |r.value.1| < |toks|
  {
    if toks != [] && toks[0] == STAR then
      match ParseGrant(toks[1..])
      case None => None
      case Some((a, rest)) => Some((DWildcard(a), rest))
    else
      match ParseExpr(toks)
      case None => None
      case Some((d, rest)) =>
        if Head(rest) == Some(EQUALS) then
          match ParseGrant(rest)
          case None => None
          case Some((a, rest')) => Some((DRule(d, Some(a)), rest'))
        else Some((DRule(d, None), rest))
  }

  function ParseEntries(toks: seq<Token>): (r: Option<(seq<EntryDeriv>, bool)>)
    ensures r.Some? ==> r.value.0 != []
    decreases |toks|
  {
    match ParseEntry(toks)
    case None => None
    case Some((e, rest)) =>
      if rest == [] then Some(([e], false))
      else if rest[0] != SEMI then None
      else if |rest| == 1 then Some(([e], true))
      else
        match ParseEntries(rest[1..])
        case None => None
        case Some((es, semi)) => Some(([e] + es, semi))
  }

  function ParsePolicy(toks: seq<Token>): Option<PolicyDeriv> {
    if toks != [] && toks[0].Number? then
      if |toks| == 1 then Some(DPolicy(Some(toks[0].n), [], false))
      else if toks[1] != SEMI then None
      else
        match ParseEntries(toks[2..])
        case None => None
        case Some((es, semi)) => Some(DPolicy(Some(toks[0].n), es, semi))
    else
      match ParseEntries(toks)
      case None => None
      case Some((es, semi)) => Some(DPolicy(None, es, semi))
  }

  /** The entries of an accepted policy, in source order. */
  function Compile(env: Env, toks: seq<Token>): Option<seq<Entry>> {
    match ParsePolicy(toks)
    case None => None
    case Some(p) => if WellFormedPolicy(p) then PolicyValue(env, p) else None
  }

  // The parser finds right-nested derivations, and all of them

  lemma {:induction false} ParseEntrySound(toks: seq<Token>)
    requires ParseEntry(toks).Some?
    ensures var (e, rest) := ParseEntry(toks).value;
      WellFormedEntry(e) && RightNestedEntry(e) && toks == EntryYield(e) + rest
  {
    if toks[0] != STAR {
      ParseExprSound(toks);
      hide ParseExpr, Yield, WellFormed, RightNested;
      var (d, rest) := ParseExpr(toks).value;
      if Head(rest) == Some(EQUALS) {
        var (a, rest') := ParseGrant(rest).value;
        assert toks == Yield(d) + [EQUALS, AccessToken(a)] + rest';
      }
    } else {
      hide ParseExpr;
      var (a, rest) := ParseGrant(toks[1..]).value;
      assert toks == [STAR, EQUALS, AccessToken(a)] + rest;
    }
  }

  predicate GoodEntries(es: seq<EntryDeriv>) {
    forall i :: 0 <= i < |es| ==> WellFormedEntry(es[i]) && RightNestedEntry(es[i])
  }

  lemma {:induction false} GoodCons(e: EntryDeriv, es: seq<EntryDeriv>)
    requires WellFormedEntry(e) && RightNestedEntry(e) && GoodEntries(es)
    ensures GoodEntries([e] + es)
  {
  }

  lemma {:induction false} NoEntries()
    ensures GoodEntries([])
  {
  }

  lemma {:induction false} ParseEntriesSound(toks: seq<Token>)
    requires ParseEntries(toks).Some?
    ensures var (es, semi) := ParseEntries(toks).value;
      GoodEntries(es) && toks == EntriesYield(es, semi)
    decreases |toks|
  {
    hide ParseEntry, EntryYield, GoodEntries, WellFormedEntry, RightNestedEntry;
    ParseEntrySound(toks);
    var (e, rest) := ParseEntry(toks).value;
    NoEntries();
    GoodCons(e, []);
    if |rest| > 1 {
      ParseEntriesSound(rest[1..]);
      var (es', semi) := ParseEntries(rest[1..]).value;
      GoodCons(e, es');
      assert ([e] + es')[1..] == es';
      assert rest == [SEMI] + rest[1..];
    } else {
      assert [e] + [] == [e];
      assert rest == [] || rest == [SEMI];
    }
  }

  /** What the parser accepts is a right-nested policy of exactly these tokens. */
  lemma {:induction false} ParsePolicySound(toks: seq<Token>)
    requires ParsePolicy(toks).Some?
    ensures var p := ParsePolicy(toks).value;
      WellFormedPolicy(p) && RightNestedPolicy(p) && PolicyYield(p) == toks
  {
    hide ParseEntries, EntriesYield;
    if toks != [] && toks[0].Number? {
      if |toks| > 1 {
        ParseEntriesSound(toks[2..]);
      }
    } else {
      ParseEntriesSound(toks);
    }
  }

  /** The token after an entry is a semicolon, if there is one. */
  predicate AtEntryEnd(rest: seq<Token>) {
    rest == [] || rest[0] == SEMI
  }

  /** Expressions start with '!', '(' or a term's name. */
  predicate StartsExpr(t: Token) {
    t == BANG || t == LPAREN || t == KwUser || t == KwGroup || t.Id?
  }

  lemma {:induction false} YieldStart(d: Deriv)
    ensures Yield(d) != [] && StartsExpr(Yield(d)[0])
  {
    if d.DBinary? {
      YieldStart(d.l);
    }
  }

  lemma {:induction false} GrantComplete(a: Access, rest: seq<Token>)
    ensures ParseGrant([EQUALS] + ([AccessToken(a)] + rest)) == Some((a, rest))
  {
  }

  lemma {:induction false} ParseEntryComplete(e: EntryDeriv, rest: seq<Token>)
    requires WellFormedEntry(e) && RightNestedEntry(e) && AtEntryEnd(rest)
    ensures ParseEntry(EntryYield(e) + rest) == Some((e, rest))
  {
    hide ParseExpr, Yield, RightNested, WellFormed;
    match e
    case DWildcard(a) =>
      assert EntryYield(e) + rest == [STAR] + ([EQUALS] + ([AccessToken(a)] + rest));
      GrantComplete(a, rest);
    case DRule(d, None) =>
      YieldStart(d);
      ParseExprComplete(d, rest);
    case DRule(d, Some(a)) =>
      YieldStart(d);
      var rest' := [EQUALS] + ([AccessToken(a)] + rest);
      assert EntryYield(e) + rest == Yield(d) + rest';
      ParseExprComplete(d, rest');
      GrantComplete(a, rest);
      hide ParseGrant, EntryYield;
  }

  lemma {:induction false} GoodParts(es: seq<EntryDeriv>)
    requires es != [] && GoodEntries(es)
    ensures WellFormedEntry(es[0]) && RightNestedEntry(es[0]) && GoodEntries(es[1..])
  {
  }

  lemma {:induction false} ParseEntriesComplete(es: seq<EntryDeriv>, semi: bool)
    requires es != [] && GoodEntries(es)
    ensures ParseEntries(EntriesYield(es, semi)) == Some((es, semi))
  {
    hide ParseEntry, EntryYield, GoodEntries, WellFormedEntry, RightNestedEntry, StartsExpr;
    GoodParts(es);
    if |es| == 1 {
      var rest := if semi then [SEMI] else [];
      ParseEntryComplete(es[0], rest);
      assert es == [es[0]];
    } else {
      var more := EntriesYield(es[1..], semi);
      var rest := [SEMI] + more;
      ParseEntryComplete(es[0], rest);
      ParseEntriesComplete(es[1..], semi);
      EntriesYieldStart(es[1..], semi);
      assert rest[1..] == more;
      assert es == [es[0]] + es[1..];
    }
  }

  lemma {:induction false} EntriesYieldStart(es: seq<EntryDeriv>, semi: bool)
    requires es != []
    ensures var toks := EntriesYield(es, semi); toks != [] && (toks[0] == STAR || StartsExpr(toks[0]))
  {
    if es[0].DRule? {
      YieldStart(es[0].d);
    }
  }

  lemma {:induction false} NoNumber(t: Token)
    requires t == STAR || StartsExpr(t)
    ensures !t.Number?
  {
  }

  lemma {:induction false} ParsePolicyComplete(p: PolicyDeriv)
    requires WellFormedPolicy(p) && RightNestedPolicy(p)
    ensures ParsePolicy(PolicyYield(p)) == Some(p)
  {
    if p.entries != [] {
      EntriesYieldStart(p.entries, p.semi);
      ParseEntriesComplete(p.entries, p.semi);
      var toks := EntriesYield(p.entries, p.semi);
      hide ParseEntries, EntriesYield, StartsExpr;
      if p.version.Some? {
        assert PolicyYield(p) == [Number(p.version.value), SEMI] + toks;
        assert PolicyYield(p)[2..] == toks;
      } else {
        assert PolicyYield(p) == toks;
        assert !toks[0].Number? by { NoNumber(toks[0]); }
      }
    }
  }

  /**
   * Preferring to shift loses no sentence: a token sequence compiles exactly if the ambiguous
   * grammar derives it, in any way, from version 1 and known actions.
   */
  lemma {:induction false} CompilesExactly(env: Env, toks: seq<Token>)
    ensures Compile(env, toks).Some? <==>
            exists p :: WellFormedPolicy(p) && PolicyYield(p) == toks && PolicyValue(env, p).Some?
  {
    if Compile(env, toks).Some? {
      ParsePolicySound(toks);
      var p := ParsePolicy(toks).value;
      assert WellFormedPolicy(p) && PolicyYield(p) == toks && PolicyValue(env, p).Some?;
    }
    forall p | WellFormedPolicy(p) && PolicyYield(p) == toks && PolicyValue(env, p).Some?
      ensures Compile(env, toks).Some?
    {
      if p.entries == [] {
        ParsePolicyComplete(p);
      } else {
        ReshapeEntriesKeeps(env, p.entries, p.semi);
        var p' := p.(entries := ReshapeEntries(p.entries));
        assert WellFormedPolicy(p') && RightNestedPolicy(p');
        assert PolicyYield(p') == toks;
        ParsePolicyComplete(p');
      }
    }
  }
}
