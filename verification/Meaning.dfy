/** What the text of a policy means for a caller, from the names in it to the decision. */
module Meaning {
  import opened Wrappers
  import opened Numerals
  import opened Syntax
  import opened Grammar
  import opened PolicyGrammar
  import opened Policy

  /** A user or group written in a policy denotes this id of the caller. */
  predicate Denotes(ids: map<string, int>, x: IdSyntax, id: nat) {
    match x
    case IdNumber(n) => n < 0 || n == id
    case IdWild => true
    case IdWord(name) => name in ids && ids[name] == id
  }

  /** It denotes everyone, even a caller without credentials. */
  predicate DenotesAll(x: IdSyntax) {
    x.IdWild? || (x.IdNumber? && x.n < 0)
  }

  predicate DenotesUser(ids: map<string, int>, x: IdSyntax, cred: Option<Caller>) {
    DenotesAll(x) || (cred.Some? && Denotes(ids, x, cred.value.euid))
  }

  predicate DenotesGroup(ids: map<string, int>, x: IdSyntax, cred: Option<Caller>) {
    || DenotesAll(x)
    || (cred.Some? && (Denotes(ids, x, cred.value.egid) || exists g :: g in cred.value.groups && Denotes(ids, x, g)))
  }

  /** The check is about an action with this name, the first in the table. */
  ghost predicate Calls(actions: seq<Action>, name: string, hasParam: bool, action: nat) {
    exists i :: 0 <= i < |actions| && actions[i].name == name && actions[i].id == action
      && hasParam == (actions[i].args != 0)
                && forall j :: 0 <= j < i ==> actions[j].name != name
  }

  ghost predicate Means(ps: Patterns, env: Env, t: Term, pc: Check)
    requires WellFormedTerm(t)
  {
    match t
    case UserTerm(u) => DenotesUser(env.users, u, pc.cred)
    case UserGroupTerm(u, g) => DenotesUser(env.users, u, pc.cred) && DenotesGroup(env.groups, g, pc.cred)
    case GroupTerm(g) => DenotesGroup(env.groups, g, pc.cred)
    case CallTerm(name) => Calls(env.actions, name, false, pc.action)
    case CallParamTerm(name, param) =>
      && Calls(env.actions, name, true, pc.action)
      && (ParamText(param) == "*" || (pc.arg.Some? && ps.matches(ParamText(param), pc.arg.value)))
  }

  /** Ids are 31-bit numbers, as far as they are not negative. */
  predicate IdFits(ids: map<string, int>, x: IdSyntax) {
    match x
    case IdNumber(n) => n < TWO_31
    case IdWild => true
    case IdWord(name) => name in ids ==> ids[name] < TWO_31
  }

  predicate TermFits(env: Env, t: Term) {
    match t
    case UserTerm(u) => IdFits(env.users, u)
    case UserGroupTerm(u, g) => IdFits(env.users, u) && IdFits(env.groups, g)
    case GroupTerm(g) => IdFits(env.groups, g)
    case _ => true
  }

  lemma {:induction false} UserMeans(ids: map<string, int>, x: IdSyntax, cred: Option<Caller>)
    requires IdFits(ids, x)
    ensures MatchUser(IdValue(ids, x), cred) <==> DenotesUser(ids, x, cred)
  {
  }

  lemma {:induction false} GroupMeans(ids: map<string, int>, x: IdSyntax, cred: Option<Caller>)
    requires IdFits(ids, x)
    ensures MatchGroup(IdValue(ids, x), cred) <==> DenotesGroup(ids, x, cred)
  {
  }

  /** The action found for a name is the first one in the table that has it. */
  lemma {:induction false} FoundIsFirst(actions: seq<Action>, name: string)
    ensures match FindAction(actions, name)
      case None => forall i :: 0 <= i < |actions| ==> actions[i].name != name
      case Some(a) => exists i :: 0 <= i < |actions| && actions[i] == a && a.name == name
                                  && forall j :: 0 <= j < i ==> actions[j].name != name
    decreases |actions|
  {
    if actions != [] && actions[0].name != name {
      FoundIsFirst(actions[1..], name);
      if FindAction(actions, name).Some? {
        var i :| 0 <= i < |actions| - 1 && actions[1..][i] == FindAction(actions, name).value
                 && forall j :: 0 <= j < i ==> actions[1..][j].name != name;
        assert actions[i + 1] == actions[1..][i];
        forall j | 0 <= j < i + 1 ensures actions[j].name != name {
          assert j > 0 ==> actions[j] == actions[1..][j - 1];
        }
      } else {
        forall i | 0 <= i < |actions| ensures actions[i].name != name {
          assert i > 0 ==> actions[i] == actions[1..][i - 1];
        }
      }
    }
  }

  lemma {:induction false} CallMeans(actions: seq<Action>, name: string, param: Option<string>, action: nat)
    requires CustomValue(actions, name, param).Some?
    ensures CustomValue(actions, name, param).value == Custom(FindAction(actions, name).value.id, param)
    ensures FindAction(actions, name).value.id == action <==> Calls(actions, name, param.Some?, action)
  {
    FoundIsFirst(actions, name);
  }

  /** The compiled term matches exactly the callers, actions and arguments that its text speaks of. */
  lemma {:induction false} TermMeans(ps: Patterns, env: Env, t: Term, pc: Check)
    requires WellFormedTerm(t) && TermFits(env, t) && TermValue(env, t).Some?
    ensures Match(ps, CompileExpr(TermValue(env, t).value), pc) <==> Means(ps, env, t, pc)
  {
    match t
    case UserTerm(u) => UserMeans(env.users, u, pc.cred);
    case UserGroupTerm(u, g) =>
      UserMeans(env.users, u, pc.cred);
      GroupMeans(env.groups, g, pc.cred);
    case GroupTerm(g) => GroupMeans(env.groups, g, pc.cred);
    case CallTerm(name) => CallMeans(env.actions, name, None, pc.action);
    case CallParamTerm(name, param) => CallMeans(env.actions, name, Some(ParamText(param)), pc.action);
  }

  // Whole policies

  ghost predicate MeansExpr(ps: Patterns, env: Env, d: Deriv, pc: Check)
    requires WellFormed(d)
  {
    match d
    case DTerm(t) => Means(ps, env, t, pc)
    case DNot(x) => !MeansExpr(ps, env, x, pc)
    case DParen(x) => MeansExpr(ps, env, x, pc)
    case DBinary(And, l, r) => MeansExpr(ps, env, l, pc) && MeansExpr(ps, env, r, pc)
    case DBinary(Or, l, r) => MeansExpr(ps, env, l, pc) || MeansExpr(ps, env, r, pc)
  }

  predicate ExprFits(env: Env, d: Deriv) {
    match d
    case DTerm(t) => TermFits(env, t)
    case DNot(x) => ExprFits(env, x)
    case DParen(x) => ExprFits(env, x)
    case DBinary(_, l, r) => ExprFits(env, l) && ExprFits(env, r)
  }

  lemma {:induction false} ExprMeans(ps: Patterns, env: Env, d: Deriv, pc: Check)
    requires WellFormed(d) && ExprFits(env, d) && Value(env, d).Some?
    ensures Match(ps, CompileExpr(Value(env, d).value), pc) <==> MeansExpr(ps, env, d, pc)
  {
    match d
    case DTerm(t) => TermMeans(ps, env, t, pc);
    case DNot(x) => ExprMeans(ps, env, x, pc);
    case DParen(x) => ExprMeans(ps, env, x, pc);
    case DBinary(_, l, r) =>
      ExprMeans(ps, env, l, pc);
      ExprMeans(ps, env, r, pc);
  }

  predicate EntryFits(env: Env, e: EntryDeriv) {
    e.DRule? ==> ExprFits(env, e.d)
  }

  /** What the entries of a policy say, read one after the other: each one that applies overrides the others. */
  ghost function Outcome(ps: Patterns, env: Env, es: seq<EntryDeriv>, pc: Check, sofar: Access): Access
    requires forall i :: 0 <= i < |es| ==> WellFormedEntry(es[i])
    decreases |es|
  {
    if es == [] then sofar
    else
      assert WellFormedEntry(es[0]);
      var next := match es[0]
        case DWildcard(a) => a
        case DRule(d, a) => if MeansExpr(ps, env, d, pc) then a.GetOr(Allow) else sofar;
      Outcome(ps, env, es[1..], pc, next)
  }

  lemma {:induction false} VerdictIsOutcome(ps: Patterns, env: Env, ds: seq<EntryDeriv>, pc: Check, def: Access)
    requires forall i :: 0 <= i < |ds| ==> WellFormedEntry(ds[i]) && EntryFits(env, ds[i])
    requires EntriesValue(env, ds).Some?
    ensures Verdict(ps, EntriesValue(env, ds).value, pc, def) == Outcome(ps, env, ds, pc, def)
    decreases |ds|
  {
    if ds != [] {
      assert EntryFits(env, ds[0]);
      if ds[0].DRule? {
        ExprMeans(ps, env, ds[0].d, pc);
        CompiledMatches(ps, Value(env, ds[0].d).value, pc);
      }
      hide Value, WellFormed, ExprFits, MeansExpr, Match, Policy.Holds, CompileExpr;
      var es := EntriesValue(env, ds).value;
      assert es[1..] == EntriesValue(env, ds[1..]).value;
      var applies := es[0].expr.None? || Policy.Holds(ps, es[0].expr.value, pc);
      VerdictIsOutcome(ps, env, ds[1..], pc, if applies then es[0].access else def);
    }
  }

  /**
   * The decision of an accepted policy is what its text says: the terms, joined as the grammar joins
   * them, entry after entry, with access allowed where nothing else is written.
   */
  lemma {:induction false} PolicyMeans(ps: Patterns, env: Env, toks: seq<Token>, pc: Check, def: Access)
    requires Compile(env, toks).Some?
    requires forall i :: 0 <= i < |ParsePolicy(toks).value.entries| ==>
      EntryFits(env, ParsePolicy(toks).value.entries[i])
    ensures WellFormedPolicy(ParsePolicy(toks).value)
    ensures Decide(ps, CompileEntries(Compile(env, toks).value), pc, def) ==
            Outcome(ps, env, ParsePolicy(toks).value.entries, pc, def)
  {
    hide Decide, Verdict, Outcome, EntriesValue, CompileEntries;
    VerdictIsOutcome(ps, env, ParsePolicy(toks).value.entries, pc, def);
    CompiledDecides(ps, Compile(env, toks).value, pc, def);
  }
}
