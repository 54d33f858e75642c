/** From the text of a status file and the text of a policy to a decision. */
module EndToEnd {
  import opened Wrappers
  import opened Numerals
  import opened CredSpec
  import opened Syntax
  import opened Policy
  import PolicyGrammar
  import PolicyPrinter
  import Scanner
  import ScannerModes
  import CredPrinter

  /** The caller that da_policy_check sees for a credential with these values. */
  function CallerOf(v: Values): Caller {
    Caller(v.Euid().GetOr(0), v.Egid().GetOr(0), v.Gids().GetOr([]))
  }

  /** What the text of a status file makes of a caller. */
  function CallerIn(status: string): Caller {
    CallerOf(FirstValues(Lines(status)))
  }

  /** The words of the first Groups line. */
  function GroupWords(v: Values): seq<string> {
    if v.groups.Some? then Words(v.groups.value) else []
  }

  /** The group ids are exactly what the valid words say. */
  lemma {:induction false} GroupIdsAre(words: seq<string>, g: nat)
    ensures g in GroupIds(words) <==> exists w :: w in words && ParseUint32(w) == Some(g)
    decreases |words|
  {
    if words != [] {
      var last := |words| - 1;
      GroupIdsAre(words[..last], g);
      assert words == words[..last] + [words[last]];
      hide ParseUint32;
    }
  }

  /**
   * For an id that a policy can name, group(g) holds of a process exactly if g is its effective group
   * or one of the valid words on the first Groups line of its status file says g.
   */
  lemma {:induction false} GroupHoldsIff(ps: Patterns, status: string, g: nat, action: nat, arg: Option<string>)
    requires g < TWO_31 && FirstValues(Lines(status)).Egid().Some?
    ensures var v := FirstValues(Lines(status));
      Match(ps, CompileExpr(Identity(WILDCARD, g)), Check(Some(CallerIn(status)), action, arg)) <==>
        v.Egid() == Some(g) || exists w :: w in GroupWords(v) && ParseUint32(w) == Some(g)
  {
    var v := FirstValues(Lines(status));
    GroupIdsAre(GroupWords(v), g);
    hide FirstValues, Lines, Words, GroupIds, ParseUint32, SecondOfFour;
  }

  /** Callers with the same effective ids and the same set of groups. */
  ghost predicate Alike(c: Caller, d: Caller) {
    c.euid == d.euid && c.egid == d.egid && forall g :: g in c.groups <==> g in d.groups
  }

  lemma {:induction false} AlikeMatch(ps: Patterns, x: Node, c: Caller, d: Caller, action: nat, arg: Option<string>)
    requires Alike(c, d)
    ensures Match(ps, x, Check(Some(c), action, arg)) == Match(ps, x, Check(Some(d), action, arg))
    decreases x
  {
    match x
    case IdentityNode(_, _) =>
    case CustomNode(_, _) =>
    case NotNode(y) => AlikeMatch(ps, y, c, d, action, arg);
    case BinaryNode(_, l, r) =>
      AlikeMatch(ps, l, c, d, action, arg);
      AlikeMatch(ps, r, c, d, action, arg);
  }

  lemma {:induction false} AlikeDecide(ps: Patterns, rules: seq<Rule>, c: Caller, d: Caller, action: nat,
                                       arg: Option<string>, def: Access)
    requires Alike(c, d)
    ensures Decide(ps, rules, Check(Some(c), action, arg), def) == Decide(ps, rules, Check(Some(d), action, arg), def)
    decreases |rules|
  {
    if rules != [] {
      var last := rules[|rules| - 1];
      AlikeDecide(ps, rules[..|rules| - 1], c, d, action, arg, def);
      if last.expr.Some? {
        AlikeMatch(ps, last.expr.value, c, d, action, arg);
      }
    }
  }

  /** The two status files have the same effective ids, and their Groups lines have the same valid words. */
  ghost predicate SaySame(v: Values, w: Values) {
    && v.Euid() == w.Euid() && v.Egid() == w.Egid()
    && (forall g :: g in GroupIds(GroupWords(v)) <==> g in GroupIds(GroupWords(w)))
  }

  /**
   * A decision depends on nothing in a status file but the effective ids and the valid words of the
   * first Groups line, in any order and number.
   */
  lemma {:induction false} DecisionDependsOnWords(ps: Patterns, policy: Option<seq<Rule>>, s: string, t: string,
                                                  action: nat, arg: Option<string>, def: Access)
    requires SaySame(FirstValues(Lines(s)), FirstValues(Lines(t)))
    ensures Decision(ps, policy, Check(Some(CallerIn(s)), action, arg), def) ==
            Decision(ps, policy, Check(Some(CallerIn(t)), action, arg), def)
  {
    assert Alike(CallerIn(s), CallerIn(t)) by {
      hide FirstValues, Lines, Words, ParseUint32, SecondOfFour;
    }
    if policy.Some? {
      AlikeDecide(ps, policy.value, CallerIn(s), CallerIn(t), action, arg, def);
    }
  }

  /** The rules that da_policy_new_full compiles a text to. */
  function RulesIn(env: Env, text: string): Option<seq<Rule>> {
    match PolicyGrammar.Compile(env, Scanner.Tokens(text))
    case Some(es) => Some(CompileEntries(es))
    case None => None
  }

  /**
   * A policy and a process, both written out as text in any of the ways in which the texts may vary,
   * lead to the decision that the policy's entries give for the process's ids.
   */
  lemma {:induction false} PrintedDecision(ps: Patterns, env: Env, es: seq<Entry>, style: PolicyPrinter.Style,
                                           uid: CredPrinter.Ids, gid: CredPrinter.Ids, gids: seq<nat>, caps: nat,
                                           o: CredPrinter.Others, action: nat,
                                           arg: Option<string>, def: Access)
    requires es != [] && |style.explicit| == |es|
    requires forall i :: 0 <= i < |es| ==> PolicyPrinter.IsPrintableEntry(env, es[i])
    requires ScannerModes.InQuotes(style.quotes)
    requires uid.Fits() && gid.Fits() && caps <= U64_MAX && o.Unrelated()
    requires forall i :: 0 <= i < |gids| ==> gids[i] < TWO_32
    ensures var status := CredPrinter.Text(CredPrinter.StatusLines(uid, gid, gids, caps, o));
      var check := Check(Some(CallerIn(status)), action, arg);
      Decision(ps, RulesIn(env, PolicyPrinter.Print(env, es, style)), check, def) ==
        if uid.effective == 0 then Allow
        else Verdict(ps, es, Check(Some(Caller(uid.effective, gid.effective, gids)), action, arg), def)
  {
    PolicyPrinter.RoundTrip(env, es, style);
    CredPrinter.RoundTrip(uid, gid, gids, caps, o);
    CompiledDecides(ps, es, Check(Some(Caller(uid.effective, gid.effective, gids)), action, arg), def);
    hide FirstValues, Lines, PolicyPrinter.Print, PolicyGrammar.Compile, Scanner.Tokens, CredPrinter.Text,
         CredPrinter.StatusLines, Decide, Verdict, CompileEntries;
  }
}
