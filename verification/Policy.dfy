/** Compiled policies: what they decide, when they are equal, and the laws of both. */
module Policy {
  import opened Wrappers
  import opened Numerals
  import opened Syntax

  /** GPatternSpec, left abstract: a pattern is its text, and equal patterns match the same strings. */
  datatype Patterns = Patterns(same: (string, string) -> bool, matches: (string, string) -> bool)
  {
    ghost predicate Sound() {
      && (forall p :: same(p, p))
      && (forall p, q :: same(p, q) ==> same(q, p))
      && (forall p, q, r :: same(p, q) && same(q, r) ==> same(p, r))
      && (forall p, q, s :: same(p, q) ==> matches(p, s) == matches(q, s))
    }
  }

  /** DAPolicyExpr; a custom expression without a pattern matches any argument or none. */
  datatype Node =
    | IdentityNode(uid: int, gid: int)
    | CustomNode(action: nat, pattern: Option<string>)
    | NotNode(operand: Node)
    | BinaryNode(op: BinOp, left: Node, right: Node)

  /** DAPolicyEntry; no expression is the wildcard. */
  datatype Rule = Rule(expr: Option<Node>, access: Access)

  /** The caller: effective ids and supplementary groups. */
  datatype Caller = Caller(euid: nat, egid: nat, groups: seq<nat>)

  /** DAPolicyCheck: the caller, if known, the action, and its argument, if there is one. */
  datatype Check = Check(cred: Option<Caller>, action: nat, arg: Option<string>)

  // Matching

  /** An int compared with an unsigned 32-bit id. */
  function AsUnsigned(x: int): nat {
    x % TWO_32
  }

  predicate MatchUser(uid: int, cred: Option<Caller>) {
    uid == WILDCARD || (uid != INVALID && cred.Some? && AsUnsigned(uid) == cred.value.euid)
  }

  predicate MatchGroup(gid: int, cred: Option<Caller>) {
    gid == WILDCARD ||
    (gid != INVALID && cred.Some? && (AsUnsigned(gid) == cred.value.egid || AsUnsigned(gid) in cred.value.groups))
  }

  predicate MatchCustom(ps: Patterns, action: nat, pattern: Option<string>, pc: Check) {
    pc.action == action && (pattern.Some? ==> pc.arg.Some? && ps.matches(pattern.value, pc.arg.value))
  }

  predicate Match(ps: Patterns, x: Node, pc: Check) {
    match x
    case IdentityNode(u, g) => MatchUser(u, pc.cred) && MatchGroup(g, pc.cred)
    case CustomNode(a, p) => MatchCustom(ps, a, p, pc)
    case NotNode(y) => !Match(ps, y, pc)
    case BinaryNode(And, l, r) => Match(ps, l, pc) && Match(ps, r, pc)
    case BinaryNode(Or, l, r) => Match(ps, l, pc) || Match(ps, r, pc)
  }

  /**
   * The comparison of an int with an unsigned id is harmless for the ids that a policy can hold: the
   * wildcard matches anyone, known or not, the invalid id nobody, and any other id the caller who has it.
   */
  lemma {:induction false} IdentityMeans(ps: Patterns, u: int, g: int, pc: Check)
    requires INVALID <= u < TWO_31 && INVALID <= g < TWO_31
    ensures Match(ps, IdentityNode(u, g), pc) <==>
      && (u == WILDCARD || (pc.cred.Some? && u == pc.cred.value.euid))
      && (g == WILDCARD || (pc.cred.Some? && (g == pc.cred.value.egid || g in pc.cred.value.groups)))
  {
  }

  /** A missing expression matches everything. */
  predicate MatchRule(ps: Patterns, r: Rule, pc: Check) {
    r.expr.None? || Match(ps, r.expr.value, pc)
  }

  /** The access of the last rule that matches. */
  function Decide(ps: Patterns, rules: seq<Rule>, pc: Check, def: Access): Access {
    if rules == [] then def
    else
      var last := rules[|rules| - 1];
      if MatchRule(ps, last, pc) then last.access else Decide(ps, rules[..|rules| - 1], pc, def)
  }

  predicate IsRoot(cred: Option<Caller>) {
    cred.Some? && cred.value.euid == 0
  }

  /** da_policy_check: root may do everything, and no policy leaves the default. */
  function Decision(ps: Patterns, policy: Option<seq<Rule>>, pc: Check, def: Access): Access {
    if IsRoot(pc.cred) then Allow
    else if policy.None? then def
    else Decide(ps, policy.value, pc, def)
  }

  // Compilation of the parser's entries

  /** da_policy_expr_new: the pattern "*" needs no matching. */
  function CompileExpr(e: Expr): Node {
    match e
    case Identity(u, g) => IdentityNode(u, g)
    case Custom(a, p) => CustomNode(a, if p == Some("*") then None else p)
    case Not(x) => NotNode(CompileExpr(x))
    case Binary(op, l, r) => BinaryNode(op, CompileExpr(l), CompileExpr(r))
  }

  function CompileEntry(e: Entry): Rule {
    Rule(if e.expr.Some? then Some(CompileExpr(e.expr.value)) else None, e.access)
  }

  function CompileEntries(es: seq<Entry>): (rs: seq<Rule>)
    ensures |rs| == |es|
    ensures forall i :: 0 <= i < |es| ==> rs[i] == CompileEntry(es[i])
  {
    if es == [] then [] else CompileEntries(es[..|es| - 1]) + [CompileEntry(es[|es| - 1])]
  }

  /** What a parsed expression says: custom terms without a parameter, or with the parameter "*", take any argument. */
  predicate Holds(ps: Patterns, e: Expr, pc: Check) {
    match e
    case Identity(u, g) => MatchUser(u, pc.cred) && MatchGroup(g, pc.cred)
    case Custom(a, p) =>
      pc.action == a &&
      (p == None || p == Some("*") || (pc.arg.Some? && ps.matches(p.value, pc.arg.value)))
    case Not(x) => !Holds(ps, x, pc)
    case Binary(op, l, r) =>
      if op == And then Holds(ps, l, pc) && Holds(ps, r, pc) else Holds(ps, l, pc) || Holds(ps, r, pc)
  }

  /** What parsed entries say, read in source order: each entry that applies overrides what was decided before. */
  function Verdict(ps: Patterns, es: seq<Entry>, pc: Check, sofar: Access): Access
    decreases |es|
  {
    if es == [] then sofar
    else
      var applies := es[0].expr.None? || Holds(ps, es[0].expr.value, pc);
      Verdict(ps, es[1..], pc, if applies then es[0].access else sofar)
  }

  lemma {:induction false} CompiledMatches(ps: Patterns, e: Expr, pc: Check)
    ensures Match(ps, CompileExpr(e), pc) == Holds(ps, e, pc)
  {
    match e
    case Identity(_, _) =>
    case Custom(_, _) =>
    case Not(x) => CompiledMatches(ps, x, pc);
    case Binary(op, l, r) =>
      CompiledMatches(ps, l, pc);
      CompiledMatches(ps, r, pc);
  }

  /** Deciding a list of rules is deciding its parts one after the other: the last match wins. */
  lemma {:induction false} DecideAppend(ps: Patterns, p: seq<Rule>, q: seq<Rule>, pc: Check, def: Access)
    ensures Decide(ps, p + q, pc, def) == Decide(ps, q, pc, Decide(ps, p, pc, def))
    decreases |q|
  {
    if q == [] {
      assert p + q == p;
    } else {
      assert (p + q)[..|p + q| - 1] == p + q[..|q| - 1];
      DecideAppend(ps, p, q[..|q| - 1], pc, def);
    }
  }

  /** Compilation preserves meaning: the compiled check is the evaluation of the entries in source order. */
  lemma {:induction false} CompiledDecides(ps: Patterns, es: seq<Entry>, pc: Check, def: Access)
    ensures Decide(ps, CompileEntries(es), pc, def) == Verdict(ps, es, pc, def)
    decreases |es|
  {
    if es != [] {
      var rs := CompileEntries(es);
      var first, rest := [rs[0]], CompileEntries(es[1..]);
      assert rs == first + rest;
      DecideAppend(ps, first, rest, pc, def);
      assert first[..0] == [];
      if es[0].expr.Some? {
        CompiledMatches(ps, es[0].expr.value, pc);
      }
      CompiledDecides(ps, es[1..], pc, Decide(ps, first, pc, def));
    }
  }

  // Laws of decisions

  /** The last rule that has no expression or one that matches decides; without one the default is left. */
  lemma {:induction false} DecideIsLast(ps: Patterns, rules: seq<Rule>, pc: Check, def: Access)
    ensures (forall i :: 0 <= i < |rules| ==> rules[i].expr.Some? && !Match(ps, rules[i].expr.value, pc)) ==>
              Decide(ps, rules, pc, def) == def
    ensures forall i :: 0 <= i < |rules| && (rules[i].expr.Some? ==> Match(ps, rules[i].expr.value, pc))
                        && (forall j :: i < j < |rules| ==>
                              rules[j].expr.Some? && !Match(ps, rules[j].expr.value, pc)) ==>
              Decide(ps, rules, pc, def) == rules[i].access
    decreases |rules|
  {
    hide Match;
    if rules != [] {
      var n := |rules| - 1;
      var front := rules[..n];
      DecideIsLast(ps, front, pc, def);
      if rules[n].expr.Some? && !Match(ps, rules[n].expr.value, pc) {
        assert Decide(ps, rules, pc, def) == Decide(ps, front, pc, def);
        hide Decide;
        assert forall i :: 0 <= i < n ==> front[i] == rules[i];
      } else {
        assert Decide(ps, rules, pc, def) == rules[n].access;
        hide Decide;
      }
    }
  }

  /** Everything before a wildcard rule is irrelevant. */
  lemma {:induction false} WildcardCutsOff(ps: Patterns, p: seq<Rule>, q: seq<Rule>, a: Access, pc: Check, def: Access)
    ensures Decide(ps, p + [Rule(None, a)] + q, pc, def) == Decide(ps, q, pc, a)
  {
    DecideAppend(ps, p + [Rule(None, a)], q, pc, def);
    assert (p + [Rule(None, a)])[..|p|] == p;
  }

  /** Adjacent rules with equal access may be merged with OR. */
  lemma {:induction false} MergeWithOr(ps: Patterns, p: seq<Rule>, x: Node, y: Node, a: Access, q: seq<Rule>,
                                       pc: Check, def: Access)
    ensures Decide(ps, p + [Rule(Some(x), a), Rule(Some(y), a)] + q, pc, def) ==
            Decide(ps, p + [Rule(Some(BinaryNode(Or, x, y)), a)] + q, pc, def)
  {
    var two, one := [Rule(Some(x), a), Rule(Some(y), a)], [Rule(Some(BinaryNode(Or, x, y)), a)];
    var d := Decide(ps, p, pc, def);
    DecideAppend(ps, p + two, q, pc, def);
    DecideAppend(ps, p, two, pc, def);
    DecideAppend(ps, p + one, q, pc, def);
    DecideAppend(ps, p, one, pc, def);
    assert two[..1] == [Rule(Some(x), a)] && two[..1][..0] == [] && one[..0] == [];
  }

  /** y is x with some user(u:g) written as user(u) & group(g). */
  predicate Splits(x: Expr, y: Expr)
    decreases x
  {
    || x == y
    || (x.Identity? && y == Binary(And, Identity(x.uid, WILDCARD), Identity(WILDCARD, x.gid)))
    || (x.Not? && y.Not? && Splits(x.operand, y.operand))
    || (x.Binary? && y.Binary? && x.op == y.op && Splits(x.left, y.left) && Splits(x.right, y.right))
  }

  lemma {:induction false} SplitHolds(ps: Patterns, x: Expr, y: Expr, pc: Check)
    requires Splits(x, y)
    ensures Holds(ps, x, pc) == Holds(ps, y, pc)
    decreases x
  {
    if x != y {
      if x.Not? {
        SplitHolds(ps, x.operand, y.operand, pc);
      } else if x.Binary? {
        SplitHolds(ps, x.left, y.left, pc);
        SplitHolds(ps, x.right, y.right, pc);
      }
    }
  }

  predicate SplitsEntry(x: Entry, y: Entry) {
    x.access == y.access && x.expr.Some? == y.expr.Some? && (x.expr.Some? ==> Splits(x.expr.value, y.expr.value))
  }

  /** user(u:g) is equivalent to user(u)&group(g), anywhere in any policy. */
  lemma {:induction false} SplitDecides(ps: Patterns, es: seq<Entry>, es': seq<Entry>, pc: Check, def: Access)
    requires |es| == |es'| && forall i :: 0 <= i < |es| ==> SplitsEntry(es[i], es'[i])
    ensures Decide(ps, CompileEntries(es), pc, def) == Decide(ps, CompileEntries(es'), pc, def)
  {
    CompiledDecides(ps, es, pc, def);
    CompiledDecides(ps, es', pc, def);
    SplitVerdict(ps, es, es', pc, def);
  }

  lemma {:induction false} SplitVerdict(ps: Patterns, es: seq<Entry>, es': seq<Entry>, pc: Check, def: Access)
    requires |es| == |es'| && forall i :: 0 <= i < |es| ==> SplitsEntry(es[i], es'[i])
    ensures Verdict(ps, es, pc, def) == Verdict(ps, es', pc, def)
    decreases |es|
  {
    if es != [] {
      var applies := es[0].expr.None? || Holds(ps, es[0].expr.value, pc);
      assert SplitsEntry(es[0], es'[0]);
      if es[0].expr.Some? {
        SplitHolds(ps, es[0].expr.value, es'[0].expr.value, pc);
      }
      SplitVerdict(ps, es[1..], es'[1..], pc, if applies then es[0].access else def);
    }
  }

  // Equality

  predicate SamePattern(ps: Patterns, p: Option<string>, q: Option<string>) {
    p.Some? == q.Some? && (p.Some? ==> ps.same(p.value, q.value))
  }

  /** da_policy_expr_equal: the operands of a binary operation may come in either order. */
  predicate Equal(ps: Patterns, x: Node, y: Node) {
    match x
    case IdentityNode(u, g) => y.IdentityNode? && u == y.uid && g == y.gid
    case CustomNode(a, p) => y.CustomNode? && a == y.action && SamePattern(ps, p, y.pattern)
    case NotNode(a) => y.NotNode? && Equal(ps, a, y.operand)
    case BinaryNode(op, l, r) =>
      y.BinaryNode? && op == y.op &&
      ((Equal(ps, l, y.left) && Equal(ps, r, y.right)) || (Equal(ps, l, y.right) && Equal(ps, r, y.left)))
  }

  lemma {:induction false} EqualRefl(ps: Patterns, x: Node)
    requires ps.Sound()
    ensures Equal(ps, x, x)
  {
    match x
    case IdentityNode(_, _) =>
    case CustomNode(_, _) =>
    case NotNode(a) => EqualRefl(ps, a);
    case BinaryNode(_, l, r) =>
      EqualRefl(ps, l);
      EqualRefl(ps, r);
  }

  lemma {:induction false} EqualSym(ps: Patterns, x: Node, y: Node)
    requires ps.Sound() && Equal(ps, x, y)
    ensures Equal(ps, y, x)
  {
    match x
    case IdentityNode(_, _) =>
    case CustomNode(_, _) =>
    case NotNode(a) => EqualSym(ps, a, y.operand);
    case BinaryNode(_, l, r) =>
      if Equal(ps, l, y.left) && Equal(ps, r, y.right) {
        EqualSym(ps, l, y.left);
        EqualSym(ps, r, y.right);
      } else {
        EqualSym(ps, l, y.right);
        EqualSym(ps, r, y.left);
      }
  }

  lemma {:induction false} EqualTrans(ps: Patterns, x: Node, y: Node, z: Node)
    requires ps.Sound() && Equal(ps, x, y) && Equal(ps, y, z)
    ensures Equal(ps, x, z)
  {
    match x
    case IdentityNode(_, _) =>
    case CustomNode(_, _) =>
    case NotNode(a) => EqualTrans(ps, a, y.operand, z.operand);
    case BinaryNode(_, l, r) =>
      var straight := Equal(ps, l, y.left) && Equal(ps, r, y.right);
      var (yl, yr) := if straight then (y.left, y.right) else (y.right, y.left);
      assert Equal(ps, l, yl) && Equal(ps, r, yr);
      var onward := Equal(ps, yl, z.left) && Equal(ps, yr, z.right);
      var (zl, zr) := if onward then (z.left, z.right) else (z.right, z.left);
      EqualTrans(ps, l, yl, zl);
      EqualTrans(ps, r, yr, zr);
  }

  /** Which AND and OR nodes of a tree have their operands swapped. */
  datatype Swaps = NoSwaps | UnderNot(under: Swaps) | AtNode(swap: bool, left: Swaps, right: Swaps)

  function Apply(s: Swaps, x: Node): Node {
    match x
    case NotNode(a) => if s.UnderNot? then NotNode(Apply(s.under, a)) else x
    case BinaryNode(op, l, r) =>
      if s.AtNode? then
        var l', r' := Apply(s.left, l), Apply(s.right, r);
        if s.swap then BinaryNode(op, r', l') else BinaryNode(op, l', r')
      else x
    case _ => x
  }

  /** The same tree, up to equal patterns. */
  predicate Same(ps: Patterns, x: Node, y: Node) {
    match x
    case IdentityNode(_, _) => x == y
    case CustomNode(a, p) => y.CustomNode? && a == y.action && SamePattern(ps, p, y.pattern)
    case NotNode(a) => y.NotNode? && Same(ps, a, y.operand)
    case BinaryNode(op, l, r) => y.BinaryNode? && op == y.op && Same(ps, l, y.left) && Same(ps, r, y.right)
  }

  lemma {:induction false} SameIsEqual(ps: Patterns, x: Node, y: Node)
    requires Same(ps, x, y)
    ensures Equal(ps, x, y)
  {
    match x
    case IdentityNode(_, _) =>
    case CustomNode(_, _) =>
    case NotNode(a) => SameIsEqual(ps, a, y.operand);
    case BinaryNode(_, l, r) =>
      SameIsEqual(ps, l, y.left);
      SameIsEqual(ps, r, y.right);
  }

  lemma {:induction false} SwappedIsEqual(ps: Patterns, s: Swaps, x: Node, y: Node)
    requires Same(ps, Apply(s, x), y)
    ensures Equal(ps, x, y)
  {
    match x
    case IdentityNode(_, _) =>
    case CustomNode(_, _) =>
    case NotNode(a) =>
      if s.UnderNot? {
        SwappedIsEqual(ps, s.under, a, y.operand);
      } else {
        SameIsEqual(ps, x, y);
      }
    case BinaryNode(_, l, r) =>
      if s.AtNode? {
        SwappedIsEqual(ps, s.left, l, if s.swap then y.right else y.left);
        SwappedIsEqual(ps, s.right, r, if s.swap then y.left else y.right);
      } else {
        SameIsEqual(ps, x, y);
      }
  }

  lemma {:induction false} FindSwaps(ps: Patterns, x: Node, y: Node) returns (s: Swaps)
    requires Equal(ps, x, y)
    ensures Same(ps, Apply(s, x), y)
  {
    match x
    case IdentityNode(_, _) => s := NoSwaps;
    case CustomNode(_, _) => s := NoSwaps;
    case NotNode(a) =>
      var u := FindSwaps(ps, a, y.operand);
      s := UnderNot(u);
    case BinaryNode(_, l, r) =>
      var swap := !(Equal(ps, l, y.left) && Equal(ps, r, y.right));
      var sl := FindSwaps(ps, l, if swap then y.right else y.left);
      var sr := FindSwaps(ps, r, if swap then y.left else y.right);
      s := AtNode(swap, sl, sr);
  }

  /** Swapping the operands of some AND and OR nodes of x makes it the same as y. */
  ghost predicate Swappable(ps: Patterns, x: Node, y: Node) {
    exists s :: Same(ps, Apply(s, x), y)
  }

  /** Expressions are equal exactly if one is the other with some operands swapped. */
  lemma {:induction false} EqualIsSwapping(ps: Patterns, x: Node, y: Node)
    ensures Equal(ps, x, y) <==> Swappable(ps, x, y)
  {
    if Equal(ps, x, y) {
      var s := FindSwaps(ps, x, y);
      assert Same(ps, Apply(s, x), y);
    }
    if Swappable(ps, x, y) {
      var s :| Same(ps, Apply(s, x), y);
      SwappedIsEqual(ps, s, x, y);
    }
  }

  /** Leaves are equal if their ids are, or their actions and patterns; having no pattern is a pattern of its own. */
  lemma {:induction false} EqualLeaves(ps: Patterns, u: int, g: int, a: nat, b: nat, p: string, q: string, y: Node)
    ensures Equal(ps, IdentityNode(u, g), y) <==> y == IdentityNode(u, g)
    ensures Equal(ps, CustomNode(a, Some(p)), CustomNode(b, Some(q))) <==> a == b && ps.same(p, q)
    ensures Equal(ps, CustomNode(a, None), CustomNode(b, None)) <==> a == b
    ensures !Equal(ps, CustomNode(a, None), CustomNode(b, Some(q)))
    ensures !Equal(ps, CustomNode(a, Some(p)), CustomNode(b, None))
  {
  }

  /** Equality allows swapping anywhere, and respects all operators. */
  lemma {:induction false} EqualAnywhere(ps: Patterns, op: BinOp, a: Node, a': Node, b: Node, b': Node)
    requires ps.Sound() && Equal(ps, a, a') && Equal(ps, b, b')
    ensures Equal(ps, NotNode(a), NotNode(a'))
    ensures Equal(ps, BinaryNode(op, a, b), BinaryNode(op, a', b'))
    ensures Equal(ps, BinaryNode(op, a, b), BinaryNode(op, b', a'))
  {
  }

  lemma {:induction false} EqualMatches(ps: Patterns, x: Node, y: Node, pc: Check)
    requires ps.Sound() && Equal(ps, x, y)
    ensures Match(ps, x, pc) == Match(ps, y, pc)
  {
    match x
    case IdentityNode(_, _) =>
    case CustomNode(_, _) =>
    case NotNode(a) => EqualMatches(ps, a, y.operand, pc);
    case BinaryNode(_, l, r) =>
      if Equal(ps, l, y.left) && Equal(ps, r, y.right) {
        EqualMatches(ps, l, y.left, pc);
        EqualMatches(ps, r, y.right, pc);
      } else {
        EqualMatches(ps, l, y.right, pc);
        EqualMatches(ps, r, y.left, pc);
      }
  }

  predicate EqualRules(ps: Patterns, r1: Rule, r2: Rule) {
    && r1.access == r2.access
    && r1.expr.Some? == r2.expr.Some?
    && (r1.expr.Some? ==> Equal(ps, r1.expr.value, r2.expr.value))
  }

  /** da_policy_equal */
  predicate EqualPolicies(ps: Patterns, p1: Option<seq<Rule>>, p2: Option<seq<Rule>>) {
    && p1.Some? == p2.Some?
    && (p1.Some? ==>
          && |p1.value| == |p2.value|
          && forall i :: 0 <= i < |p1.value| ==> EqualRules(ps, p1.value[i], p2.value[i]))
  }

  /**
   * Two policies are equal exactly if they have as many rules, and at every place the same access
   * and either two wildcards or two expressions that swapping operands makes the same.
   */
  lemma {:induction false} EqualPoliciesExactly(ps: Patterns, p: seq<Rule>, q: seq<Rule>)
    ensures EqualPolicies(ps, Some(p), Some(q)) <==>
      && |p| == |q|
      && forall i :: 0 <= i < |p| ==>
           && p[i].access == q[i].access
           && (p[i].expr == None <==> q[i].expr == None)
           && (p[i].expr != None && q[i].expr != None ==> Swappable(ps, p[i].expr.value, q[i].expr.value))
    ensures EqualPolicies(ps, None, None)
    ensures !EqualPolicies(ps, None, Some(q)) && !EqualPolicies(ps, Some(p), None)
  {
    hide Equal, Swappable;
    if |p| == |q| {
      forall i | 0 <= i < |p| && p[i].expr.Some? && q[i].expr.Some?
        ensures Equal(ps, p[i].expr.value, q[i].expr.value) <==> Swappable(ps, p[i].expr.value, q[i].expr.value)
      {
        EqualIsSwapping(ps, p[i].expr.value, q[i].expr.value);
      }
    }
  }

  lemma {:induction false} EqualDecide(ps: Patterns, p1: seq<Rule>, p2: seq<Rule>, pc: Check, def: Access)
    requires ps.Sound() && EqualPolicies(ps, Some(p1), Some(p2))
    ensures Decide(ps, p1, pc, def) == Decide(ps, p2, pc, def)
    decreases |p1|
  {
    if p1 != [] {
      var n := |p1| - 1;
      assert EqualRules(ps, p1[n], p2[n]);
      if p1[n].expr.Some? {
        EqualMatches(ps, p1[n].expr.value, p2[n].expr.value, pc);
      }
      EqualDecide(ps, p1[..n], p2[..n], pc, def);
    }
  }

  /** Equal policies decide alike, for every caller, action, argument and default. */
  lemma {:induction false} EqualPoliciesDecideAlike(ps: Patterns, p1: Option<seq<Rule>>, p2: Option<seq<Rule>>,
                                                    pc: Check, def: Access)
    requires ps.Sound() && EqualPolicies(ps, p1, p2)
    ensures Decision(ps, p1, pc, def) == Decision(ps, p2, pc, def)
  {
    if p1.Some? {
      EqualDecide(ps, p1.value, p2.value, pc, def);
    }
  }

  function Size(x: Node): (n: nat)
    ensures n > 0
  {
    match x
    case NotNode(a) => 1 + Size(a)
    case BinaryNode(_, l, r) => 1 + Size(l) + Size(r)
    case _ => 1
  }

  /**
   * The comparisons of two nodes that da_policy_expr_equal makes of distinct trees: one for this pair,
   * and for binary nodes up to four more calls, as far as the answer is still open.
   */
  function Comparisons(ps: Patterns, x: Node, y: Node): (n: nat)
    ensures n > 0
    decreases x
  {
    match x
    case NotNode(a) => 1 + if y.NotNode? then Comparisons(ps, a, y.operand) else 0
    case BinaryNode(op, l, r) =>
      if !y.BinaryNode? || op != y.op then 1
      else
        var straight := Equal(ps, l, y.left);
        var crossed := Equal(ps, l, y.right);
        1 + Comparisons(ps, l, y.left)
          + (if straight then Comparisons(ps, r, y.right) else 0)
          + (if straight && Equal(ps, r, y.right) then 0
             else Comparisons(ps, l, y.right) + if crossed then Comparisons(ps, r, y.left) else 0)
    case _ => 1
  }

  /** However often the operands are crossed, there are no more comparisons than pairs of nodes. */
  lemma {:induction false} ComparisonsBound(ps: Patterns, x: Node, y: Node)
    ensures Comparisons(ps, x, y) <= Size(x) * Size(y)
    decreases x
  {
    hide Equal;
    ProductPositive(Size(x), Size(y));
    match x
    case NotNode(a) =>
      if y.NotNode? {
        ComparisonsBound(ps, a, y.operand);
        ProductBound(Size(a), 0, Size(y.operand), 0, Comparisons(ps, a, y.operand), 0, 0, 0);
      }
    case BinaryNode(op, l, r) =>
      if y.BinaryNode? && op == y.op {
        ComparisonsBound(ps, l, y.left);
        ComparisonsBound(ps, r, y.right);
        ComparisonsBound(ps, l, y.right);
        ComparisonsBound(ps, r, y.left);
        var n1, n2 := Comparisons(ps, l, y.left), Comparisons(ps, r, y.right);
        var n3, n4 := Comparisons(ps, l, y.right), Comparisons(ps, r, y.left);
        ProductBound(Size(l), Size(r), Size(y.left), Size(y.right), n1, n2, n3, n4);
        SizeOfBinary(op, l, r);
        SizeOfBinary(op, y.left, y.right);
        assert Comparisons(ps, x, y) <= 1 + n1 + n2 + n3 + n4;
        hide Comparisons, Size;
      }
    case _ =>
  }

  /** Two expressions are not found equal before every node was compared. */
  lemma {:induction false} EveryNodeCompared(ps: Patterns, x: Node, y: Node)
    requires Equal(ps, x, y)
    ensures Size(x) <= Comparisons(ps, x, y)
  {
    match x
    case IdentityNode(_, _) =>
    case CustomNode(_, _) =>
    case NotNode(a) => EveryNodeCompared(ps, a, y.operand);
    case BinaryNode(_, l, r) =>
      if Equal(ps, l, y.left) && Equal(ps, r, y.right) {
        EveryNodeCompared(ps, l, y.left);
        EveryNodeCompared(ps, r, y.right);
      } else {
        EveryNodeCompared(ps, l, y.right);
        EveryNodeCompared(ps, r, y.left);
      }
  }

  lemma {:induction false} SizeOfBinary(op: BinOp, l: Node, r: Node)
    ensures Size(BinaryNode(op, l, r)) == 1 + Size(l) + Size(r)
  {
  }

  lemma {:induction false} ProductPositive(a: nat, b: nat)
    requires a > 0 && b > 0
    ensures 1 <= a * b
  {
  }

  /** Four products of parts fit into the product of the wholes. */
  lemma {:induction false} ProductBound(a: nat, b: nat, c: nat, d: nat, n1: nat, n2: nat, n3: nat, n4: nat)
    requires n1 <= a * c && n2 <= b * d && n3 <= a * d && n4 <= b * c
    ensures 1 + n1 + n2 + n3 + n4 <= (1 + a + b) * (1 + c + d)
  {
  }
}
