/**
 * DAPolicy and its expression nodes as objects: built from the parser's result, matched, compared
 * and freed. A policy's nodes form a tree of their own, so that freeing each of them once is right.
 */
module PolicyObjects {
  import opened Wrappers
  import opened Syntax
  import opened PolicyGrammar
  import opened Scanner
  import opened Memory
  import opened Arena
  import opened Driver
  import opened Policy

  // Expressions

  /** A compiled pattern, which GLib allocates. */
  class PatternSpec {
    const text: string

    constructor (text: string)
      ensures this.text == text
      ensures forall o: object :: IsBlock(o) && fresh(o) ==> o == this
    {
      this.text := text;
    }
  }

  /** Nodes and patterns. */
  ghost predicate IsExprBlock(o: object) {
    o is PolicyExpr || o is PatternSpec
  }

  /** DAPolicyExpr with its unary, binary, identity and custom variants. */
  class PolicyExpr {
    const typ: ExprType
    const uid: int
    const gid: int
    const action: nat
    const pattern: PatternSpec?
    /** The operand of NOT is on the left. */
    const left: PolicyExpr?
    const right: PolicyExpr?
    /** What the nodes from here on stand for, and which blocks they and their patterns are. */
    ghost const tree: Node
    ghost const repr: set<object>

    /** No operand is missing, and no block occurs twice. */
    ghost predicate Valid()
      decreases tree
    {
      (forall o :: o in repr ==> IsExprBlock(o)) &&
      match typ
      case IdentityType => tree == IdentityNode(uid, gid) && repr == {this}
      case CustomType => tree == CustomNode(action, TextOfPattern(pattern)) && repr == {this} + BlockOfPattern(pattern)
      case NotType =>
        left != null && tree == NotNode(left.tree) && left.Valid() && this !in left.repr && repr == {this} + left.repr
      case AndType => ValidBinary(And)
      case OrType => ValidBinary(Or)
    }

    ghost predicate ValidBinary(op: BinOp)
      decreases tree, 0
    {
      && left != null && right != null
      && tree == BinaryNode(op, left.tree, right.tree)
      && left.Valid() && right.Valid()
      && this !in left.repr && this !in right.repr && left.repr !! right.repr
      && repr == {this} + left.repr + right.repr
    }

    /** da_policy_expr_identity_new */
    constructor Identity(uid: int, gid: int)
      ensures Valid() && tree == IdentityNode(uid, gid) && repr == {this}
      ensures forall o: object :: IsBlock(o) && fresh(o) ==> o == this
    {
      typ, this.uid, this.gid, action, pattern, left, right := IdentityType, uid, gid, 0, null, null, null;
      tree, repr := IdentityNode(uid, gid), {this};
    }

    /** The node of da_policy_expr_custom_new */
    constructor Custom(action: nat, pattern: PatternSpec?)
      ensures Valid() && tree == CustomNode(action, TextOfPattern(pattern)) && repr == {this} + BlockOfPattern(pattern)
      ensures forall o: object :: IsBlock(o) && fresh(o) ==> o == this
    {
      typ, uid, gid, this.action, this.pattern, left, right := CustomType, 0, 0, action, pattern, null, null;
      tree, repr := CustomNode(action, TextOfPattern(pattern)), {this} + BlockOfPattern(pattern);
    }

    /** da_policy_expr_unary_not_new */
    constructor Not(operand: PolicyExpr)
      requires operand.Valid()
      ensures Valid() && tree == NotNode(operand.tree) && repr == {this} + operand.repr
      ensures forall o: object :: IsBlock(o) && fresh(o) ==> o == this
    {
      typ, uid, gid, action, pattern, left, right := NotType, 0, 0, 0, null, operand, null;
      tree, repr := NotNode(operand.tree), {this} + operand.repr;
    }

    /** da_policy_expr_binary_and_new and da_policy_expr_binary_or_new */
    constructor Binary(op: BinOp, left: PolicyExpr, right: PolicyExpr)
      requires left.Valid() && right.Valid() && left.repr !! right.repr
      ensures Valid() && tree == BinaryNode(op, left.tree, right.tree) && repr == {this} + left.repr + right.repr
      ensures forall o: object :: IsBlock(o) && fresh(o) ==> o == this
    {
      typ, uid, gid, action, pattern, this.left, this.right := TypeOf(op), 0, 0, 0, null, left, right;
      tree, repr := BinaryNode(op, left.tree, right.tree), {this} + left.repr + right.repr;
    }

    /** The block, for its contents to be read: it must be live. */
    function Live(mem: Memory): (b: PolicyExpr)
      requires this in mem.live
      reads mem
      ensures b == this
    {
      this
    }
  }

  /** The text of an optional pattern, and its block. */
  ghost function TextOfPattern(p: PatternSpec?): Option<string> {
    if p == null then None else Some(p.text)
  }

  ghost function BlockOfPattern(p: PatternSpec?): set<object> {
    if p == null then {} else {p}
  }

  /** The text of an optional pattern that is live. */
  function ReadPattern(p: PatternSpec?, mem: Memory): (text: Option<string>)
    requires p != null ==> p in mem.live
    reads mem
    ensures text == TextOfPattern(p)
  {
    if p == null then None else Some(p.text)
  }

  /** What an optional expression stands for, and its blocks. */
  ghost function TreeOf(x: PolicyExpr?): Option<Node> {
    if x == null then None else Some(x.tree)
  }

  ghost function NodesOf(x: PolicyExpr?): set<object> {
    if x == null then {} else x.repr
  }

  /** da_policy_expr_custom_new: the parameter "*" needs no pattern. */
  method NewCustom(action: nat, param: Str?, mem: Memory) returns (x: PolicyExpr)
    requires param != null ==> param in mem.live
    modifies mem
    ensures x.Valid() && x.tree == CompileExpr(Expr.Custom(action, TextOf(param)))
    ensures fresh(x.repr) && mem.live == old(mem.live) + x.repr && mem.freed == old(mem.freed)
    ensures forall o: object :: IsBlock(o) && fresh(o) ==> o in x.repr
  {
    var pattern: PatternSpec? := null;
    if param != null && param.Live(mem).text != "*" {
      pattern := new PatternSpec(param.Live(mem).text);
      mem.Allocated(pattern);
    }
    x := new PolicyExpr.Custom(action, pattern);
    mem.Allocated(x);
  }

  /**
   * da_policy_expr_new: a copy of the parser's expression in nodes of its own, even where the
   * parser's expression uses a node twice.
   */
  method NewExpr(expr: ParserExpr?, mem: Memory) returns (x: PolicyExpr?)
    requires expr != null ==> expr.Valid() && expr.repr <= mem.live
    modifies mem
    ensures TreeOf(x) == if expr == null then None else Some(CompileExpr(expr.tree))
    ensures x != null ==> x.Valid()
    ensures fresh(NodesOf(x)) && mem.live == old(mem.live) + NodesOf(x) && mem.freed == old(mem.freed)
    ensures forall o: object :: IsBlock(o) && fresh(o) ==> o in NodesOf(x)
    decreases expr != null, if expr == null then Identity(0, 0) else expr.tree
  {
    hide PolicyExpr.Valid;
    if expr == null {
      return null;
    }
    var typ := expr.Live(mem).typ;
    if typ == CustomType {
      x := NewCustom(expr.Live(mem).action, expr.Live(mem).param, mem);
      return;
    }
    if typ == IdentityType {
      x := new PolicyExpr.Identity(expr.Live(mem).uid, expr.Live(mem).gid);
    } else {
      var left := NewExpr(expr.Live(mem).left, mem);
      if typ == NotType {
        x := new PolicyExpr.Not(left);
      } else {
        var right := NewExpr(expr.Live(mem).right, mem);
        x := new PolicyExpr.Binary(if typ == AndType then And else Or, left, right);
      }
    }
    mem.Allocated(x);
  }

  /** da_policy_expr_free: every node and every pattern is freed, and none of them twice. */
  method FreeExpr(x: PolicyExpr?, mem: Memory)
    requires x != null ==> x.Valid()
    requires NodesOf(x) <= mem.live
    modifies mem
    ensures mem.live == old(mem.live) - NodesOf(x) && mem.freed == old(mem.freed) + NodesOf(x)
    ensures forall o: object :: IsBlock(o) ==> !fresh(o)
    decreases x != null, if x == null then IdentityNode(0, 0) else x.tree
  {
    if x != null {
      var typ := x.Live(mem).typ;
      if typ == CustomType {
        if x.Live(mem).pattern != null {
          mem.Free(x.Live(mem).pattern);
        }
      } else if typ == NotType {
        FreeExpr(x.Live(mem).left, mem);
      } else if typ != IdentityType {
        FreeExpr(x.Live(mem).left, mem);
        FreeExpr(x.Live(mem).right, mem);
      }
      mem.Free(x);
    }
  }

  /** da_policy_expr_identity_match_group: the effective group and then the supplementary ones. */
  method MatchGroupLoop(gid: int, cred: Option<Caller>) returns (matches: bool)
    ensures matches == MatchGroup(gid, cred)
  {
    if gid == WILDCARD {
      return true;
    } else if gid == INVALID || cred.None? {
      return false;
    } else if AsUnsigned(gid) == cred.value.egid {
      return true;
    }
    var i := 0;
    while i < |cred.value.groups|
      invariant i <= |cred.value.groups|
      invariant AsUnsigned(gid) !in cred.value.groups[..i]
    {
      if cred.value.groups[i] == AsUnsigned(gid) {
        return true;
      }
      i := i + 1;
    }
    return false;
  }

  /** da_policy_expr_match; a missing expression matches everything. */
  method MatchExpr(ps: Patterns, x: PolicyExpr?, pc: Check, mem: Memory) returns (matches: bool)
    requires x != null ==> x.Valid()
    requires NodesOf(x) <= mem.live
    ensures matches == (x == null || Match(ps, x.tree, pc))
    decreases x != null, if x == null then IdentityNode(0, 0) else x.tree
  {
    if x == null {
      return true;
    }
    match x.Live(mem).typ {
      case IdentityType =>
        matches := MatchUser(x.Live(mem).uid, pc.cred);
        if matches {
          matches := MatchGroupLoop(x.Live(mem).gid, pc.cred);
        }
      case CustomType =>
        matches := MatchCustom(ps, x.Live(mem).action, ReadPattern(x.Live(mem).pattern, mem), pc);
      case NotType =>
        matches := MatchExpr(ps, x.Live(mem).left, pc, mem);
        matches := !matches;
      case AndType =>
        matches := MatchExpr(ps, x.Live(mem).left, pc, mem);
        if matches {
          matches := MatchExpr(ps, x.Live(mem).right, pc, mem);
        }
      case OrType =>
        matches := MatchExpr(ps, x.Live(mem).left, pc, mem);
        if !matches {
          matches := MatchExpr(ps, x.Live(mem).right, pc, mem);
        }
    }
  }

  /** da_policy_expr_equal on optional expressions */
  predicate EqualOptional(ps: Patterns, x: Option<Node>, y: Option<Node>) {
    x.Some? == y.Some? && (x.Some? ==> Equal(ps, x.value, y.value))
  }

  /**
   * The count is that of the comparisons of two nodes. Expressions that share no block are compared
   * all through; a shared one is equal to itself at once.
   */
  ghost predicate Counted(ps: Patterns, x1: PolicyExpr, x2: PolicyExpr, pairs: nat) {
    pairs <= Comparisons(ps, x1.tree, x2.tree) && (x1.repr !! x2.repr ==> pairs == Comparisons(ps, x1.tree, x2.tree))
  }

  /**
   * da_policy_expr_equal, counting the pairs of nodes that are compared: although every pair of
   * binary nodes may lead to four more comparisons, there are no more than there are pairs.
   */
  method EqualExpr(ps: Patterns, x1: PolicyExpr?, x2: PolicyExpr?, mem: Memory) returns (equal: bool, pairs: nat)
    requires ps.Sound()
    requires (x1 != null ==> x1.Valid()) && (x2 != null ==> x2.Valid())
    requires NodesOf(x1) <= mem.live && NodesOf(x2) <= mem.live
    ensures equal == EqualOptional(ps, TreeOf(x1), TreeOf(x2))
    ensures if x1 == null || x2 == null then pairs == 0
            else Counted(ps, x1, x2, pairs) && pairs <= Size(x1.tree) * Size(x2.tree)
    decreases x1 != null, if x1 == null then IdentityNode(0, 0) else x1.tree
  {
    if x1 == null || x2 == null {
      return x1 == x2, 0;
    }
    ComparisonsBound(ps, x1.tree, x2.tree);
    if x1 == x2 {
      EqualRefl(ps, x1.tree);
      return true, 1;
    } else if x1.Live(mem).typ != x2.Live(mem).typ {
      return false, 1;
    }
    hide Size;
    match x1.Live(mem).typ {
      case IdentityType =>
        equal, pairs := x1.Live(mem).uid == x2.Live(mem).uid && x1.Live(mem).gid == x2.Live(mem).gid, 1;
      case CustomType =>
        var p1, p2 := ReadPattern(x1.Live(mem).pattern, mem), ReadPattern(x2.Live(mem).pattern, mem);
        equal, pairs := x1.Live(mem).action == x2.Live(mem).action && SamePattern(ps, p1, p2), 1;
      case NotType =>
        equal, pairs := EqualExpr(ps, x1.Live(mem).left, x2.Live(mem).left, mem);
        pairs := pairs + 1;
      case AndType => equal, pairs := EqualBinary(ps, And, x1, x2, mem);
      case OrType => equal, pairs := EqualBinary(ps, Or, x1, x2, mem);
    }
  }

  /** da_policy_expr_binary_equal: in the same order, or else in the other one. */
  method EqualBinary(ps: Patterns, op: BinOp, x1: PolicyExpr, x2: PolicyExpr, mem: Memory)
    returns (equal: bool, pairs: nat)
    requires ps.Sound() && x1.ValidBinary(op) && x2.ValidBinary(op)
    requires x1.repr <= mem.live && x2.repr <= mem.live
    ensures equal == Equal(ps, x1.tree, x2.tree)
    ensures Counted(ps, x1, x2, pairs)
    decreases true, x1.tree, 0
  {
    hide PolicyExpr.Valid, Size;
    var n1, n2, n3, n4 := 0, 0, 0, 0;
    equal, n1 := EqualExpr(ps, x1.Live(mem).left, x2.Live(mem).left, mem);
    if equal {
      equal, n2 := EqualExpr(ps, x1.Live(mem).right, x2.Live(mem).right, mem);
    }
    if !equal {
      equal, n3 := EqualExpr(ps, x1.Live(mem).left, x2.Live(mem).right, mem);
      if equal {
        equal, n4 := EqualExpr(ps, x1.Live(mem).right, x2.Live(mem).left, mem);
      }
    }
    pairs := 1 + n1 + n2 + n3 + n4;
  }

  // Policies

  /** DAPolicyEntry */
  class PolicyEntry {
    var next: PolicyEntry?
    const access: Access
    const expr: PolicyExpr?

    constructor (expr: PolicyExpr?, access: Access)
      ensures next == null && this.expr == expr && this.access == access
      ensures forall o: object :: IsBlock(o) && fresh(o) ==> o == this
    {
      next, this.expr, this.access := null, expr, access;
    }

    ghost function Value(): Rule {
      Rule(TreeOf(expr), access)
    }

    /** The block, for its contents to be read: it must be live. */
    function Live(mem: Memory): (b: PolicyEntry)
      requires this in mem.live
      reads mem
      ensures b == this
    {
      this
    }
  }

  ghost function Following(spine: seq<PolicyEntry>, i: nat): PolicyEntry? {
    if i + 1 < |spine| then spine[i + 1] else null
  }

  /** The entries reached from first, in order. */
  ghost predicate IsSpine(first: PolicyEntry?, spine: seq<PolicyEntry>)
    reads spine
  {
    && NoDuplicates(spine)
    && first == (if spine == [] then null else spine[0])
    && forall i :: 0 <= i < |spine| ==> spine[i].next == Following(spine, i)
  }

  /** Every entry has a valid expression of its own. */
  ghost predicate Separate(spine: seq<PolicyEntry>) {
    && (forall i :: 0 <= i < |spine| ==> spine[i].expr != null ==> spine[i].expr.Valid())
    && forall i, j :: 0 <= i < j < |spine| ==> NodesOf(spine[i].expr) !! NodesOf(spine[j].expr)
  }

  ghost function Rules(spine: seq<PolicyEntry>): (rules: seq<Rule>)
    ensures |rules| == |spine|
    ensures forall i :: 0 <= i < |spine| ==> rules[i] == spine[i].Value()
  {
    if spine == [] then [] else Rules(spine[..|spine| - 1]) + [spine[|spine| - 1].Value()]
  }

  /** All blocks of all expressions. */
  ghost function AllNodes(spine: seq<PolicyEntry>): set<object> {
    if spine == [] then {} else AllNodes(spine[..|spine| - 1]) + NodesOf(spine[|spine| - 1].expr)
  }

  /** All blocks of the entries. */
  ghost function Blocks(spine: seq<PolicyEntry>): set<object> {
    (set e: PolicyEntry | e in spine) + AllNodes(spine)
  }

  lemma {:induction false} AllNodesAre(spine: seq<PolicyEntry>, n: object)
    ensures n in AllNodes(spine) <==> exists i :: 0 <= i < |spine| && n in NodesOf(spine[i].expr)
    decreases |spine|
  {
    if spine != [] {
      var front, last := spine[..|spine| - 1], |spine| - 1;
      AllNodesAre(front, n);
      if i :| 0 <= i < |spine| && n in NodesOf(spine[i].expr) {
        assert i < last ==> n in NodesOf(front[i].expr);
      }
      if i :| 0 <= i < |front| && n in NodesOf(front[i].expr) {
        assert n in NodesOf(spine[i].expr);
      }
    }
  }

  lemma {:induction false} NodesAreNodes(spine: seq<PolicyEntry>)
    requires Separate(spine)
    ensures forall o :: o in AllNodes(spine) ==> IsExprBlock(o)
  {
    forall o | o in AllNodes(spine) ensures IsExprBlock(o) {
      AllNodesAre(spine, o);
    }
  }

  lemma {:induction false} NodesAreBlocks(spine: seq<PolicyEntry>)
    ensures forall i, n :: 0 <= i < |spine| && n in NodesOf(spine[i].expr) ==> n in Blocks(spine)
  {
    forall i, n | 0 <= i < |spine| && n in NodesOf(spine[i].expr) ensures n in Blocks(spine) {
      AllNodesAre(spine, n);
    }
  }

  class CompiledPolicy {
    var entries: PolicyEntry?
    ghost var spine: seq<PolicyEntry>

    constructor ()
      ensures Valid() && spine == [] && Owned() == {this} && Rules(spine) == []
      ensures forall o: object :: IsBlock(o) && fresh(o) ==> o == this
    {
      entries, spine := null, [];
    }

    ghost predicate Valid()
      reads this, spine
    {
      IsSpine(entries, spine) && Separate(spine)
    }

    ghost function Owned(): set<object>
      reads this
    {
      {this} + Blocks(spine)
    }
  }

  ghost function RulesOf(policy: CompiledPolicy?): Option<seq<Rule>>
    reads policy
  {
    if policy == null then None else Some(Rules(policy.spine))
  }

  /** da_policy_add_entry: walk to the last entry and hang the new one there. */
  method AddEntry(policy: CompiledPolicy, parsed: ParserEntry, mem: Memory) returns (ghost entry: PolicyEntry)
    requires policy.Valid() && parsed.Valid()
    requires policy.Owned() <= mem.live && parsed.Repr() <= mem.live
    modifies policy, policy.spine`next, mem
    ensures policy.Valid() && policy.spine == old(policy.spine) + [entry]
    ensures Rules(policy.spine) == Rules(old(policy.spine)) + [CompileEntry(parsed.Value())]
    ensures policy.Owned() == old(policy.Owned()) + {entry} + NodesOf(entry.expr)
    ensures fresh(entry) && fresh(NodesOf(entry.expr))
    ensures mem.live == old(mem.live) + {entry} + NodesOf(entry.expr) && mem.freed == old(mem.freed)
    ensures forall o: object :: IsBlock(o) && fresh(o) ==> o == entry || o in NodesOf(entry.expr)
  {
    hide PolicyExpr.Valid, PolicyEntry.Value, CompileEntry, NodesOf, Blocks, AllNodes, Rules, IsSpine, Separate,
         TreeOf, Following, ParserEntry.Valid, ParserEntry.Value, ParserEntry.Repr;
    ghost var spine := policy.spine;
    BlocksAreLive(policy, mem);
    var built := BuildEntry(parsed, mem);
    entry := built;
    SpineGrows(spine, entry);
    Extend(policy, built, mem);
  }

  /** A new entry with a new expression. */
  method BuildEntry(parsed: ParserEntry, mem: Memory) returns (entry: PolicyEntry)
    requires parsed.Valid() && parsed.Repr() <= mem.live
    modifies mem
    ensures fresh(entry) && entry.next == null && (entry.expr != null ==> entry.expr.Valid())
    ensures entry.Value() == CompileEntry(parsed.Value())
    ensures fresh(NodesOf(entry.expr))
    ensures mem.live == old(mem.live) + {entry} + NodesOf(entry.expr) && mem.freed == old(mem.freed)
    ensures forall o: object :: IsBlock(o) && fresh(o) ==> o == entry || o in NodesOf(entry.expr)
  {
    hide PolicyExpr.Valid, ParserExpr.Valid, CompileExpr;
    var expr := NewExpr(parsed.Live(mem).expr, mem);
    entry := new PolicyEntry(expr, parsed.Live(mem).access);
    mem.Allocated(entry);
  }

  method Extend(policy: CompiledPolicy, entry: PolicyEntry, mem: Memory)
    requires forall i :: 0 <= i < |policy.spine| ==> policy.spine[i] in mem.live
    requires IsSpine(policy.entries, policy.spine) && entry !in policy.spine && entry.next == null
    requires Separate(policy.spine + [entry])
    modifies policy, policy.spine`next
    ensures policy.Valid() && policy.spine == old(policy.spine) + [entry]
    ensures forall o: object :: IsBlock(o) ==> !fresh(o)
  {
    hide Separate;
    policy.entries := HangAfter(policy.entries, entry, policy.spine, mem);
    policy.spine := policy.spine + [entry];
  }

  /** The entry goes behind the last one, or becomes the first. */
  method HangAfter(first: PolicyEntry?, entry: PolicyEntry, ghost spine: seq<PolicyEntry>, mem: Memory)
    returns (first': PolicyEntry)
    requires forall i :: 0 <= i < |spine| ==> spine[i] in mem.live
    requires IsSpine(first, spine) && entry !in spine && entry.next == null
    modifies spine`next
    ensures IsSpine(first', spine + [entry])
    ensures forall o: object :: IsBlock(o) ==> !fresh(o)
  {
    if first == null {
      assert spine + [entry] == [entry];
      return entry;
    }
    first' := first;
    var last := first;
    ghost var n := 0;
    while last.Live(mem).next != null
      invariant n < |spine| && last == spine[n]
      modifies {}
      decreases |spine| - n
    {
      last := last.Live(mem).next;
      n := n + 1;
    }
    last.next := entry;
    ghost var all := spine + [entry];
    forall i | 0 <= i < |all| ensures all[i].next == Following(all, i) {
      if i < n {
        assert spine[i] != spine[n];
      }
    }
  }

  lemma {:induction false} NoBlocks()
    ensures Rules([]) == [] && AllNodes([]) == {} && Blocks([]) == {}
  {
  }

  lemma {:induction false} SpineGrows(spine: seq<PolicyEntry>, entry: PolicyEntry)
    requires Separate(spine) && (entry.expr != null ==> entry.expr.Valid())
    requires forall i :: 0 <= i < |spine| ==> NodesOf(spine[i].expr) !! NodesOf(entry.expr)
    ensures Separate(spine + [entry])
    ensures Rules(spine + [entry]) == Rules(spine) + [entry.Value()]
    ensures Blocks(spine + [entry]) == Blocks(spine) + {entry} + NodesOf(entry.expr)
  {
  }

  /** The expressions of a policy are valid. */
  lemma {:induction false} ExprsAreValid(policy: CompiledPolicy)
    requires policy.Valid()
    ensures IsSpine(policy.entries, policy.spine)
    ensures forall i :: 0 <= i < |policy.spine| ==> policy.spine[i].expr != null ==> policy.spine[i].expr.Valid()
  {
  }

  /** The entries of a live policy are live, and so are their expressions. */
  lemma {:induction false} BlocksAreLive(policy: CompiledPolicy, mem: Memory)
    requires policy.Owned() <= mem.live
    ensures forall i :: 0 <= i < |policy.spine| ==>
      policy.spine[i] in mem.live && NodesOf(policy.spine[i].expr) <= mem.live
  {
    forall i | 0 <= i < |policy.spine|
      ensures policy.spine[i] in mem.live && NodesOf(policy.spine[i].expr) <= mem.live
    {
      assert policy.spine[i] in policy.Owned();
      NodesAreBlocks(policy.spine);
    }
  }

  /** The n-th rule decides if it matches. */
  lemma {:induction false} DecideNext(ps: Patterns, spine: seq<PolicyEntry>, n: nat, pc: Check, def: Access)
    requires n < |spine|
    ensures Decide(ps, Rules(spine)[..n + 1], pc, def) ==
            if spine[n].expr == null || Match(ps, spine[n].expr.tree, pc) then spine[n].access
            else Decide(ps, Rules(spine)[..n], pc, def)
  {
    assert Rules(spine)[..n + 1][..n] == Rules(spine)[..n];
    hide Match;
  }

  /** da_policy_check: root may do everything; otherwise the last entry that matches decides. */
  method CheckPolicy(ps: Patterns, policy: CompiledPolicy?, cred: Option<Caller>, action: nat, arg: Option<string>,
                     def: Access, mem: Memory)
    returns (result: Access)
    requires policy != null ==> policy.Valid() && policy.Owned() <= mem.live
    ensures result == Decision(ps, RulesOf(policy), Check(cred, action, arg), def)
    ensures cred.Some? && cred.value.euid == 0 ==> result == Allow
    ensures (cred.None? || cred.value.euid != 0) && policy == null ==> result == def
    ensures (cred.None? || cred.value.euid != 0) && policy != null ==>
      result == Decide(ps, Rules(policy.spine), Check(cred, action, arg), def)
  {
    hide PolicyExpr.Valid, Match, NodesOf, CompiledPolicy.Owned, CompiledPolicy.Valid, Rules, Blocks, Decide,
         NoDuplicates;
    result := def;
    if cred.Some? && cred.value.euid == 0 {
      result := Allow;
    } else if policy != null {
      ExprsAreValid(policy);
      BlocksAreLive(policy, mem);
      var entry := policy.entries;
      var check := Check(cred, action, arg);
      ghost var spine, n := policy.spine, 0;
      DecideNothing(ps, spine, check, def);
      while entry != null
        invariant n <= |spine|
        invariant entry == if n < |spine| then spine[n] else null
        invariant result == Decide(ps, Rules(spine)[..n], check, def)
        decreases |spine| - n
      {
        DecideNext(ps, spine, n, check, def);
        assert entry.next == Following(spine, n);
        var matches := MatchExpr(ps, entry.Live(mem).expr, check, mem);
        if matches {
          result := entry.Live(mem).access;
        }
        entry := entry.Live(mem).next;
        n := n + 1;
      }
      assert Rules(spine)[..n] == Rules(spine);
    }
  }

  lemma {:induction false} DecideNothing(ps: Patterns, spine: seq<PolicyEntry>, pc: Check, def: Access)
    ensures Decide(ps, Rules(spine)[..0], pc, def) == def
  {
  }

  /** da_policy_equal: entry by entry, in order. */
  method EqualPolicy(ps: Patterns, p1: CompiledPolicy?, p2: CompiledPolicy?, mem: Memory) returns (equal: bool)
    requires ps.Sound()
    requires (p1 != null ==> p1.Valid() && p1.Owned() <= mem.live)
      && (p2 != null ==> p2.Valid() && p2.Owned() <= mem.live)
    ensures equal == EqualPolicies(ps, RulesOf(p1), RulesOf(p2))
    ensures p1 == null || p2 == null ==> equal == (p1 == p2)
    ensures p1 != null && p2 != null ==>
      (equal <==> |p1.spine| == |p2.spine| && forall i :: 0 <= i < |p1.spine| ==> SwapsTo(ps, p1.spine[i], p2.spine[i]))
  {
    hide PolicyExpr.Valid, Equal, SwapsTo, NodesOf, TreeOf, Rules, EqualOptional, EqualPolicies, RulesOf;
    EqualExactly(ps, p1, p2);
    if p1 == p2 {
      SamePolicy(ps, p1);
      return true;
    } else if p1 == null || p2 == null {
      return false;
    }
    var e1, e2 := p1.entries, p2.entries;
    ghost var s1, s2, n := p1.spine, p2.spine, 0;
    BlocksAreLive(p1, mem);
    BlocksAreLive(p2, mem);
    while e1 != null && e2 != null
      invariant n <= |s1| && n <= |s2|
      invariant e1 == (if n < |s1| then s1[n] else null) && e2 == (if n < |s2| then s2[n] else null)
      invariant forall i :: 0 <= i < n ==> SameEntries(ps, s1[i], s2[i])
      decreases |s1| - n
    {
      var same, _ := EqualExpr(ps, e1.Live(mem).expr, e2.Live(mem).expr, mem);
      if !same || e1.Live(mem).access != e2.Live(mem).access {
        EntriesDecide(ps, p1, p2);
        assert !SameEntries(ps, s1[n], s2[n]);
        return false;
      }
      assert e1.next == Following(s1, n) && e2.next == Following(s2, n);
      e1, e2 := e1.Live(mem).next, e2.Live(mem).next;
      n := n + 1;
    }
    equal := e1 == null && e2 == null;
    EntriesDecide(ps, p1, p2);
  }

  ghost predicate SameEntries(ps: Patterns, e1: PolicyEntry, e2: PolicyEntry) {
    e1.access == e2.access && EqualOptional(ps, TreeOf(e1.expr), TreeOf(e2.expr))
  }

  /** Policies are equal exactly if their entries are. */
  lemma {:induction false} EntriesDecide(ps: Patterns, p1: CompiledPolicy, p2: CompiledPolicy)
    ensures EqualPolicies(ps, RulesOf(p1), RulesOf(p2)) <==>
      |p1.spine| == |p2.spine| && forall i :: 0 <= i < |p1.spine| ==> SameEntries(ps, p1.spine[i], p2.spine[i])
  {
    hide Equal;
    var r1, r2 := Rules(p1.spine), Rules(p2.spine);
    if |r1| == |r2| {
      forall i | 0 <= i < |r1| ensures EqualRules(ps, r1[i], r2[i]) <==> SameEntries(ps, p1.spine[i], p2.spine[i]) {
        assert r1[i] == p1.spine[i].Value() && r2[i] == p2.spine[i].Value();
      }
    }
  }

  lemma {:induction false} SamePolicy(ps: Patterns, p: CompiledPolicy?)
    requires ps.Sound()
    ensures EqualPolicies(ps, RulesOf(p), RulesOf(p))
  {
    if p != null {
      SameRules(ps, Rules(p.spine));
    }
    hide EqualRules;
  }

  /** The entries have the same access, and are wildcards or have expressions that differ by swaps. */
  ghost predicate SwapsTo(ps: Patterns, e1: PolicyEntry, e2: PolicyEntry) {
    && e1.access == e2.access && (e1.expr == null <==> e2.expr == null)
    && (e1.expr != null && e2.expr != null ==> Swappable(ps, e1.expr.tree, e2.expr.tree))
  }

  lemma {:induction false} EqualExactly(ps: Patterns, p1: CompiledPolicy?, p2: CompiledPolicy?)
    ensures p1 == null || p2 == null ==> (EqualPolicies(ps, RulesOf(p1), RulesOf(p2)) <==> p1 == p2)
    ensures p1 != null && p2 != null ==>
      (EqualPolicies(ps, RulesOf(p1), RulesOf(p2)) <==>
         |p1.spine| == |p2.spine| && forall i :: 0 <= i < |p1.spine| ==> SwapsTo(ps, p1.spine[i], p2.spine[i]))
  {
    hide Swappable, EqualPolicies;
    if p1 == null || p2 == null {
      EqualPoliciesExactly(ps, if p1 == null then [] else Rules(p1.spine), if p2 == null then [] else Rules(p2.spine));
    } else {
      var r1, r2 := Rules(p1.spine), Rules(p2.spine);
      EqualPoliciesExactly(ps, r1, r2);
      if |r1| == |r2| {
        forall i | 0 <= i < |r1|
          ensures SwapsTo(ps, p1.spine[i], p2.spine[i]) <==>
            && r1[i].access == r2[i].access && (r1[i].expr == None <==> r2[i].expr == None)
            && (r1[i].expr != None && r2[i].expr != None ==> Swappable(ps, r1[i].expr.value, r2[i].expr.value))
        {
          assert r1[i] == p1.spine[i].Value() && r2[i] == p2.spine[i].Value();
        }
      }
    }
  }

  lemma {:induction false} SameRules(ps: Patterns, rules: seq<Rule>)
    requires ps.Sound()
    ensures EqualPolicies(ps, Some(rules), Some(rules))
  {
    forall i | 0 <= i < |rules| ensures EqualRules(ps, rules[i], rules[i]) {
      if rules[i].expr.Some? {
        EqualRefl(ps, rules[i].expr.value);
      }
    }
  }

  /**
   * da_policy_new_full: the compiled policy, or nothing if the text does not parse. In both cases
   * every block that was created on the way was freed again, but for those of the policy.
   */
  method NewPolicy(spec: Option<string>, actions: seq<Action>, users: map<string, int>, groups: map<string, int>,
                   mem: Memory)
    returns (policy: CompiledPolicy?)
    modifies mem
    ensures var env := Env(actions, users, groups);
      var result := if spec.None? then None else Compile(env, Tokens(spec.value));
      match result
      case None => policy == null && mem.live == old(mem.live)
      case Some(es) =>
        && policy != null && policy.Valid() && Rules(policy.spine) == CompileEntries(es)
        && fresh(policy.Owned()) && mem.live == old(mem.live) + policy.Owned()
    ensures forall o: object :: IsBlock(o) && fresh(o) ==> o in mem.freed || (policy != null && o in policy.Owned())
  {
    hide Compile, Tokens, Rules, Blocks, Entries, IsSpine, Separate, NoDuplicates;
    var parser := CompileText(spec, actions, users, groups, mem);
    if parser == null {
      return null;
    }
    policy := CopyEntries(parser.entries, parser.chain, mem);
    assert parser.Others() == old(mem.live) + policy.Owned();
    parser.Delete();
  }

  lemma {:induction false} CompileNothing()
    ensures CompileEntries([]) == []
  {
  }

  lemma {:induction false} CompileNext(es: seq<Entry>, n: nat)
    requires n < |es|
    ensures CompileEntries(es[..n + 1]) == CompileEntries(es[..n]) + [CompileEntry(es[n])]
  {
  }

  /** One more entry, and everything new belongs to the policy. */
  method CopyEntry(policy: CompiledPolicy, parsed: ParserEntry, mem: Memory)
    requires policy.Valid() && parsed.Valid()
    requires policy.Owned() <= mem.live && parsed.Repr() <= mem.live
    modifies policy, policy.spine`next, mem
    ensures policy.Valid() && Rules(policy.spine) == Rules(old(policy.spine)) + [CompileEntry(parsed.Value())]
    ensures policy.Owned() >= old(policy.Owned()) && fresh(policy.Owned() - old(policy.Owned()))
    ensures forall e :: e in policy.spine ==> e in old(policy.spine) || fresh(e)
    ensures mem.live == old(mem.live) + policy.Owned() && mem.freed == old(mem.freed)
    ensures forall o: object :: IsBlock(o) && fresh(o) ==> o in policy.Owned()
  {
    hide PolicyExpr.Valid, ParserExpr.Valid, ParserEntry.Value, ParserEntry.Repr, CompileEntry, Rules, NodesOf,
         CompiledPolicy.Valid, CompiledPolicy.Owned;
    ghost var entry := AddEntry(policy, parsed, mem);
  }

  /** The loop of da_policy_new_full over the parser's result. */
  method CopyEntries(link: Link?, ghost chain: seq<Link>, mem: Memory) returns (policy: CompiledPolicy)
    requires IsChain(link, chain)
    requires forall l :: l in chain ==> l in mem.live && l.data.Valid() && l.data.Repr() <= mem.live
    modifies mem
    ensures policy.Valid() && Rules(policy.spine) == CompileEntries(Entries(chain))
    ensures fresh(policy.Owned()) && mem.live == old(mem.live) + policy.Owned() && mem.freed == old(mem.freed)
    ensures forall o: object :: IsBlock(o) && fresh(o) ==> o in policy.Owned()
  {
    hide PolicyExpr.Valid, ParserExpr.Valid, ParserEntry.Value, ParserEntry.Repr, Entries, NoDuplicates,
         CompileEntries, CompileEntry, Rules, NodesOf, CompiledPolicy.Valid, CompiledPolicy.Owned;
    ghost var es := Entries(chain);
    CompileNothing();
    assert es[..0] == [];
    policy := new CompiledPolicy();
    mem.Allocated(policy);
    var rest := link;
    ghost var n := 0;
    while rest != null
      invariant n <= |es|
      invariant rest == if n < |es| then chain[n] else null
      invariant policy.Valid() && fresh(policy) && fresh(policy.Owned())
      invariant fresh(set e: PolicyEntry | e in policy.spine)
      invariant Rules(policy.spine) == CompileEntries(es[..n])
      invariant mem.live == old(mem.live) + policy.Owned() && mem.freed == old(mem.freed)
      invariant forall o: object :: IsBlock(o) && fresh(o) ==> o in policy.Owned()
      decreases |es| - n
    {
      assert rest in chain && rest.next == After(chain, n) && rest.data.Value() == es[n];
      CompileNext(es, n);
      CopyEntry(policy, rest.Live(mem).data, mem);
      rest := rest.Live(mem).next;
      n := n + 1;
    }
    assert es[..n] == es;
  }

  /** The last da_policy_unref: every block of the policy is freed, none of them twice, and no other. */
  method Finalize(policy: CompiledPolicy, mem: Memory)
    requires policy.Valid() && policy.Owned() <= mem.live
    modifies mem
    ensures mem.live == old(mem.live) - policy.Owned() && mem.freed == old(mem.freed) + policy.Owned()
    ensures forall o: object :: IsBlock(o) ==> !fresh(o)
  {
    hide PolicyExpr.Valid, NodesOf;
    ghost var spine := policy.spine;
    NodesAreNodes(spine);
    FreeExprs(policy.entries, spine, mem);
    FreeChain(policy.entries, spine, mem);
    mem.Free(policy);
  }

  /** The n-th expression has blocks of its own, which are no entries either. */
  lemma {:induction false} NextNodes(spine: seq<PolicyEntry>, n: nat)
    requires Separate(spine) && n < |spine|
    ensures spine[n].expr != null ==> spine[n].expr.Valid()
    ensures NodesOf(spine[n].expr) !! AllNodes(spine[..n]) && NodesOf(spine[n].expr) <= AllNodes(spine)
    ensures AllNodes(spine[..n + 1]) == AllNodes(spine[..n]) + NodesOf(spine[n].expr)
    ensures spine[n] !in AllNodes(spine[..n + 1])
  {
    var front := spine[..n];
    assert spine[..n + 1][..n] == front;
    assert Separate(spine[..n + 1]);
    NodesAreNodes(spine[..n + 1]);
    hide PolicyExpr.Valid;
    forall o | o in NodesOf(spine[n].expr) ensures o !in AllNodes(front) && o in AllNodes(spine) {
      AllNodesAre(front, o);
      AllNodesAre(spine, o);
      assert forall i :: 0 <= i < n ==> front[i] == spine[i];
    }
  }

  /** The loop of da_policy_finalize. */
  method FreeExprs(first: PolicyEntry?, ghost spine: seq<PolicyEntry>, mem: Memory)
    requires IsSpine(first, spine) && Separate(spine)
    requires forall e: PolicyEntry :: e in spine ==> e in mem.live
    requires AllNodes(spine) <= mem.live
    modifies mem
    ensures mem.live == old(mem.live) - AllNodes(spine) && mem.freed == old(mem.freed) + AllNodes(spine)
    ensures forall o: object :: IsBlock(o) ==> !fresh(o)
  {
    hide PolicyExpr.Valid, NodesOf, Separate, AllNodes;
    NoBlocks();
    var entry := first;
    ghost var n := 0;
    assert spine[..0] == [];
    while entry != null
      invariant n <= |spine|
      invariant entry == if n < |spine| then spine[n] else null
      invariant mem.live == old(mem.live) - AllNodes(spine[..n]) && mem.freed == old(mem.freed) + AllNodes(spine[..n])
      invariant forall o: object :: IsBlock(o) ==> !fresh(o)
      decreases |spine| - n
    {
      NextNodes(spine, n);
      assert entry in spine && entry.next == Following(spine, n);
      FreeExpr(entry.Live(mem).expr, mem);
      entry := entry.Live(mem).next;
      n := n + 1;
    }
    assert spine[..n] == spine;
  }

  /** g_slice_free_chain */
  method FreeChain(first: PolicyEntry?, ghost spine: seq<PolicyEntry>, mem: Memory)
    requires IsSpine(first, spine)
    requires forall e: PolicyEntry :: e in spine ==> e in mem.live
    modifies mem
    ensures mem.live == old(mem.live) - (set e: PolicyEntry | e in spine)
    ensures mem.freed == old(mem.freed) + (set e: PolicyEntry | e in spine)
    ensures forall o: object :: IsBlock(o) ==> !fresh(o)
  {
    hide NoDuplicates;
    var entry := first;
    ghost var n := 0;
    while entry != null
      invariant n <= |spine|
      invariant entry == if n < |spine| then spine[n] else null
      invariant mem.live == old(mem.live) - (set e: PolicyEntry | e in spine[..n])
      invariant mem.freed == old(mem.freed) + (set e: PolicyEntry | e in spine[..n])
      invariant forall o: object :: IsBlock(o) ==> !fresh(o)
      decreases |spine| - n
    {
      NextOf(spine, n);
      var next := entry.Live(mem).next;
      assert next == Following(spine, n);
      mem.Free(entry);
      entry := next;
      n := n + 1;
    }
    assert spine[..n] == spine;
  }
}
