/**
 * DAParser: the arena that owns everything a parse creates. Strings, expressions and entries are on
 * alloc_list, list links on link_list; the links also form the chain of entries, which is
 * concatenated destructively. Deleting the parser frees all of it, whatever became of the parse.
 */
module Arena {
  import opened Wrappers
  import opened Syntax
  import opened Memory

  /** A copied string. */
  class Str {
    const text: string

    constructor (text: string)
      ensures this.text == text
      ensures forall o: object :: IsBlock(o) && fresh(o) ==> o == this
    {
      this.text := text;
    }

    /** The block, for its contents to be read: it must be live. */
    function Live(mem: Memory): (b: Str)
      requires this in mem.live
      reads mem
      ensures b == this
    {
      this
    }
  }

  /** The parser's string buffer. */
  class GString {
    var str: string

    constructor ()
      ensures str == ""
      ensures forall o: object :: IsBlock(o) && fresh(o) ==> o == this
    {
      str := "";
    }
  }

  datatype ExprType = IdentityType | CustomType | NotType | AndType | OrType

  function TypeOf(op: BinOp): ExprType {
    match op
    case And => AndType
    case Or => OrType
  }

  /** DAParserExpr; nothing changes it after it is built. */
  class ParserExpr {
    const typ: ExprType
    const uid: int
    const gid: int
    const action: nat
    const param: Str?
    const left: ParserExpr?
    const right: ParserExpr?
    /** What the nodes from here on stand for, and all their blocks, with those of the parameters. */
    ghost const tree: Expr
    ghost const repr: set<object>

    /** All operands are there, and the nodes stand for the tree. */
    ghost predicate Valid()
      decreases tree
    {
      match typ
      case IdentityType => tree == Expr.Identity(uid, gid) && repr == {this}
      case CustomType => tree == Expr.Custom(action, TextOf(param)) && repr == {this} + BlockOf(param)
      case NotType => left != null && tree == Expr.Not(left.tree) && repr == {this} + left.repr && left.Valid()
      case AndType => ValidBinary(And)
      case OrType => ValidBinary(Or)
    }

    ghost predicate ValidBinary(op: BinOp)
      decreases tree, 0
    {
      && left != null && right != null
      && tree == Expr.Binary(op, left.tree, right.tree) && repr == {this} + left.repr + right.repr
      && left.Valid() && right.Valid()
    }

    constructor Identity(uid: int, gid: int)
      ensures Valid() && tree == Expr.Identity(uid, gid) && repr == {this}
      ensures forall o: object :: IsBlock(o) && fresh(o) ==> o == this
    {
      typ, this.uid, this.gid, action, param, left, right := IdentityType, uid, gid, 0, null, null, null;
      tree, repr := Expr.Identity(uid, gid), {this};
    }

    constructor Custom(action: nat, param: Str?)
      ensures Valid() && tree == Expr.Custom(action, TextOf(param)) && repr == {this} + BlockOf(param)
      ensures forall o: object :: IsBlock(o) && fresh(o) ==> o == this
    {
      typ, uid, gid, this.action, this.param, left, right := CustomType, 0, 0, action, param, null, null;
      tree, repr := Expr.Custom(action, TextOf(param)), {this} + BlockOf(param);
    }

    constructor Not(operand: ParserExpr)
      requires operand.Valid()
      ensures Valid() && tree == Expr.Not(operand.tree) && repr == {this} + operand.repr
      ensures forall o: object :: IsBlock(o) && fresh(o) ==> o == this
    {
      typ, uid, gid, action, param, left, right := NotType, 0, 0, 0, null, operand, null;
      tree, repr := Expr.Not(operand.tree), {this} + operand.repr;
    }

    constructor Binary(op: BinOp, left: ParserExpr, right: ParserExpr)
      requires left.Valid() && right.Valid()
      ensures Valid() && tree == Expr.Binary(op, left.tree, right.tree) && repr == {this} + left.repr + right.repr
      ensures forall o: object :: IsBlock(o) && fresh(o) ==> o == this
    {
      typ, uid, gid, action, param, this.left, this.right := TypeOf(op), 0, 0, 0, null, left, right;
      tree, repr := Expr.Binary(op, left.tree, right.tree), {this} + left.repr + right.repr;
    }

    /** The block, for its contents to be read: it must be live. */
    function Live(mem: Memory): (b: ParserExpr)
      requires this in mem.live
      reads mem
      ensures b == this
    {
      this
    }
  }

  /** The text of an optional string, and its block. */
  ghost function TextOf(s: Str?): Option<string> {
    if s == null then None else Some(s.text)
  }

  ghost function BlockOf(s: Str?): set<object> {
    if s == null then {} else {s}
  }

  /** DAParserEntry */
  class ParserEntry {
    const expr: ParserExpr?
    const access: Access

    constructor (expr: ParserExpr?, access: Access)
      ensures this.expr == expr && this.access == access
      ensures forall o: object :: IsBlock(o) && fresh(o) ==> o == this
    {
      this.expr, this.access := expr, access;
    }

    ghost predicate Valid() {
      expr != null ==> expr.Valid()
    }

    ghost function Value(): Entry {
      Entry(if expr == null then None else Some(expr.tree), access)
    }

    /** The entry, and the blocks of its expression. */
    ghost function Repr(): set<object> {
      {this} + if expr == null then {} else expr.repr
    }

    /** The block, for its contents to be read: it must be live. */
    function Live(mem: Memory): (b: ParserEntry)
      requires this in mem.live
      reads mem
      ensures b == this
    {
      this
    }
  }

  /** A GSList node. */
  class Link {
    var data: ParserEntry
    var next: Link?

    constructor (data: ParserEntry)
      ensures this.data == data && next == null
      ensures forall o: object :: IsBlock(o) && fresh(o) ==> o == this
    {
      this.data, next := data, null;
    }

    /** The block, for its contents to be read: it must be live. */
    function Live(mem: Memory): (b: Link)
      requires this in mem.live
      reads mem
      ensures b == this
    {
      this
    }
  }

  // Chains of links

  ghost predicate NoDuplicates<T>(s: seq<T>) {
    forall i, j :: 0 <= i < j < |s| ==> s[i] != s[j]
  }

  /** The next element of a sequence without duplicates is not among the first ones. */
  lemma {:induction false} NextOf<T>(s: seq<T>, i: nat)
    requires NoDuplicates(s) && i < |s|
    ensures s[i] in s && s[i] !in s[..i] && s[..i + 1] == s[..i] + [s[i]]
  {
  }

  ghost function After(chain: seq<Link>, i: nat): Link? {
    if i + 1 < |chain| then chain[i + 1] else null
  }

  /** The links reached from first, in order. */
  ghost predicate IsChain(first: Link?, chain: seq<Link>)
    reads chain
  {
    && NoDuplicates(chain)
    && first == (if chain == [] then null else chain[0])
    && forall i :: 0 <= i < |chain| ==> chain[i].next == After(chain, i)
  }

  /** The entries on a chain. */
  ghost function Entries(chain: seq<Link>): (es: seq<Entry>)
    reads chain
    ensures |es| == |chain|
    ensures forall i :: 0 <= i < |es| ==> es[i] == chain[i].data.Value()
  {
    if chain == [] then [] else Entries(chain[..|chain| - 1]) + [chain[|chain| - 1].data.Value()]
  }

  /** The chain is made of these links, and its entries with everything in them are among these blocks. */
  ghost predicate IsAmong(chain: seq<Link>, links: seq<Link>, allocs: set<object>)
    reads chain
  {
    forall l :: l in chain ==> l in links && l.data.Valid() && l.data.Repr() <= allocs
  }

  /** g_slist_concat: walk to the last link of the first chain and hang the second one there. */
  method Concat(l1: Link?, l2: Link?, ghost c1: seq<Link>, ghost c2: seq<Link>, mem: Memory) returns (first: Link?)
    requires IsChain(l1, c1) && IsChain(l2, c2)
    requires forall i, j :: 0 <= i < |c1| && 0 <= j < |c2| ==> c1[i] != c2[j]
    requires forall i :: 0 <= i < |c1| ==> c1[i] in mem.live
    modifies c1
    ensures IsChain(first, c1 + c2)
    ensures forall l :: l in c1 + c2 ==> l.data == old(l.data)
    ensures forall o: object :: IsBlock(o) ==> !fresh(o)
  {
    if l1 == null {
      assert c1 + c2 == c2;
      return l2;
    }
    var last := l1;
    ghost var n := 0;
    while last.Live(mem).next != null
      invariant n < |c1| && last == c1[n]
      modifies {}
      decreases |c1| - n
    {
      last := last.Live(mem).next;
      n := n + 1;
    }
    last.next := l2;
    first := l1;
    ghost var c := c1 + c2;
    forall i | 0 <= i < |c| ensures c[i].next == After(c, i) {
      if i < n {
        assert c1[i] != c1[n];
      } else if i > n {
        var k := i - |c1|;
        assert c[i] == c2[k] && c2[k].next == After(c2, k);
      }
    }
  }

  // The arena

  class Parser {
    const actions: seq<Action>
    const mem: Memory
    const buf: GString
    var alloc_list: seq<object>
    var link_list: seq<Link>
    var entries: Link?
    /** The links of the entries. */
    ghost var chain: seq<Link>

    /** The blocks on alloc_list. */
    ghost function Allocs(): set<object>
      reads this`alloc_list
    {
      set o | o in alloc_list
    }

    /** Everything that must be freed with the parser. */
    ghost function Owned(): set<object>
      reads this`alloc_list, this`link_list
    {
      {this, buf} + Allocs() + (set l: Link | l in link_list)
    }

    /** The live blocks that are none of the parser's business. */
    ghost function Others(): set<object>
      reads this`alloc_list, this`link_list, mem
    {
      mem.live - Owned()
    }

    /** Owned blocks are distinct and live. */
    ghost predicate Valid()
      reads this`alloc_list, this`link_list, mem
    {
      && NoDuplicates(alloc_list) && NoDuplicates(link_list)
      && (forall o :: o in alloc_list ==> o !in link_list && o != this && o != buf)
      && Owned() <= mem.live
      && mem !in Owned()
    }

    /** The expression with all its nodes and strings is on alloc_list. */
    ghost predicate OwnsExpr(e: ParserExpr)
      reads this`alloc_list
    {
      e.Valid() && e.repr <= Allocs()
    }

    /** The entry and its expression are on alloc_list. */
    ghost predicate OwnsEntry(e: ParserEntry)
      reads this`alloc_list
    {
      e.Valid() && e.Repr() <= Allocs()
    }

    /** The chain is made of owned links and carries owned entries. */
    ghost predicate OwnsChain(chain: seq<Link>)
      reads this`alloc_list, this`link_list, chain
    {
      IsAmong(chain, link_list, Allocs())
    }

    /** The entries are owned, with everything in them. */
    ghost predicate ValidResult()
      reads this, chain
    {
      IsChain(entries, chain) && OwnsChain(chain)
    }

    /** What was owned still is, and nothing else was touched. */
    twostate predicate Kept()
      reads this`alloc_list, this`link_list, mem
    {
      Others() == old(Others()) && mem.freed == old(mem.freed) && old(Allocs()) <= Allocs() && old(Owned()) <= Owned()
    }

    /** da_parser_create */
    constructor (actions: seq<Action>, mem: Memory)
      modifies mem
      ensures fresh(this) && fresh(buf)
      ensures Valid() && alloc_list == [] && link_list == [] && entries == null && chain == []
      ensures this.actions == actions && this.mem == mem && buf.str == ""
      ensures Others() == old(mem.live) && mem.freed == old(mem.freed)
      ensures forall o: object :: IsBlock(o) && fresh(o) ==> o in Owned()
    {
      this.actions, this.mem := actions, mem;
      buf := new GString();
      alloc_list, link_list, entries, chain := [], [], null, [];
      new;
      mem.Allocated(this);
      mem.Allocated(buf);
    }

    /** Put a new block on alloc_list. */
    method Own(block: object)
      requires Valid() && block !in mem.live && block !in mem.freed && block != mem
      requires block !in alloc_list && block !in link_list
      modifies this`alloc_list, mem
      ensures Valid() && Kept()
      ensures alloc_list == [block] + old(alloc_list) && Allocs() == {block} + old(Allocs())
      ensures forall o: object :: IsBlock(o) ==> !fresh(o)
    {
      mem.Allocated(block);
      alloc_list := [block] + alloc_list;
      assert forall i :: 0 < i < |alloc_list| ==> alloc_list[i] == old(alloc_list)[i - 1];
      assert forall o :: o in alloc_list <==> o == block || o in old(alloc_list);
    }

    /** da_parser_new_string */
    method NewString(text: string) returns (copy: Str)
      requires Valid()
      modifies this`alloc_list, mem
      ensures Valid() && Kept()
      ensures fresh(copy) && copy.text == text && alloc_list == [copy] + old(alloc_list)
      ensures copy in Allocs() && copy in Owned()
      ensures forall o: object :: IsBlock(o) && fresh(o) ==> o == copy
    {
      copy := new Str(text);
      Own(copy);
    }

    /** da_parser_finish_string */
    method FinishString() returns (copy: Str)
      requires Valid()
      modifies this`alloc_list, mem, buf
      ensures Valid() && Kept()
      ensures fresh(copy) && copy.text == old(buf.str) && buf.str == ""
      ensures alloc_list == [copy] + old(alloc_list) && copy in Allocs() && copy in Owned()
      ensures forall o: object :: IsBlock(o) && fresh(o) ==> o == copy
    {
      copy := NewString(buf.str);
      buf.str := "";
    }

    /** da_parser_find_action: NULL is None. */
    method LookupAction(name: string) returns (action: Option<Action>)
      ensures action == FindAction(actions, name)
      ensures forall o: object :: IsBlock(o) ==> !fresh(o)
    {
      var i := 0;
      while i < |actions|
        invariant i <= |actions|
        invariant FindAction(actions, name) == FindAction(actions[i..], name)
      {
        if actions[i].name == name {
          return Some(actions[i]);
        }
        i := i + 1;
      }
      return None;
    }

    /** da_parser_new_expr_identity */
    method NewExprIdentity(uid: int, gid: int) returns (expr: ParserExpr)
      requires Valid()
      modifies this`alloc_list, mem
      ensures Valid() && Kept()
      ensures fresh(expr) && expr in Owned() && OwnsExpr(expr) && expr.tree == Identity(uid, gid)
      ensures alloc_list == [expr] + old(alloc_list)
      ensures forall o: object :: IsBlock(o) && fresh(o) ==> o == expr
    {
      expr := new ParserExpr.Identity(uid, gid);
      Own(expr);
    }

    /** da_parser_new_expr_custom: NULL for an unknown action or a parameter too many or too few. */
    method NewExprCustom(name: string, param: Str?) returns (expr: ParserExpr?)
      requires Valid() && (param != null ==> param in Allocs())
      modifies this`alloc_list, mem
      ensures Valid() && Kept()
      ensures var value := CustomValue(actions, name, TextOf(param));
        if value.None? then expr == null && alloc_list == old(alloc_list)
        else
          && expr != null && fresh(expr) && expr in Owned() && OwnsExpr(expr) && expr.tree == value.value
          && alloc_list == [expr] + old(alloc_list)
      ensures forall o: object :: IsBlock(o) && fresh(o) ==> o == expr
    {
      var action := LookupAction(name);
      if action.None? {
        return null;
      } else if param != null && action.value.args == 0 {
        return null;
      } else if param == null && action.value.args != 0 {
        return null;
      }
      expr := new ParserExpr.Custom(action.value.id, param);
      Own(expr);
    }

    /** da_parser_new_expr for NOT */
    method NewExprNot(operand: ParserExpr) returns (expr: ParserExpr)
      requires Valid() && OwnsExpr(operand)
      modifies this`alloc_list, mem
      ensures Valid() && Kept()
      ensures fresh(expr) && expr in Owned() && OwnsExpr(expr) && expr.tree == Not(operand.tree)
      ensures alloc_list == [expr] + old(alloc_list)
      ensures forall o: object :: IsBlock(o) && fresh(o) ==> o == expr
    {
      expr := new ParserExpr.Not(operand);
      Own(expr);
    }

    /** da_parser_new_expr for AND and OR */
    method NewExprBinary(op: BinOp, left: ParserExpr, right: ParserExpr) returns (expr: ParserExpr)
      requires Valid() && OwnsExpr(left) && OwnsExpr(right)
      modifies this`alloc_list, mem
      ensures Valid() && Kept()
      ensures fresh(expr) && expr in Owned() && OwnsExpr(expr) && expr.tree == Binary(op, left.tree, right.tree)
      ensures alloc_list == [expr] + old(alloc_list)
      ensures forall o: object :: IsBlock(o) && fresh(o) ==> o == expr
    {
      expr := new ParserExpr.Binary(op, left, right);
      Own(expr);
    }

    /** da_parser_new_entry */
    method NewEntry(expr: ParserExpr?, access: Access) returns (entry: ParserEntry)
      requires Valid() && (expr != null ==> OwnsExpr(expr))
      modifies this`alloc_list, mem
      ensures Valid() && Kept()
      ensures fresh(entry) && entry in Owned() && OwnsEntry(entry)
      ensures entry.Value() == Entry(if expr == null then None else Some(expr.tree), access)
      ensures alloc_list == [entry] + old(alloc_list)
      ensures forall o: object :: IsBlock(o) && fresh(o) ==> o == entry
    {
      entry := new ParserEntry(expr, access);
      Own(entry);
    }

    /** da_parser_new_link */
    method NewLink(data: ParserEntry) returns (link: Link)
      requires Valid()
      modifies this`link_list, mem
      ensures Valid() && Kept()
      ensures fresh(link) && link.data == data && link.next == null
      ensures link_list == [link] + old(link_list) && link in Owned()
      ensures forall o: object :: IsBlock(o) && fresh(o) ==> o == link
    {
      link := new Link(data);
      mem.Allocated(link);
      link_list := [link] + link_list;
      assert forall i :: 0 < i < |link_list| ==> link_list[i] == old(link_list)[i - 1];
      assert forall l: Link :: l in link_list <==> l == link || l in old(link_list);
    }

    /** da_parser_add_entries */
    method AddEntries(list: Link?, ghost more: seq<Link>)
      requires Valid() && ValidResult()
      requires IsChain(list, more) && OwnsChain(more)
      requires forall l :: l in more ==> l !in chain
      modifies this`entries, this`chain, chain
      ensures Valid() && Kept() && ValidResult() && chain == old(chain) + more
      ensures forall l :: l in chain ==> l.data == old(l.data)
      ensures forall o: object :: IsBlock(o) ==> !fresh(o)
    {
      hide ParserExpr.Valid, NoDuplicates, After;
      Apart(chain, more);
      assert forall i :: 0 <= i < |chain| ==> chain[i] in chain;
      entries := Concat(entries, list, chain, more, mem);
      chain := chain + more;
      hide IsChain;
    }

    static lemma {:induction false} Apart(chain: seq<Link>, more: seq<Link>)
      requires forall l :: l in more ==> l !in chain
      ensures forall i, j :: 0 <= i < |chain| && 0 <= j < |more| ==> chain[i] != more[j]
    {
      assert forall i, j :: 0 <= i < |chain| && 0 <= j < |more| ==> chain[i] in chain && more[j] in more;
    }

    /** da_parser_delete: every block of the parser is freed, none of them twice, and no other. */
    method Delete()
      requires Valid()
      modifies mem
      ensures mem.live == old(Others()) && mem.freed == old(mem.freed) + old(Owned())
      ensures forall o: object :: IsBlock(o) ==> !fresh(o)
    {
      hide NoDuplicates;
      var i := 0;
      while i < |link_list|
        invariant i <= |link_list|
        invariant mem.live == old(mem.live) - (set l: Link | l in link_list[..i])
        invariant mem.freed == old(mem.freed) + (set l: Link | l in link_list[..i])
        invariant forall o: object :: IsBlock(o) ==> !fresh(o)
      {
        NextOf(link_list, i);
        mem.Free(link_list[i]);
        i := i + 1;
      }
      assert link_list[..i] == link_list;
      ghost var live, freed := mem.live, mem.freed;
      i := 0;
      while i < |alloc_list|
        invariant i <= |alloc_list|
        invariant mem.live == live - (set o | o in alloc_list[..i])
        invariant mem.freed == freed + (set o | o in alloc_list[..i])
        invariant forall o: object :: IsBlock(o) ==> !fresh(o)
      {
        NextOf(alloc_list, i);
        mem.Free(alloc_list[i]);
        i := i + 1;
      }
      assert alloc_list[..i] == alloc_list;
      mem.Free(buf);
      mem.Free(this);
    }
  }
}
