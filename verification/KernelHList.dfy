/** The single-headed list of include/kernel_list.h (hlist).

    A node's `pprev` is the address of the pointer cell that leads to it: the `first` field of a
    head or the `next` field of another node.  Addresses are values of the datatype Cell. */
module KernelHList {
  import opened Sequences

  /** NoCell is NULL; Poison is what hlist_del leaves behind. */
  datatype Cell = NoCell | Poison | FirstOf(h: HlistHead) | NextOf(n: HlistNode)

  class HlistHead {
    var first: HlistNode?

    constructor ()
      ensures HList(this, [])
    {
      first := null;
    }
  }

  class HlistNode {
    // null also stands for the poison value left by hlist_del
    var next: HlistNode?
    var pprev: Cell

    constructor ()
      ensures next == null && pprev == NoCell
    {
      next := null;
      pprev := NoCell;
    }
  }

  /** Exactly the nodes of s, in this order, hang on h, and the `pprev` of each of them is the cell
      that points to it. */
  ghost predicate HList(h: HlistHead, s: seq<HlistNode>)
    reads h, s
  {
    && Distinct(s)
    && h.first == (if s == [] then null else s[0])
    && (forall i {:trigger s[i].next} :: 0 <= i < |s| ==> s[i].next == if i + 1 < |s| then s[i + 1] else null)
    && (forall i {:trigger s[i].pprev} :: 0 <= i < |s| ==>
          s[i].pprev == if i == 0 then FirstOf(h) else NextOf(s[i - 1]))
  }

  /** What the cell holds. */
  ghost function Target(c: Cell): HlistNode?
    reads if c.FirstOf? then {c.h} else {}, if c.NextOf? then {c.n} else {}
  {
    match c
    case NoCell => null
    case Poison => null
    case FirstOf(h) => h.first
    case NextOf(n) => n.next
  }

  ghost predicate CellOf(c: Cell, h: HlistHead, s: seq<HlistNode>) {
    c == FirstOf(h) || (c.NextOf? && c.n in s)
  }

  /** Of all the cells of a list, the one named by a node's `pprev` is the only one that points to
      the node. */
  lemma PprevIsTheOnlyCell(h: HlistHead, s: seq<HlistNode>, k: nat, c: Cell)
    requires HList(h, s) && k < |s| && CellOf(c, h, s)
    ensures Target(c) == s[k] <==> c == s[k].pprev
  {
    if c.NextOf? {
      var i :| 0 <= i < |s| && s[i] == c.n;
      assert s[i].next == if i + 1 < |s| then s[i + 1] else null;
    }
  }

  /** A head determines its list. */
  lemma {:induction false} HListUnique(h: HlistHead, s: seq<HlistNode>, t: seq<HlistNode>)
    requires HList(h, s) && HList(h, t)
    ensures s == t
  {
    var n := if |s| < |t| then |s| else |t|;
    HListPrefix(h, s, t, n);
    if n > 0 {
      assert s[n - 1] == s[..n][n - 1] == t[n - 1];
      assert s[n - 1].next == t[n - 1].next;
    }
  }

  lemma {:induction false} HListPrefix(h: HlistHead, s: seq<HlistNode>, t: seq<HlistNode>, n: nat)
    requires HList(h, s) && HList(h, t) && n <= |s| && n <= |t|
    ensures s[..n] == t[..n]
  {
    if n > 1 {
      HListPrefix(h, s, t, n - 1);
      assert s[n - 2] == s[..n - 1][n - 2] == t[n - 2];
      assert s[n - 2].next == s[n - 1] && t[n - 2].next == t[n - 1];
    }
  }

  method InitNode(n: HlistNode)
    modifies n
    ensures n.next == null && n.pprev == NoCell
  {
    n.next := null;
    n.pprev := NoCell;
  }

  method Unhashed(n: HlistNode, ghost h: HlistHead, ghost s: seq<HlistNode>) returns (r: bool)
    ensures (HList(h, s) && n in s) || n.pprev == Poison ==> !r
    ensures r <==> n.pprev == NoCell
  {
    r := n.pprev == NoCell;
  }

  method Empty(h: HlistHead, ghost s: seq<HlistNode>) returns (r: bool)
    requires HList(h, s)
    ensures r <==> s == []
  {
    r := h.first == null;
  }

  /** *c = n */
  method Store(c: Cell, n: HlistNode?)
    requires c.FirstOf? || c.NextOf?
    modifies if c.FirstOf? then {c.h} else {}, if c.NextOf? then {c.n} else {}
    ensures Target(c) == n
    ensures c.NextOf? ==> c.n.pprev == old(c.n.pprev)
  {
    match c
    case FirstOf(h) => h.first := n;
    case NextOf(m) => m.next := n;
  }

  /** The node is taken out although its head is not given. */
  method DelCore(n: HlistNode, ghost h: HlistHead, ghost s: seq<HlistNode>, ghost k: nat)
    requires HList(h, s) && k < |s| && s[k] == n
    modifies h, s
    ensures HList(h, RemoveAt(s, k))
    ensures n.next == old(n.next) && n.pprev == old(n.pprev)
  {
    var next, pprev := n.next, n.pprev;
    Store(pprev, next);
    if next != null {
      next.pprev := pprev;
    }
    RemovedAt(s, k);
  }

  /** The node is off the list but stays in hashed state: its `pprev` is not NULL. */
  method Del(n: HlistNode, ghost h: HlistHead, ghost s: seq<HlistNode>, ghost k: nat)
    requires HList(h, s) && k < |s| && s[k] == n
    modifies h, s
    ensures HList(h, RemoveAt(s, k))
    ensures n.next == null && n.pprev == Poison
  {
    DelCore(n, h, s, k);
    n.next := null;
    n.pprev := Poison;
  }

  /** Deletes a linked node; a node that is not on a list is left alone. */
  method DelInit(n: HlistNode, ghost h: HlistHead, ghost s: seq<HlistNode>, ghost k: nat)
    requires HList(h, s)
    requires n.pprev == NoCell || (k < |s| && s[k] == n)
    modifies h, s
    ensures old(n.pprev) != NoCell ==> HList(h, RemoveAt(s, k)) && n.next == null
    ensures old(n.pprev) == NoCell ==> HList(h, s) && n.next == old(n.next)
    ensures n.pprev == NoCell
  {
    var u := Unhashed(n, h, s);
    if !u {
      DelCore(n, h, s, k);
      InitNode(n);
    }
  }

  method AddHead(n: HlistNode, h: HlistHead, ghost s: seq<HlistNode>)
    requires HList(h, s) && n !in s
    modifies n, h`first, if h.first == null then {} else {h.first}
    ensures HList(h, [n] + s)
  {
    var first := h.first;
    n.next := first;
    if first != null {
      first.pprev := NextOf(n);
    }
    h.first := n;
    n.pprev := FirstOf(h);
  }

  method AddBefore(n: HlistNode, next: HlistNode, ghost h: HlistHead, ghost s: seq<HlistNode>, ghost k: nat)
    requires HList(h, s) && k < |s| && s[k] == next && n !in s
    modifies n, h, s
    ensures HList(h, InsertAt(s, k, n))
  {
    n.pprev := next.pprev;
    n.next := next;
    next.pprev := NextOf(n);
    Store(n.pprev, n);
    InsertedAt(s, k, n);
  }

  method AddBehind(n: HlistNode, prev: HlistNode, ghost h: HlistHead, ghost s: seq<HlistNode>, ghost k: nat)
    requires HList(h, s) && k < |s| && s[k] == prev && n !in s
    modifies n, prev`next, if prev.next == null then {} else {prev.next}
    ensures HList(h, InsertAt(s, k + 1, n))
  {
    n.next := prev.next;
    prev.next := n;
    n.pprev := NextOf(prev);

    if n.next != null {
      n.next.pprev := NextOf(n);
    }
    InsertedAt(s, k + 1, n);
  }

  /** The answer for a node linked on any list, although h is not read. */
  method IsSingularNode(n: HlistNode, h: HlistHead, ghost g: HlistHead, ghost s: seq<HlistNode>) returns (r: bool)
    requires HList(g, s) && n in s
    ensures r <==> g == h && s == [n]
  {
    r := n.next == null && n.pprev == FirstOf(h);
    ghost var k :| 0 <= k < |s| && s[k] == n;
  }

  method MoveList(old_: HlistHead, new_: HlistHead, ghost s: seq<HlistNode>)
    requires HList(old_, s) && old_ != new_
    modifies old_, new_, if old_.first == null then {} else {old_.first}
    ensures HList(new_, s) && HList(old_, [])
  {
    new_.first := old_.first;
    if new_.first != null {
      new_.first.pprev := FirstOf(new_);
    }
    old_.first := null;
  }
}
