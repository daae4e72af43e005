/** The circular doubly linked list of include/kernel_list.h.

    A ring is described by the ghost sequence of its nodes: the first node is the one the caller
    regards as the list head, the others are the entries in list order.  Every operation is proved
    to have an exact meaning on such sequences, for rings of any length and for every placement of
    its arguments, and its `modifies` clause names the only link fields it may write. */
module KernelList {
  import opened Arithmetic
  import opened Sequences

  class ListHead {
    // null stands for NULL and for the two poison addresses, none of which may be followed
    var next: ListHead?
    var prev: ListHead?

    constructor ()
      ensures Ring([this])
    {
      next := this;
      prev := this;
    }
  }

  /** Inside p, `next` and `prev` are inverse to each other and follow the order of p. */
  ghost predicate Path(p: seq<ListHead>)
    reads p
  {
    && (forall i {:trigger p[i].next} :: 0 <= i < |p| - 1 ==> p[i].next == p[i + 1])
    && (forall i {:trigger p[i].prev} :: 0 < i < |p| ==> p[i].prev == p[i - 1])
  }

  /** The nodes of s, in this order, form a well-formed circular list. */
  ghost predicate Ring(s: seq<ListHead>)
    reads s
  {
    && |s| > 0
    && Distinct(s)
    && Path(s)
    && s[|s| - 1].next == s[0]
    && s[0].prev == s[|s| - 1]
  }

  lemma JoinPaths(p: seq<ListHead>, q: seq<ListHead>)
    requires Path(p) && Path(q)
    requires p != [] && q != [] ==> p[|p| - 1].next == q[0] && q[0].prev == p[|p| - 1]
    ensures Path(p + q)
  {
  }

  /** A head and its entries. */
  lemma HeadAndEntries(head: ListHead, es: seq<ListHead>)
    requires Path(es) && Distinct(es) && head !in es
    requires head.next == (if es == [] then head else es[0])
    requires head.prev == (if es == [] then head else es[|es| - 1])
    requires es != [] ==> es[0].prev == head && es[|es| - 1].next == head
    ensures Ring([head] + es)
  {
    JoinPaths([head], es);
  }

  /** Where a walk around the ring starts does not matter. */
  lemma RingRotate(s: seq<ListHead>, k: nat)
    requires Ring(s) && k <= |s|
    ensures Ring(ShiftBy(s, k))
  {
  }

  /** The links determine the sequence: a head has only one ring, so the ghost sequences below
      are a function of the heap. */
  lemma {:induction false} RingUnique(s: seq<ListHead>, t: seq<ListHead>)
    requires Ring(s) && Ring(t) && s[0] == t[0]
    ensures s == t
  {
    var n := if |s| < |t| then |s| else |t|;
    RingPrefix(s, t, n);
    assert s[n - 1] == s[..n][n - 1] == t[n - 1];
    assert s[n - 1].next == t[n - 1].next;
  }

  lemma {:induction false} RingPrefix(s: seq<ListHead>, t: seq<ListHead>, n: nat)
    requires Ring(s) && Ring(t) && s[0] == t[0]
    requires n <= |s| && n <= |t|
    ensures s[..n] == t[..n]
  {
    if n > 1 {
      RingPrefix(s, t, n - 1);
      assert s[n - 2] == s[..n - 1][n - 2] == t[n - 2];
      assert s[n - 2].next == s[n - 1] && t[n - 2].next == t[n - 1];
    }
  }

  /** x is the predecessor of its successor and the successor of its predecessor. */
  ghost predicate Linked(x: ListHead)
    reads x, x.next, x.prev
  {
    && x.next != null && x.next.prev == x
    && x.prev != null && x.prev.next == x
  }

  lemma RingLinked(s: seq<ListHead>, k: nat)
    requires Ring(s) && k < |s|
    ensures Linked(s[k]) && s[k].next in s && s[k].prev in s
    ensures s[k].next == s[if k + 1 == |s| then 0 else k + 1]
    ensures s[k].prev == s[if k == 0 then |s| - 1 else k - 1]
  {
  }

  // ----- adding, deleting, replacing one node

  method InitListHead(list: ListHead)
    modifies list
    ensures Ring([list])
  {
    list.next := list;
    list.prev := list;
  }

  method AddBetween(n: ListHead, prev: ListHead, next: ListHead, ghost s: seq<ListHead>, ghost k: nat)
    requires Ring(s) && k <= |s| && n !in s
    requires prev == s[if k == 0 then |s| - 1 else k - 1] && next == s[if k == |s| then 0 else k]
    modifies n, prev`next, next`prev
    ensures Ring(InsertAt(s, k, n))
  {
    next.prev := n;
    n.next := next;
    n.prev := prev;
    prev.next := n;
  }

  method Add(n: ListHead, head: ListHead, ghost s: seq<ListHead>, ghost k: nat)
    requires Ring(s) && k < |s| && s[k] == head && n !in s
    modifies n, head`next, head.next`prev
    ensures Ring(InsertAt(s, k + 1, n))
  {
    AddBetween(n, head, head.next, s, k + 1);
  }

  method AddTail(n: ListHead, head: ListHead, ghost s: seq<ListHead>, ghost k: nat)
    requires Ring(s) && k < |s| && s[k] == head && n !in s
    modifies n, head`prev, head.prev`next
    ensures Ring(InsertAt(s, k, n))
    ensures k == 0 ==> Ring(s + [n])
  {
    AddBetween(n, head.prev, head, s, k);
    if k == 0 {
      RingRotate(InsertAt(s, 0, n), 1);
      assert InsertAt(s, 0, n)[1..] + InsertAt(s, 0, n)[..1] == s + [n];
    }
  }

  method DelBetween(prev: ListHead, next: ListHead, ghost s: seq<ListHead>, ghost k: nat)
    requires Ring(s) && k < |s| && s[k].prev == prev && s[k].next == next
    modifies prev`next, next`prev
    ensures |s| > 1 ==> Ring(RemoveAt(s, k)) && s[k].next == next && s[k].prev == prev
    ensures |s| == 1 ==> Ring(s)
  {
    next.prev := prev;
    prev.next := next;
  }

  method Del(entry: ListHead, ghost s: seq<ListHead>, ghost k: nat)
    requires Ring(s) && k < |s| && s[k] == entry
    modifies entry, entry.prev`next, entry.next`prev
    ensures |s| > 1 ==> Ring(RemoveAt(s, k))
    ensures entry.next == null && entry.prev == null
  {
    DelBetween(entry.prev, entry.next, s, k);
    entry.next := null;
    entry.prev := null;
  }

  method DelInit(entry: ListHead, ghost s: seq<ListHead>, ghost k: nat)
    requires Ring(s) && k < |s| && s[k] == entry
    modifies entry, entry.prev`next, entry.next`prev
    ensures |s| > 1 ==> Ring(RemoveAt(s, k))
    ensures Ring([entry])
  {
    DelBetween(entry.prev, entry.next, s, k);
    InitListHead(entry);
  }

  method Replace(old_: ListHead, n: ListHead, ghost s: seq<ListHead>, ghost k: nat)
    requires Ring(s) && k < |s| && s[k] == old_ && n !in s
    modifies n, old_.next`prev, old_.prev`next
    ensures Ring(s[k := n])
  {
    n.next := old_.next;
    n.next.prev := n;
    n.prev := old_.prev;
    n.prev.next := n;
  }

  method ReplaceInit(old_: ListHead, n: ListHead, ghost s: seq<ListHead>, ghost k: nat)
    requires Ring(s) && k < |s| && s[k] == old_ && n !in s
    modifies n, old_, old_.next`prev, old_.prev`next
    ensures Ring(s[k := n]) && Ring([old_])
  {
    Replace(old_, n, s, k);
    InitListHead(old_);
  }

  /** Two nodes on the same ring, or on two separate ones. */
  ghost predicate OtherRing(s: seq<ListHead>, u: seq<ListHead>)
    reads s, u
  {
    Ring(s) && Ring(u) && Disjoint(s, u)
  }

  /** u is the ring that will receive the node: the rest of its own ring, or another ring. */
  method Move(list: ListHead, head: ListHead,
              ghost s: seq<ListHead>, ghost i: nat, ghost u: seq<ListHead>, ghost m: nat)
    requires Ring(s) && i < |s| && s[i] == list
    requires m < |u| && u[m] == head
    requires u == RemoveAt(s, i) || OtherRing(s, u)
    modifies list, list.prev`next, list.next`prev, head`next, head.next`prev
    ensures Ring(InsertAt(u, m + 1, list))
    ensures |s| > 1 && old(OtherRing(s, u)) ==> Ring(RemoveAt(s, i))
  {
    ghost var r := RemoveAt(s, i);
    TakenOut(s, i, u);
    DelBetween(list.prev, list.next, s, i);
    RingLinked(u, m);
    assert head.next == old(head.next) || head.next == old(list.next);
    assert old(OtherRing(s, u)) && |s| > 1 ==> Ring(r) && head !in r && head.next !in r;
    Add(list, head, u, m);
    assert old(OtherRing(s, u)) && |s| > 1 ==> Ring(r);
  }

  method MoveTail(list: ListHead, head: ListHead,
                  ghost s: seq<ListHead>, ghost i: nat, ghost u: seq<ListHead>, ghost m: nat)
    requires Ring(s) && i < |s| && s[i] == list
    requires m < |u| && u[m] == head
    requires u == RemoveAt(s, i) || OtherRing(s, u)
    modifies list, list.prev`next, list.next`prev, head`prev, head.prev`next
    ensures Ring(InsertAt(u, m, list))
    ensures m == 0 ==> Ring(u + [list])
    ensures |s| > 1 && old(OtherRing(s, u)) ==> Ring(RemoveAt(s, i))
  {
    ghost var r := RemoveAt(s, i);
    TakenOut(s, i, u);
    DelBetween(list.prev, list.next, s, i);
    RingLinked(u, m);
    assert head.prev == old(head.prev) || head.prev == old(list.prev);
    assert old(OtherRing(s, u)) && |s| > 1 ==> Ring(r) && head !in r && head.prev !in r;
    AddTail(list, head, u, m);
    assert old(OtherRing(s, u)) && |s| > 1 ==> Ring(r);
  }

  method BulkMoveTail(head: ListHead, first: ListHead, last: ListHead,
                      ghost s: seq<ListHead>, ghost i: nat, ghost j: nat)
    requires Ring(s) && 0 < i < j <= |s|
    requires head == s[0] && first == s[i] && last == s[j - 1]
    modifies first.prev`next, last.next`prev, head.prev`next, first`prev, last`next, head`prev
    ensures Ring(s[..i] + s[j..] + s[i..j])
  {
    first.prev.next := last.next;
    last.next.prev := first.prev;

    head.prev.next := first;
    first.prev := head.prev;

    last.next := head;
    head.prev := last;

    DistinctMoved(s, i, j);
    ghost var a, b, m := s[..i], s[j..], s[i..j];
    assert Path(a);
    assert Path(b);
    assert Path(m);
    JoinPaths(a, b);
    assert (a + b)[|a + b| - 1] == if j == |s| then s[i - 1] else s[|s| - 1];
    JoinPaths(a + b, m);
  }

  // ----- read-only tests

  method IsFirst(list: ListHead, head: ListHead, ghost s: seq<ListHead>)
    returns (r: bool)
    requires Ring(s) && s[0] == head && list in s
    ensures r <==> list == s[if |s| > 1 then 1 else 0]
  {
    r := list.prev == head;
  }

  method IsLast(list: ListHead, head: ListHead, ghost s: seq<ListHead>)
    returns (r: bool)
    requires Ring(s) && s[0] == head && list in s
    ensures r <==> list == s[|s| - 1]
  {
    r := list.next == head;
  }

  method Empty(head: ListHead, ghost s: seq<ListHead>)
    returns (r: bool)
    requires Ring(s) && s[0] == head
    ensures r <==> |s| == 1
  {
    r := head.next == head;
  }

  method EmptyCareful(head: ListHead, ghost s: seq<ListHead>)
    returns (r: bool)
    requires Ring(s) && s[0] == head
    ensures r <==> |s| == 1
  {
    var next := head.next;
    r := next == head && next == head.prev;
  }

  method IsSingular(head: ListHead, ghost s: seq<ListHead>)
    returns (r: bool)
    requires Ring(s) && s[0] == head
    ensures r <==> |s| == 2
  {
    var e := Empty(head, s);
    r := !e && head.next == head.prev;
  }

  // ----- cutting and splicing

  method CutPositionCore(list: ListHead, head: ListHead, entry: ListHead, ghost s: seq<ListHead>, ghost k: nat)
    requires Ring(s) && 0 < k < |s| && list !in s
    requires head == s[0] && entry == s[k]
    modifies list, head`next, head.next`prev, entry`next, entry.next`prev
    ensures Ring([list] + s[1..k + 1]) && Ring([head] + s[k + 1..])
  {
    var newFirst := entry.next;
    list.next := head.next;
    list.next.prev := list;
    list.prev := entry;
    entry.next := list;
    head.next := newFirst;
    newFirst.prev := head;
  }

  /** Cuts behind entry, which may be the head.  On a list of at most one entry the code also bears
      an entry from elsewhere, and then does nothing. */
  method CutPosition(list: ListHead, head: ListHead, entry: ListHead, ghost s: seq<ListHead>, ghost k: nat)
    requires Ring(s) && head == s[0] && list !in s
    requires if entry in s then k < |s| && entry == s[k] else |s| <= 2
    modifies list, head`next, head.next`prev
    modifies (if entry in s then {entry} else {})`next, (if entry in s then {entry.next} else {})`prev
    ensures entry in s && |s| > 1 ==> Ring([list] + s[1..k + 1])
    ensures entry !in s || |s| == 1 ==> Ring(s) && list.next == old(list.next) && list.prev == old(list.prev)
    ensures entry in s ==> Ring([head] + s[k + 1..])
  {
    var e := Empty(head, s);
    if e {
      return;
    }
    var one := IsSingular(head, s);
    if one && head.next != entry && head != entry {
      return;
    }
    if entry == head {
      InitListHead(list);
    } else {
      CutPositionCore(list, head, entry, s, k);
    }
  }

  method CutBefore(list: ListHead, head: ListHead, entry: ListHead, ghost s: seq<ListHead>, ghost k: nat)
    requires Ring(s) && 0 < k <= |s| && list !in s
    requires head == s[0] && entry == s[if k == |s| then 0 else k]
    modifies list, head`next, head.next`prev, entry`prev, entry.prev`next
    ensures Ring([list] + s[1..k]) && Ring([head] + s[k..])
  {
    if head.next == entry {
      InitListHead(list);
      return;
    }
    list.next := head.next;
    list.next.prev := list;
    list.prev := entry.prev;
    list.prev.next := list;
    head.next := entry;
    entry.prev := head;

    HeadAndEntries(list, s[1..k]);
    HeadAndEntries(head, s[k..]);
  }

  method SpliceCore(list: ListHead, prev: ListHead, next: ListHead,
                    ghost l: seq<ListHead>, ghost s: seq<ListHead>, ghost k: nat)
    requires OtherRing(l, s) && list == l[0] && |l| > 1
    requires 0 < k <= |s| && prev == s[k - 1] && next == s[if k == |s| then 0 else k]
    modifies list.next`prev, list.prev`next, prev`next, next`prev
    ensures Ring(s[..k] + l[1..] + s[k..])
    ensures list.next == l[1] && list.prev == l[|l| - 1]
    ensures list !in s[..k] + l[1..] + s[k..]
  {
    var first := list.next;
    var last := list.prev;

    first.prev := prev;
    prev.next := first;

    last.next := next;
    next.prev := last;

    ghost var a, b, m := s[..k], s[k..], l[1..];
    DisjointIndices(s, l);
    DistinctSpliced(s, m, k);
    assert Path(a);
    assert Path(b);
    assert Path(m);
    JoinPaths(a, m);
    JoinPaths(a + m, b);
  }

  method Splice(list: ListHead, head: ListHead, ghost l: seq<ListHead>, ghost s: seq<ListHead>, ghost k: nat)
    requires OtherRing(l, s) && list == l[0] && k < |s| && head == s[k]
    modifies list.next`prev, list.prev`next, head`next, head.next`prev
    ensures Ring(s[..k + 1] + l[1..] + s[k + 1..])
    ensures |l| == 1 ==> Ring(l)
    ensures |l| > 1 ==> list.next == l[1] && list.prev == l[|l| - 1]
  {
    var e := Empty(list, l);
    if !e {
      SpliceCore(list, head, head.next, l, s, k + 1);
    } else {
      assert s[..k + 1] + l[1..] + s[k + 1..] == s;
    }
  }

  method SpliceTail(list: ListHead, head: ListHead, ghost l: seq<ListHead>, ghost s: seq<ListHead>)
    requires OtherRing(l, s) && list == l[0] && head == s[0]
    modifies list.next`prev, list.prev`next, head`prev, head.prev`next
    ensures Ring(s + l[1..])
    ensures |l| == 1 ==> Ring(l)
    ensures |l| > 1 ==> list.next == l[1] && list.prev == l[|l| - 1]
  {
    var e := Empty(list, l);
    if !e {
      SpliceCore(list, head.prev, head, l, s, |s|);
      assert s[..|s|] + l[1..] + s[|s|..] == s + l[1..];
    } else {
      assert s + l[1..] == s;
    }
  }

  method SpliceInit(list: ListHead, head: ListHead, ghost l: seq<ListHead>, ghost s: seq<ListHead>, ghost k: nat)
    requires OtherRing(l, s) && list == l[0] && k < |s| && head == s[k]
    modifies list, list.next`prev, list.prev`next, head`next, head.next`prev
    ensures Ring(s[..k + 1] + l[1..] + s[k + 1..])
    ensures Ring([list])
  {
    var e := Empty(list, l);
    if !e {
      SpliceCore(list, head, head.next, l, s, k + 1);
      ghost var r := s[..k + 1] + l[1..] + s[k + 1..];
      assert Ring(r) && list !in r;
      InitListHead(list);
      assert Ring(r);
    } else {
      assert s[..k + 1] + l[1..] + s[k + 1..] == s;
      assert l == [list];
    }
  }

  method SpliceTailInit(list: ListHead, head: ListHead, ghost l: seq<ListHead>, ghost s: seq<ListHead>)
    requires OtherRing(l, s) && list == l[0] && head == s[0]
    modifies list, list.next`prev, list.prev`next, head`prev, head.prev`next
    ensures Ring(s + l[1..])
    ensures Ring([list])
  {
    var e := Empty(list, l);
    if !e {
      SpliceCore(list, head.prev, head, l, s, |s|);
      assert s[..|s|] + l[1..] + s[|s|..] == s + l[1..];
      InitListHead(list);
    } else {
      assert s + l[1..] == s;
      assert l == [list];
    }
  }

  lemma CutPieces<T>(list: T, s: seq<T>, k: nat) returns (l: seq<T>, r: seq<T>)
    requires Distinct(s) && 0 < k <= |s| && list !in s
    ensures l == [list] + s[1..k] && r == [s[0]] + s[k..]
    ensures Disjoint(l, r) && r[..1] + l[1..] + r[1..] == s
  {
    l, r := [list] + s[1..k], [s[0]] + s[k..];
  }

  /** Cutting a non-empty list at any entry, the head included, and splicing the piece back gives
      the original ring and leaves the cut list empty. */
  method CutThenSplice(list: ListHead, head: ListHead, entry: ListHead, ghost s: seq<ListHead>, ghost k: nat)
    requires Ring(s) && k < |s| && list !in s && head == s[0] && entry == s[k]
    requires |s| > 1 || Ring([list])
    modifies list, s
    ensures Ring(s) && Ring([list])
  {
    CutPosition(list, head, entry, s, k);
    ghost var l, r := CutPieces(list, s, k + 1);
    SpliceInit(list, head, l, r, 0);
  }

  method CutBeforeThenSplice(list: ListHead, head: ListHead, entry: ListHead, ghost s: seq<ListHead>, ghost k: nat)
    requires Ring(s) && 0 < k <= |s| && list !in s && head == s[0] && entry == s[if k == |s| then 0 else k]
    modifies list, s
    ensures Ring(s) && Ring([list])
  {
    CutBefore(list, head, entry, s, k);
    ghost var l, r := CutPieces(list, s, k);
    SpliceInit(list, head, l, r, 0);
  }

  // ----- swapping

  ghost function Swapped(z: ListHead?, x: ListHead, y: ListHead): (r: ListHead?)
    ensures z != null ==> r != null
  {
    if z == x then y else if z == y then x else z
  }

  /** The code of list_swap, with the calls to list_del, list_replace and list_add written out.
      Every link that led to or from one of the two entries now leads to or from the other, unless
      the second one was alone on its ring: then it is put in front of the first one. */
  method SwapLinks(entry1: ListHead, entry2: ListHead)
    requires Linked(entry1) && Linked(entry2) && entry1 != entry2
    modifies entry1, entry2, entry1.next`prev, entry1.prev`next, entry2.next`prev, entry2.prev`next
    ensures old(entry2.next) != entry2 ==>
      forall z: ListHead {:trigger old(Linked(z))} :: old(allocated(z)) && old(Linked(z)) ==>
        && Swapped(z, entry1, entry2).next == Swapped(old(z.next), entry1, entry2)
        && Swapped(z, entry1, entry2).prev == Swapped(old(z.prev), entry1, entry2)
    ensures old(entry2.next) == entry2 ==> entry2.next == entry1 && entry1.prev == entry2
    ensures old(entry2.next) == entry2 && old(entry1.next) != entry1 ==>
      && entry2.prev == old(entry1.prev) && old(entry1.prev).next == entry2
      && entry1.next == old(entry1.next) && old(entry1.next).prev == entry1
    ensures old(entry2.next) == entry2 && old(entry1.next) == entry1 ==> entry2.prev == entry1 && entry1.next == entry2
  {
    var pos := entry2.prev;

    entry2.next.prev := entry2.prev;
    entry2.prev.next := entry2.next;
    entry2.next := null;
    entry2.prev := null;

    entry2.next := entry1.next;
    entry2.next.prev := entry2;
    entry2.prev := entry1.prev;
    entry2.prev.next := entry2;

    if pos == entry1 {
      pos := entry2;
    }

    var next := pos.next;
    next.prev := entry1;
    entry1.next := next;
    entry1.prev := pos;
    pos.next := entry1;
  }

  /** If the links of the nodes of s are those of a ring with x and y exchanged, they form it. */
  lemma Conjugated(s: seq<ListHead>, x: ListHead, y: ListHead)
    requires s != [] && Distinct(s)
    requires forall i :: 0 <= i < |s| ==> ConjugatedAt(s, i, x, y)
    ensures Ring(Transpose(s, x, y))
  {
    var t := Transpose(s, x, y);
    assert forall i {:trigger t[i]} :: 0 <= i < |s| ==> t[i] == Swapped(s[i], x, y) && ConjugatedAt(s, i, x, y);
  }

  ghost predicate LinkedAt(s: seq<ListHead>, k: nat)
    requires k < |s|
    reads s
  {
    var n, p := s[if k + 1 == |s| then 0 else k + 1], s[if k == 0 then |s| - 1 else k - 1];
    s[k].next == n && n.prev == s[k] && s[k].prev == p && p.next == s[k]
  }

  ghost predicate ConjugatedAt(s: seq<ListHead>, i: nat, x: ListHead, y: ListHead)
    requires i < |s|
    reads s, x, y
  {
    var z := Swapped(s[i], x, y);
    && z.next == Swapped(s[if i + 1 == |s| then 0 else i + 1], x, y)
    && z.prev == Swapped(s[if i == 0 then |s| - 1 else i - 1], x, y)
  }

  /** The links of s[k] when x stands between s[i] and the node before it. */
  ghost predicate BesideAt(s: seq<ListHead>, i: nat, x: ListHead, k: nat)
    requires i < |s| && k < |s|
    reads s, x
  {
    var next, prev := if k + 1 == |s| then 0 else k + 1, if k == 0 then |s| - 1 else k - 1;
    && s[k].next == (if next == i then x else s[next])
    && s[k].prev == (if k == i then x else s[prev])
    && (k == i ==> x.next == s[i] && x.prev == s[prev])
  }

  lemma InFront(s: seq<ListHead>, i: nat, x: ListHead)
    requires i < |s| && Distinct(s) && x !in s
    requires forall k :: 0 <= k < |s| ==> BesideAt(s, i, x, k)
    ensures Ring(InsertAt(s, i, x))
  {
    var u := InsertAt(s, i, x);
    assert BesideAt(s, i, x, i) && BesideAt(s, i, x, 0) && BesideAt(s, i, x, |s| - 1);
    forall k | 0 <= k < |u|
      ensures u[k].next == u[if k + 1 == |u| then 0 else k + 1]
      ensures u[k].prev == u[if k == 0 then |u| - 1 else k - 1]
    {
      if k != i {
        assert BesideAt(s, i, x, if k < i then k else k - 1);
      }
    }
  }

  /** Two distinct entries are exchanged wherever they are: adjacent in either order, apart, or on
      two different rings; all other entries keep their positions.  Only when the second one is
      alone on its ring is it not an exchange: both then stand next to each other on the first. */
  method Swap(entry1: ListHead, entry2: ListHead,
              ghost s: seq<ListHead>, ghost i: nat, ghost t: seq<ListHead>, ghost j: nat)
    requires Ring(s) && i < |s| && s[i] == entry1
    requires Ring(t) && j < |t| && t[j] == entry2
    requires s == t || Disjoint(s, t)
    requires entry1 != entry2
    modifies entry1, entry2, entry1.next`prev, entry1.prev`next, entry2.next`prev, entry2.prev`next
    ensures |t| > 1 ==> Ring(Transpose(s, entry1, entry2)) && Ring(Transpose(t, entry1, entry2))
    ensures |t| == 1 ==> Ring(InsertAt(s, i, entry2))
  {
    ghost var rings := [s, t];
    forall q, k | 0 <= q < 2 && 0 <= k < |rings[q]|
      ensures LinkedAt(rings[q], k)
    {
      RingLinked(rings[q], k);
    }
    assert LinkedAt(rings[0], i) && LinkedAt(rings[1], j);
    SwapLinks(entry1, entry2);
    if |t| > 1 {
      forall q, k | 0 <= q < 2 && 0 <= k < |rings[q]|
        ensures ConjugatedAt(rings[q], k, entry1, entry2)
      {
        assert old(LinkedAt(rings[q], k));
        assert old(Linked(rings[q][k]));
      }
      assert forall k :: 0 <= k < |s| ==> ConjugatedAt(rings[0], k, entry1, entry2);
      assert forall k :: 0 <= k < |t| ==> ConjugatedAt(rings[1], k, entry1, entry2);
      Conjugated(s, entry1, entry2);
      Conjugated(t, entry1, entry2);
    } else {
      assert entry2 in t;
      forall k | 0 <= k < |s|
        ensures BesideAt(s, i, entry2, k)
      {
        assert old(LinkedAt(rings[0], k));
      }
      InFront(s, i, entry2);
    }
  }

  // ----- rotating

  function RotateOnce<T>(es: seq<T>): seq<T> {
    if es == [] then es else es[1..] + [es[0]]
  }

  function RotateTimes<T>(es: seq<T>, k: nat): seq<T>
    decreases k
  {
    if k == 0 then es else RotateOnce(RotateTimes(es, k - 1))
  }

  /** k left rotations of an n-entry list shift it by k mod n. */
  lemma {:induction false} RotateTimesShifts<T>(es: seq<T>, k: nat)
    requires es != []
    ensures RotateTimes(es, k) == ShiftBy(es, k % |es|)
    decreases k
  {
    if k > 0 {
      RotateTimesShifts(es, k - 1);
      NextRemainder(k - 1, |es|);
      RotateShifted(es, (k - 1) % |es|);
    }
  }

  lemma RotateShifted<T>(es: seq<T>, m: nat)
    requires m < |es|
    ensures RotateOnce(ShiftBy(es, m)) == ShiftBy(es, if m + 1 == |es| then 0 else m + 1)
  {
    assert ShiftBy(es, m)[0] == es[m];
    assert RotateOnce(ShiftBy(es, m)) == ShiftBy(es, m + 1);
  }

  method RotateLeft(head: ListHead, ghost s: seq<ListHead>)
    requires Ring(s) && s[0] == head
    modifies s
    ensures Ring([head] + RotateOnce(s[1..]))
  {
    var e := Empty(head, s);
    if !e {
      var first := head.next;
      assert RemoveAt(s, 1) + [first] == [head] + RotateOnce(s[1..]);
      MoveTail(first, head, s, 1, RemoveAt(s, 1), 0);
    } else {
      assert s == [head] + RotateOnce(s[1..]);
    }
  }

  method RotateToFront(list: ListHead, head: ListHead, ghost s: seq<ListHead>, ghost k: nat)
    requires Ring(s) && 0 < k < |s| && head == s[0] && list == s[k]
    modifies s
    ensures Ring([head] + ShiftBy(s[1..], k - 1))
  {
    RingLinked(s, 0);
    RingLinked(s, k);
    MoveTail(head, list, s, 0, RemoveAt(s, 0), k - 1);
    HeadMoved(s, k);
    RingRotate(InsertAt(RemoveAt(s, 0), k - 1, head), k - 1);
  }

  lemma HeadMoved<T>(s: seq<T>, k: nat)
    requires 0 < k < |s|
    ensures ShiftBy(InsertAt(RemoveAt(s, 0), k - 1, s[0]), k - 1) == [s[0]] + ShiftBy(s[1..], k - 1)
  {
  }

  /** Bringing an entry to the front is k - 1 left rotations of the entries. */
  lemma {:induction false} RotateToFrontIsRotation<T>(es: seq<T>, k: nat)
    requires k < |es|
    ensures ShiftBy(es, k) == RotateTimes(es, k) && ShiftBy(es, k)[0] == es[k]
  {
    Remainder(0, |es|, k);
    RotateTimesShifts(es, k);
  }

  // ----- safe iteration

  /** The entries of es, among the first n, for which the loop body chooses to keep. */
  function Kept<T>(es: seq<T>, deletes: nat -> bool, n: nat): seq<T>
    requires n <= |es|
  {
    if n == 0 then []
    else Kept(es, deletes, n - 1) + if deletes(n - 1) then [] else [es[n - 1]]
  }

  /** An entry is kept exactly when the body does not delete it. */
  lemma {:induction false} KeptIff<T>(es: seq<T>, deletes: nat -> bool, n: nat)
    requires n <= |es| && Distinct(es)
    ensures forall x :: x in Kept(es, deletes, n) ==> x in es[..n]
    ensures forall i :: 0 <= i < n ==> (es[i] in Kept(es, deletes, n) <==> !deletes(i))
  {
    if n > 0 {
      KeptIff(es, deletes, n - 1);
      TakeNext(es, n - 1);
      assert es[n - 1] !in es[..n - 1];
    }
  }

  /** The entries that are kept stay in order. */
  lemma {:induction false} KeptInOrder<T>(es: seq<T>, deletes: nat -> bool, n: nat) returns (at: seq<nat>)
    requires n <= |es|
    ensures |at| == |Kept(es, deletes, n)|
    ensures forall a :: 0 <= a < |at| ==> at[a] < n && Kept(es, deletes, n)[a] == es[at[a]]
    ensures forall a, b :: 0 <= a < b < |at| ==> at[a] < at[b]
  {
    if n == 0 {
      at := [];
    } else {
      at := KeptInOrder(es, deletes, n - 1);
      if !deletes(n - 1) {
        at := at + [n - 1];
      }
    }
  }

  /** Where the cursor stands after n steps: behind the entries kept so far, or back at the head. */
  function Cursor<T>(es: seq<T>, deletes: nat -> bool, n: nat): nat
    requires n <= |es|
  {
    if n < |es| then 1 + |Kept(es, deletes, n)| else 0
  }

  /** The ring after n steps: the entries kept so far, then the ones not visited yet. */
  ghost predicate Remaining<T>(r: seq<T>, head: T, es: seq<T>, deletes: nat -> bool, n: nat)
    requires n <= |es|
  {
    r == [head] + Kept(es, deletes, n) + es[n..]
  }

  lemma RemainingStep<T>(r: seq<T>, head: T, es: seq<T>, deletes: nat -> bool, n: nat) returns (r': seq<T>)
    requires n < |es| && Remaining(r, head, es, deletes, n)
    ensures Remaining(r', head, es, deletes, n + 1)
    ensures var k, k' := Cursor(es, deletes, n), Cursor(es, deletes, n + 1);
            && k < |r| && r[k] == es[n]
            && k' < |r'| && r'[k'] == r[if k + 1 == |r| then 0 else k + 1]
            && r' == if deletes(n) then RemoveAt(r, k) else r
    ensures forall x :: x in r' ==> x in r
  {
    r' := if deletes(n) then RemoveAt(r, Cursor(es, deletes, n)) else r;
  }

  /** Before turn i of the loop: the cursors stand at index k of the ring r. */
  ghost predicate AtTurn(head: ListHead, es: seq<ListHead>, deletes: nat -> bool, i: nat,
                         r: seq<ListHead>, k: nat, pos: ListHead, n: ListHead?)
    reads r
  {
    && i <= |es| && Remaining(r, head, es, deletes, i) && k == Cursor(es, deletes, i)
    && Ring(r) && k < |r| && r[k] == pos && n == pos.next && r[0] == head
  }

  /** One turn of the loop: a body that may delete the entry at hand, then the advance to n. */
  method SafeTurn(ghost head: ListHead, ghost es: seq<ListHead>, deletes: nat -> bool, i: nat,
                  ghost r: seq<ListHead>, ghost k: nat, pos: ListHead, n: ListHead)
    returns (ghost r': seq<ListHead>, ghost k': nat, pos': ListHead, n': ListHead)
    requires AtTurn(head, es, deletes, i, r, k, pos, n) && i < |es|
    modifies pos, pos.prev`next, pos.next`prev
    ensures pos == es[i] && forall x :: x in r' ==> x in r
    ensures AtTurn(head, es, deletes, i + 1, r', k', pos', n')
  {
    r' := RemainingStep(r, head, es, deletes, i);
    k' := Cursor(es, deletes, i + 1);
    RingLinked(r, k);
    if deletes(i) {
      Del(pos, r, k);
    }
    RingLinked(r', k');
    pos' := n;
    n' := pos'.next;
  }

  /** pos = (head)->next, n = pos->next */
  method SafeStart(head: ListHead, ghost es: seq<ListHead>, ghost deletes: nat -> bool, ghost s: seq<ListHead>)
    returns (ghost k: nat, pos: ListHead, n: ListHead)
    requires Ring(s) && s[0] == head && es == s[1..]
    ensures AtTurn(head, es, deletes, 0, s, k, pos, n)
  {
    k := if |s| > 1 then 1 else 0;
    RingLinked(s, 0);
    RingLinked(s, k);
    pos := head.next;
    n := pos.next;
  }

  /** list_for_each_safe: for any choice of entries deleted by the body, every original entry is
      visited once, in order, and exactly the others are left. */
  method ForEachSafe(head: ListHead, deletes: nat -> bool, ghost s: seq<ListHead>) returns (visited: seq<ListHead>)
    requires Ring(s) && s[0] == head
    modifies s
    ensures visited == s[1..]
    ensures Ring([head] + Kept(s[1..], deletes, |s| - 1))
    ensures forall i :: 0 <= i < |visited| ==> (visited[i] in Kept(s[1..], deletes, |s| - 1) <==> !deletes(i))
  {
    ghost var es, r, k := s[1..], s, 0;
    var i, pos, n := 0, head, head;
    k, pos, n := SafeStart(head, es, deletes, s);
    visited := [];
    while pos != head
      invariant AtTurn(head, es, deletes, i, r, k, pos, n)
      invariant visited == es[..i]
      invariant forall x :: x in r ==> x in s
      decreases |es| - i
    {
      visited := visited + [pos];
      TakeNext(es, i);
      RingLinked(r, k);
      r, k, pos, n := SafeTurn(head, es, deletes, i, r, k, pos, n);
      i := i + 1;
    }
    assert i == |es|;
    assert r == [head] + Kept(es, deletes, |es|);
    KeptIff(es, deletes, |es|);
  }
}
