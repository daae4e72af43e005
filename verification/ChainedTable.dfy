/** The chained hash table of src/c_STL.c lines 44-199 as heap nodes linked in place. */
module ChainedTable {
  import opened HashFunctions
  import opened HashChains
  import opened Sequences

  class HashNode {
    const key: Key
    var value: int
    var nextNode: HashNode?

    constructor (key: Key, value: int)
      ensures this.key == key && this.value == value && nextNode == null
    {
      this.key := key;
      this.value := value;
      nextNode := null;
    }
  }

  /** The nodes of c, in this order, are linked from head to NULL; none occurs twice. */
  ghost predicate Linked(head: HashNode?, c: seq<HashNode>)
    reads c
  {
    && head == (if c == [] then null else c[0])
    && (forall i {:trigger c[i].nextNode} :: 0 <= i < |c| ==> c[i].nextNode == if i + 1 < |c| then c[i + 1] else null)
    && Distinct(c)
  }

  /** The keys and values along a chain. */
  ghost function Contents(c: seq<HashNode>): (r: Chain)
    reads c
    ensures |r| == |c| && forall i :: 0 <= i < |c| ==> r[i] == (c[i].key, c[i].value)
  {
    if c == [] then [] else [(c[0].key, c[0].value)] + Contents(c[1..])
  }

  ghost predicate InBucket(c: seq<HashNode>, b: nat) {
    forall i :: 0 <= i < |c| ==> Bucket(c[i].key) == b
  }

  /** The head already has the key: its value is overwritten. */
  method Overwrite(p: HashNode, value: int, ghost c: seq<HashNode>)
    requires Linked(p, c)
    modifies p`value
    ensures Linked(p, c) && Contents(c) == InsertInto(old(Contents(c)), p.key, value)
  {
    p.value := value;
  }

  /** The head has another key: the new node goes to the second place. */
  method LinkSecond(p: HashNode, newNode: HashNode, ghost c: seq<HashNode>)
    requires Linked(p, c) && newNode !in c && p.key != newNode.key
    modifies p`nextNode, newNode`nextNode
    ensures Linked(p, [p, newNode] + c[1..])
    ensures Contents([p, newNode] + c[1..]) == InsertInto(old(Contents(c)), newNode.key, newNode.value)
  {
    newNode.nextNode := p.nextNode;
    p.nextNode := newNode;
  }

  /** Contents of a chain with a node taken out. */
  lemma {:induction false} ContentsRemoved(c: seq<HashNode>, i: nat, key: Key)
    requires i < |c| && c[i].key == key && forall j :: 0 <= j < i ==> c[j].key != key
    ensures Contents(RemoveAt(c, i)) == DropFrom(Contents(c), key)
  {
    if i == 0 {
      assert RemoveAt(c, 0) == c[1..];
    } else {
      ContentsRemoved(c[1..], i - 1, key);
      RemoveLater(c, i);
    }
  }

  lemma {:induction false} StackOf(c: seq<HashNode>, key: Key)
    ensures Stack(Contents(c), key) == [] <==> forall i :: 0 <= i < |c| ==> c[i].key != key
  {
    if c != [] {
      StackOf(c[1..], key);
      assert (forall i :: 0 <= i < |c[1..]| ==> c[1..][i].key != key)
        <==> forall i :: 1 <= i < |c| ==> c[i].key != key by {
        assert forall i :: 1 <= i < |c| ==> c[i] == c[1..][i - 1];
      }
    }
  }

  /** Node i, behind node i - 1, is taken out of its chain. */
  method Unlink(last: HashNode, q: HashNode, ghost c: seq<HashNode>, ghost i: nat)
    requires 0 < i < |c| && Linked(c[0], c) && c[i - 1] == last && c[i] == q
    modifies last`nextNode
    ensures Linked(c[0], RemoveAt(c, i))
    ensures Contents(RemoveAt(c, i)) == old(Contents(RemoveAt(c, i)))
  {
    last.nextNode := q.nextNode;
  }

  // ----- the buckets beside the one an operation works on

  ghost function NodesOf(cs: seq<seq<HashNode>>): set<object> {
    set b, i | 0 <= b < |cs| && 0 <= i < |cs[b]| :: cs[b][i] as object
  }

  ghost function OtherNodes(cs: seq<seq<HashNode>>, pos: nat): set<object> {
    set b, i | 0 <= b < |cs| && b != pos && 0 <= i < |cs[b]| :: cs[b][i] as object
  }

  ghost predicate BucketIs(head: HashNode?, c: seq<HashNode>, b: nat, v: Chain)
    reads c
  {
    Linked(head, c) && InBucket(c, b) && Contents(c) == v
  }

  /** All buckets but pos are well-formed and have the contents t. */
  ghost predicate OthersAre(hs: seq<HashNode?>, cs: seq<seq<HashNode>>, pos: nat, t: Table)
    reads OtherNodes(cs, pos)
  {
    && |hs| == |cs| == MAX_TABLE_SIZE
    && forall b :: 0 <= b < MAX_TABLE_SIZE && b != pos ==> BucketIs(hs[b], cs[b], b, t[b])
  }

  lemma OthersMoved(hs: seq<HashNode?>, cs: seq<seq<HashNode>>, pos: nat, t: Table, head: HashNode?, d: seq<HashNode>)
    requires pos < MAX_TABLE_SIZE && OthersAre(hs, cs, pos, t)
    ensures OthersAre(hs[pos := head], cs[pos := d], pos, t)
  {
  }

  lemma NodesReplaced(cs: seq<seq<HashNode>>, pos: nat, d: seq<HashNode>, more: set<object>)
    requires pos < |cs| && forall x :: x in d ==> x in cs[pos] || x in more
    ensures NodesOf(cs[pos := d]) <= NodesOf(cs) + more
  {
    forall o | o in NodesOf(cs[pos := d])
      ensures o in NodesOf(cs) + more
    {
      var b, i :| 0 <= b < |cs| && 0 <= i < |cs[pos := d][b]| && cs[pos := d][b][i] == o;
      if b == pos {
        assert d[i] in d;
      }
    }
  }

  class HashTable {
    const hashNode: array<HashNode?>
    var currentIndex: int
    ghost var chains: seq<seq<HashNode>>

    ghost function Nodes(): set<object>
      reads this
    {
      NodesOf(chains)
    }

    /** Every chain is acyclic and holds only keys that hash to it. */
    ghost predicate Valid()
      reads this, hashNode, Nodes()
    {
      && hashNode.Length == MAX_TABLE_SIZE == |chains|
      && (forall b :: 0 <= b < MAX_TABLE_SIZE ==> Linked(hashNode[b], chains[b]) && InBucket(chains[b], b))
    }

    /** The chains are disjoint, because a node's key tells its bucket. */
    lemma ChainsDisjoint(b: nat, i: nat, c: nat, j: nat)
      requires Valid() && b < MAX_TABLE_SIZE && c < MAX_TABLE_SIZE && i < |chains[b]| && j < |chains[c]|
      ensures chains[b][i] == chains[c][j] <==> b == c && i == j
    {
      assert Linked(hashNode[b], chains[b]) && InBucket(chains[b], b) && InBucket(chains[c], c);
    }

    ghost function View(): (t: Table)
      reads this, hashNode, Nodes()
      requires Valid()
    {
      seq(MAX_TABLE_SIZE, b requires 0 <= b < MAX_TABLE_SIZE reads this, hashNode, Nodes() requires Valid() =>
            Contents(chains[b]))
    }

    /** Taking the table apart at one bucket; x is a node that is not in another one. */
    lemma Opened(pos: nat, x: HashNode?)
      requires Valid() && pos < MAX_TABLE_SIZE
      requires x != null ==> Bucket(x.key) == pos
      ensures OthersAre(hashNode[..], chains, pos, View())
      ensures BucketIs(hashNode[pos], chains[pos], pos, View()[pos])
      ensures x !in OtherNodes(chains, pos)
    {
      assert Linked(hashNode[pos], chains[pos]) && InBucket(chains[pos], pos);
      forall b | 0 <= b < MAX_TABLE_SIZE && b != pos
        ensures BucketIs(hashNode[..][b], chains[b], b, View()[b]) && x !in chains[b]
      {
        assert Linked(hashNode[b], chains[b]) && InBucket(chains[b], b);
      }
    }

    /** Putting it together again. */
    lemma Closed(pos: nat, t: Table, v: Chain)
      requires pos < MAX_TABLE_SIZE && hashNode.Length == MAX_TABLE_SIZE == |chains|
      requires OthersAre(hashNode[..], chains, pos, t) && BucketIs(hashNode[pos], chains[pos], pos, v)
      ensures Valid() && View() == t[pos := v]
    {
      forall b | 0 <= b < MAX_TABLE_SIZE
        ensures BucketIs(hashNode[b], chains[b], b, t[pos := v][b])
      {
        assert b != pos ==> BucketIs(hashNode[..][b], chains[b], b, t[b]);
      }
    }

    /** The bucket at pos now holds the chain d. */
    ghost method Rechain(pos: nat, t: Table, v: Chain, d: seq<HashNode>)
      requires pos < MAX_TABLE_SIZE && hashNode.Length == MAX_TABLE_SIZE == |chains|
      requires OthersAre(hashNode[..], chains, pos, t) && BucketIs(hashNode[pos], d, pos, v)
      modifies this`chains
      ensures chains == old(chains)[pos := d] && Valid() && View() == t[pos := v]
    {
      OthersMoved(hashNode[..], chains, pos, t, hashNode[pos], d);
      assert hashNode[..] == hashNode[..][pos := hashNode[pos]];
      chains := chains[pos := d];
      Closed(pos, t, v);
    }

    /** InitHashTable */
    constructor ()
      ensures Valid() && fresh(hashNode) && Nodes() == {}
      ensures View() == Empty() && currentIndex == 0
    {
      hashNode := new HashNode?[MAX_TABLE_SIZE](_ => null);
      currentIndex := 0;
      chains := seq(MAX_TABLE_SIZE, _ => []);
    }

    method Get(key: Key) returns (r: HashNode?)
      requires Valid()
      ensures (if r == null then None else Some(r.value)) == HashChains.Get(View(), key)
      ensures r != null ==> r in Nodes() && r.key == key
    {
      var h := HashFun(key);
      var pos := h % MAX_TABLE_SIZE;
      ghost var c, i := chains[pos], 0;
      r := hashNode[pos];
      assert c[0..] == c;
      while r != null
        invariant i <= |c| && r == (if i < |c| then c[i] else null)
        invariant Lookup(Contents(c), key) == Lookup(Contents(c[i..]), key)
        decreases |c| - i
      {
        assert c[i..][1..] == c[i + 1..];
        if r.key == key {
          return;
        }
        r, i := r.nextNode, i + 1;
      }
    }

    /** The new node becomes the only one of an empty bucket. */
    method InsertFirst(pos: nat, newNode: HashNode)
      requires Valid() && pos < MAX_TABLE_SIZE && hashNode[pos] == null
      requires Bucket(newNode.key) == pos && newNode.nextNode == null && newNode !in Nodes()
      modifies this, hashNode
      ensures Valid() && Nodes() <= old(Nodes()) + {newNode}
      ensures View() == old(View())[pos := InsertInto(old(View())[pos], newNode.key, newNode.value)]
      ensures old(View())[pos] == [] && currentIndex == old(currentIndex) + 1
      ensures chains == old(chains)[pos := [newNode]]
    {
      ghost var hs, cs, t, d := hashNode[..], chains, View(), [newNode];
      Opened(pos, newNode);
      NodesReplaced(cs, pos, d, {newNode});
      hashNode[pos] := newNode;
      currentIndex := currentIndex + 1;
      OthersMoved(hs, cs, pos, t, newNode, cs[pos]);
      assert hashNode[..] == hs[pos := newNode] && cs == cs[pos := cs[pos]];
      Rechain(pos, t, [(newNode.key, newNode.value)], d);
    }

    /** The head of the bucket has the key: only the value is used, the new node is lost. */
    method InsertOver(pos: nat, newNode: HashNode, p: HashNode)
      requires Valid() && pos < MAX_TABLE_SIZE && hashNode[pos] == p
      requires Bucket(newNode.key) == pos && p.key == newNode.key
      modifies p
      ensures p.value == newNode.value
      ensures Valid() && View() == old(View())[pos := InsertInto(old(View())[pos], newNode.key, newNode.value)]
      ensures old(View())[pos] != []
    {
      ghost var hs, cs, t, c := hashNode[..], chains, View(), chains[pos];
      ghost var v := InsertInto(t[pos], newNode.key, newNode.value);
      Opened(pos, p);
      Overwrite(p, newNode.value, c);
      assert OthersAre(hs, cs, pos, t) && BucketIs(p, c, pos, v);
      Closed(pos, t, v);
    }

    /** The new node goes behind the head of the bucket. */
    method InsertNext(pos: nat, newNode: HashNode, p: HashNode)
      requires Valid() && pos < MAX_TABLE_SIZE && hashNode[pos] == p
      requires Bucket(newNode.key) == pos && newNode !in Nodes() && p.key != newNode.key
      modifies this`chains, p`nextNode, newNode`nextNode
      ensures Valid() && Nodes() <= old(Nodes()) + {newNode}
      ensures View() == old(View())[pos := InsertInto(old(View())[pos], newNode.key, newNode.value)]
      ensures old(View())[pos] != []
      ensures chains == old(chains)[pos := [p, newNode] + old(chains[pos])[1..]]
    {
      ghost var hs, cs, t, c := hashNode[..], chains, View(), chains[pos];
      ghost var v := InsertInto(t[pos], newNode.key, newNode.value);
      Opened(pos, newNode);
      assert p == c[0] && InBucket(c, pos);
      Opened(pos, p);
      LinkSecond(p, newNode, c);
      ghost var d := [p, newNode] + c[1..];
      assert InBucket(d, pos);
      assert OthersAre(hs, cs, pos, t) && BucketIs(p, d, pos, v);
      NodesReplaced(cs, pos, d, {newNode});
      Rechain(pos, t, v, d);
    }

    /** The three cases. */
    method Place(pos: nat, newNode: HashNode)
      requires Valid() && pos < MAX_TABLE_SIZE
      requires Bucket(newNode.key) == pos && newNode.nextNode == null && newNode !in Nodes()
      modifies this, hashNode, Nodes(), newNode`nextNode
      ensures Valid() && Nodes() <= old(Nodes()) + {newNode}
      ensures View() == old(View())[pos := InsertInto(old(View())[pos], newNode.key, newNode.value)]
      ensures currentIndex == old(currentIndex) + if old(View())[pos] == [] then 1 else 0
      ensures var c := old(chains[pos]);
              && chains == old(chains)[pos := if c == [] then [newNode]
                                              else if c[0].key == newNode.key then c
                                              else [c[0], newNode] + c[1..]]
              && (c != [] && c[0].key == newNode.key ==> c[0].value == newNode.value)
    {
      var p := hashNode[pos];
      Opened(pos, null);
      if p == null {
        InsertFirst(pos, newNode);
      } else {
        assert p == chains[pos][0] && p in Nodes();
        if p.key == newNode.key {
          InsertOver(pos, newNode, p);
        } else {
          InsertNext(pos, newNode, p);
        }
      }
    }

    method Insert(key: Key, value: int)
      requires Valid()
      modifies this, hashNode, Nodes()
      ensures Valid() && fresh(Nodes() - old(Nodes()))
      ensures View() == old(Apply(View(), Put(key, value)))
      ensures currentIndex == old(currentIndex) + if old(View())[Bucket(key)] == [] then 1 else 0
      ensures var b := Bucket(key); var c, d := old(chains[b]), chains[b];
              && chains == old(chains)[b := d]
              && if c == [] then |d| == 1 && d[0].key == key && d[0].value == value
                 else if c[0].key == key then d == c && d[0].value == value
                 else |d| == |c| + 1 && d[0] == c[0] && d[2..] == c[1..] && d[1].key == key && d[1].value == value
    {
      var h := HashFun(key);
      var pos := h % MAX_TABLE_SIZE;
      var newNode := new HashNode(key, value);
      Place(pos, newNode);
    }

    /** The head of the bucket goes. */
    method DropHead(pos: nat, p: HashNode)
      requires Valid() && pos < MAX_TABLE_SIZE && hashNode[pos] == p
      modifies this`chains, hashNode
      ensures Valid() && Nodes() <= old(Nodes())
      ensures View() == old(View())[pos := DropFrom(old(View())[pos], p.key)]
      ensures old(chains[pos]) != [] && chains == old(chains)[pos := old(chains[pos])[1..]]
    {
      ghost var hs, cs, t, c := hashNode[..], chains, View(), chains[pos];
      Opened(pos, null);
      ghost var d, v := c[1..], DropFrom(t[pos], p.key);
      NodesReplaced(cs, pos, d, {});
      assert BucketIs(p.nextNode, d, pos, v);
      hashNode[pos] := p.nextNode;
      OthersMoved(hs, cs, pos, t, p.nextNode, c);
      assert hashNode[..] == hs[pos := p.nextNode] && cs == cs[pos := c];
      Rechain(pos, t, v, d);
    }

    /** A node behind the head of the bucket goes. */
    method DropBehind(pos: nat, last: HashNode, q: HashNode, ghost i: nat)
      requires Valid() && pos < MAX_TABLE_SIZE && 0 < i < |chains[pos]|
      requires chains[pos][i - 1] == last && chains[pos][i] == q
      requires forall j :: 0 <= j < i ==> chains[pos][j].key != q.key
      modifies this`chains, last`nextNode
      ensures Valid() && Nodes() <= old(Nodes())
      ensures View() == old(View())[pos := DropFrom(old(View())[pos], q.key)]
      ensures chains == old(chains)[pos := RemoveAt(old(chains[pos]), i)]
    {
      ghost var hs, cs, t, c := hashNode[..], chains, View(), chains[pos];
      Opened(pos, null);
      Opened(pos, last);
      ghost var d, v := RemoveAt(c, i), DropFrom(t[pos], q.key);
      ContentsRemoved(c, i, q.key);
      Unlink(last, q, c, i);
      assert OthersAre(hs, cs, pos, t) && BucketIs(hs[pos], d, pos, v);
      NodesReplaced(cs, pos, d, {});
      Rechain(pos, t, v, d);
    }

    /** The walk behind a head with another key: node q is the first one with the key, if any. */
    method FindBehind(pos: nat, p: HashNode, key: Key) returns (last: HashNode, q: HashNode?, ghost i: nat)
      requires Valid() && pos < MAX_TABLE_SIZE && hashNode[pos] == p && p.key != key
      ensures var c := chains[pos];
              && 0 < i <= |c| && q == (if i < |c| then c[i] else null) && last == c[i - 1]
              && (forall j :: 0 <= j < i ==> c[j].key != key)
              && (q != null ==> q.key == key)
    {
      ghost var c := chains[pos];
      assert Linked(p, c);
      q, last := p.nextNode, p;
      i := 1;
      while q != null
        invariant 1 <= i <= |c| && q == (if i < |c| then c[i] else null) && last == c[i - 1]
        invariant forall j :: 0 <= j < i ==> c[j].key != key
        decreases |c| - i
      {
        if q.key == key {
          return;
        }
        last, q, i := q, q.nextNode, i + 1;
      }
    }

    lemma AbsentKey(key: Key)
      requires Valid() && forall i :: 0 <= i < |chains[Bucket(key)]| ==> chains[Bucket(key)][i].key != key
      ensures Apply(View(), Del(key)) == View()
    {
      StackOf(chains[Bucket(key)], key);
      AbsentUnchanged(View(), key);
    }

    /** The removal when the head has another key. */
    method DropRest(pos: nat, p: HashNode, key: Key) returns (found: bool)
      requires Valid() && pos == Bucket(key) && hashNode[pos] == p && p.key != key
      modifies this`chains, Nodes()
      ensures Valid() && Nodes() <= old(Nodes())
      ensures View() == old(Apply(View(), Del(key)))
      ensures found <==> exists x :: x in old(chains[pos]) && x.key == key
    {
      var last, q;
      ghost var i;
      last, q, i := FindBehind(pos, p, key);
      if q == null {
        AbsentKey(key);
        return false;
      }
      assert last in chains[pos] && last in Nodes() && q in chains[pos];
      DropBehind(pos, last, q, i);
      return true;
    }

    /** Returns whether a node was removed (1 or 0 in the source): whether the key was present. */
    method Dorp(key: Key) returns (found: bool)
      requires Valid()
      modifies this`chains, hashNode, Nodes()
      ensures Valid() && Nodes() <= old(Nodes())
      ensures View() == old(Apply(View(), Del(key)))
      ensures found <==> exists x :: x in old(chains[Bucket(key)]) && x.key == key
    {
      var h := HashFun(key);
      var pos := h % MAX_TABLE_SIZE;
      var p := hashNode[pos];
      Opened(pos, null);
      if p == null {
        AbsentKey(key);
        return false;
      }
      assert p in chains[pos];
      if p.key == key {
        DropHead(pos, p);
        return true;
      }
      found := DropRest(pos, p, key);
    }

    /** clearHashTable: `freed` lists the calls of free in order.  Each node is freed exactly once; the
        bucket pointers are left as they are. */
    method Clear() returns (freed: seq<HashNode>)
      requires Valid()
      ensures freed == AllNodes(chains, MAX_TABLE_SIZE)
      ensures Distinct(freed) && forall x :: x in freed <==> exists b :: 0 <= b < MAX_TABLE_SIZE && x in chains[b]
    {
      freed := [];
      var i := 0;
      while i < MAX_TABLE_SIZE
        invariant i <= MAX_TABLE_SIZE && freed == AllNodes(chains, i)
      {
        var head := hashNode[i];
        ghost var c, j := chains[i], 0;
        assert Linked(head, c);
        while head != null
          invariant j <= |c| && head == (if j < |c| then c[j] else null)
          invariant freed == AllNodes(chains, i) + c[..j]
          decreases |c| - j
        {
          var temp := head.nextNode;
          freed := freed + [head];
          head, j := temp, j + 1;
        }
        assert c[..j] == c;
        i := i + 1;
      }
      assert AllLinked(chains);
      AllNodesOnce(chains, MAX_TABLE_SIZE);
    }
  }

  /** All nodes, bucket by bucket. */
  ghost function AllNodes(cs: seq<seq<HashNode>>, n: nat): seq<HashNode>
    requires n <= |cs|
  {
    if n == 0 then [] else AllNodes(cs, n - 1) + cs[n - 1]
  }

  ghost predicate AllLinked(cs: seq<seq<HashNode>>)
    reads NodesOf(cs)
  {
    forall b :: 0 <= b < |cs| ==> InBucket(cs[b], b) && Linked(if cs[b] == [] then null else cs[b][0], cs[b])
  }

  /** Every node occurs exactly once. */
  lemma {:induction false} AllNodesOnce(cs: seq<seq<HashNode>>, n: nat)
    requires n <= |cs| && AllLinked(cs)
    ensures Distinct(AllNodes(cs, n))
    ensures forall x :: x in AllNodes(cs, n) <==> exists b :: 0 <= b < n && x in cs[b]
    ensures forall x :: x in AllNodes(cs, n) ==> Bucket(x.key) < n
  {
    if n > 0 {
      var a, c := AllNodes(cs, n - 1), cs[n - 1];
      AllNodesOnce(cs, n - 1);
      assert InBucket(c, n - 1) && Linked(if c == [] then null else c[0], c);
      forall i, j | 0 <= i < |a| && 0 <= j < |c| ensures a[i] != c[j] {
        assert a[i] in a && Bucket(c[j].key) == n - 1;
      }
    }
  }

  lemma AbsentUnchanged(t: Table, key: Key)
    requires Stack(t[Bucket(key)], key) == []
    ensures Apply(t, Del(key)) == t
  {
    DropPops(t[Bucket(key)], key, key);
  }
}
