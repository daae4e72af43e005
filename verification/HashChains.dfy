/** What the chained hash table of src/c_STL.c does to one bucket and to the table, on values.

    Insert compares the key with the bucket head only; a new node goes to the second place.  So a
    chain may hold several nodes with the same key, and the meaning of a key is a stack of values:
    the first occurrence hides the others. */
module HashChains {
  import opened HashFunctions

  const MAX_TABLE_SIZE: nat := 100

  /** A C string: signed characters, none of them NUL. */
  type Key = s: seq<SChar> | forall i :: 0 <= i < |s| ==> s[i] != 0 witness []

  type Chain = seq<(Key, int)>

  function Bucket(k: Key): (b: nat)
    ensures b < MAX_TABLE_SIZE
  {
    Poly(33, k) % TWO_64 % MAX_TABLE_SIZE
  }

  datatype Option<T> = None | Some(value: T)

  function InsertInto(c: Chain, k: Key, v: int): Chain {
    if c == [] then [(k, v)]
    else if c[0].0 == k then [(k, v)] + c[1..]
    else [c[0], (k, v)] + c[1..]
  }

  function Lookup(c: Chain, k: Key): Option<int> {
    if c == [] then None else if c[0].0 == k then Some(c[0].1) else Lookup(c[1..], k)
  }

  /** The chain without its first node for k. */
  function DropFrom(c: Chain, k: Key): Chain {
    if c == [] then [] else if c[0].0 == k then c[1..] else [c[0]] + DropFrom(c[1..], k)
  }

  /** The values stored for k, newest first. */
  function Stack(c: Chain, k: Key): seq<int> {
    if c == [] then [] else (if c[0].0 == k then [c[0].1] else []) + Stack(c[1..], k)
  }

  predicate AtHead(c: Chain, k: Key) {
    c != [] && c[0].0 == k
  }

  /** Insert pushes, or overwrites the top when the key is at the bucket head; other keys keep
      their stacks. */
  lemma InsertPushes(c: Chain, k: Key, v: int, other: Key)
    ensures Stack(InsertInto(c, k, v), k) == [v] + (if AtHead(c, k) then Stack(c, k)[1..] else Stack(c, k))
    ensures other != k ==> Stack(InsertInto(c, k, v), other) == Stack(c, other)
    ensures c != [] ==> InsertInto(c, k, v)[0].0 == c[0].0
  {
    StackInserted(c, k, v, k);
    StackInserted(c, k, v, other);
    if c != [] {
      assert c == [c[0]] + c[1..];
      StackFirst(c[0], c[1..], k);
      StackFirst(c[0], c[1..], other);
      HereBefore(c[0], Stack(c[1..], k), k);
      HereBefore(c[0], Stack(c[1..], other), other);
      HereBefore((k, v), Stack(c[1..], other), other);
      HereBefore(c[0], Here((k, v), k) + Stack(c[1..], k), k);
    }
  }

  lemma HereBefore(node: (Key, int), s: seq<int>, k: Key)
    ensures node.0 == k ==> Here(node, k) + s == [node.1] + s && (Here(node, k) + s)[1..] == s
    ensures node.0 != k ==> Here(node, k) + s == s
  {
  }

  lemma StackInserted(c: Chain, k: Key, v: int, x: Key)
    ensures Stack(InsertInto(c, k, v), x) ==
            if c == [] then Here((k, v), x)
            else if c[0].0 == k then Here((k, v), x) + Stack(c[1..], x)
            else Here(c[0], x) + (Here((k, v), x) + Stack(c[1..], x))
  {
    if c == [] {
      StackFirst((k, v), [], x);
      assert [(k, v)] + [] == [(k, v)];
    } else if c[0].0 == k {
      StackFirst((k, v), c[1..], x);
    } else {
      var rest: Chain := [(k, v)] + c[1..];
      StackFirst((k, v), c[1..], x);
      StackFirst(c[0], rest, x);
      assert [c[0], (k, v)] + c[1..] == [c[0]] + rest;
    }
  }

  /** What the first node of a chain stores for k. */
  function Here(node: (Key, int), k: Key): seq<int> {
    if node.0 == k then [node.1] else []
  }

  lemma StackFirst(node: (Key, int), rest: Chain, k: Key)
    ensures Stack([node] + rest, k) == Here(node, k) + Stack(rest, k)
  {
    assert ([node] + rest)[1..] == rest;
  }

  lemma {:induction false} LookupIsTop(c: Chain, k: Key)
    ensures Lookup(c, k) == if Stack(c, k) == [] then None else Some(Stack(c, k)[0])
  {
    if c != [] {
      LookupIsTop(c[1..], k);
    }
  }

  /** Dorp pops; other keys keep their stacks. */
  lemma {:induction false} DropPops(c: Chain, k: Key, other: Key)
    ensures Stack(DropFrom(c, k), k) == if Stack(c, k) == [] then [] else Stack(c, k)[1..]
    ensures other != k ==> Stack(DropFrom(c, k), other) == Stack(c, other)
    ensures DropFrom(c, k) == c <==> Stack(c, k) == []
  {
    if c != [] {
      DropPops(c[1..], k, other);
      if c[0].0 != k {
        assert ([c[0]] + DropFrom(c[1..], k))[1..] == DropFrom(c[1..], k);
        assert c == [c[0]] + c[1..];
      } else {
        assert |c[1..]| < |c|;
      }
    }
  }

  /** Dorp is deletion in the sense of a map exactly when the key has at most one node. */
  lemma DropDeletesIff(c: Chain, k: Key)
    ensures Lookup(DropFrom(c, k), k) == None <==> |Stack(c, k)| <= 1
  {
    DropPops(c, k, k);
    LookupIsTop(DropFrom(c, k), k);
  }

  ghost predicate DistinctKeys(c: Chain) {
    forall i, j :: 0 <= i < j < |c| ==> c[i].0 != c[j].0
  }

  lemma {:induction false} DistinctKeysShallow(c: Chain, k: Key)
    requires DistinctKeys(c)
    ensures |Stack(c, k)| <= 1
  {
    if c != [] {
      DistinctKeysShallow(c[1..], k);
      if c[0].0 == k {
        AbsentKey(c[1..], k);
      }
    }
  }

  lemma {:induction false} AbsentKey(c: Chain, k: Key)
    requires forall i :: 0 <= i < |c| ==> c[i].0 != k
    ensures Stack(c, k) == []
  {
    if c != [] {
      AbsentKey(c[1..], k);
    }
  }

  // ----- runs on the whole table

  datatype Op = Put(k: Key, v: int) | Del(k: Key)

  type Table = t: seq<Chain> | |t| == MAX_TABLE_SIZE witness seq(MAX_TABLE_SIZE, _ => [])

  function Empty(): Table {
    seq(MAX_TABLE_SIZE, _ => [])
  }

  function Apply(t: Table, op: Op): Table {
    var b := Bucket(op.k);
    match op
    case Put(k, v) => t[b := InsertInto(t[b], k, v)]
    case Del(k) => t[b := DropFrom(t[b], k)]
  }

  function Exec(ops: seq<Op>): Table {
    if ops == [] then Empty() else Apply(Exec(ops[..|ops| - 1]), ops[|ops| - 1])
  }

  function Get(t: Table, k: Key): Option<int> {
    Lookup(t[Bucket(k)], k)
  }

  /** The value of the latest Put of k. */
  function Latest(ops: seq<Op>, k: Key): Option<int> {
    if ops == [] then None
    else
      var op := ops[|ops| - 1];
      if op.k == k && op.Put? then Some(op.v) else Latest(ops[..|ops| - 1], k)
  }

  lemma GetAfter(t: Table, op: Op, k: Key)
    ensures op.k != k ==> Get(Apply(t, op), k) == Get(t, k)
    ensures op.k == k && op.Put? ==> Get(Apply(t, op), k) == Some(op.v)
  {
    var c, d := t[Bucket(k)], Apply(t, op)[Bucket(k)];
    LookupIsTop(c, k);
    LookupIsTop(d, k);
    match op
    case Put(k', v) => InsertPushes(t[Bucket(k')], k', v, k);
    case Del(k') => DropPops(t[Bucket(k')], k', k);
  }

  /** Without deletions the table is a map: a key has the value of its latest Insert, although
      only the bucket head is compared and older duplicates stay in the chain. */
  lemma {:induction false} GetIsLatest(ops: seq<Op>, k: Key)
    requires forall i :: 0 <= i < |ops| ==> ops[i].Put?
    ensures Get(Exec(ops), k) == Latest(ops, k)
  {
    if ops != [] {
      GetIsLatest(ops[..|ops| - 1], k);
      GetAfter(Exec(ops[..|ops| - 1]), ops[|ops| - 1], k);
    }
  }

  /** With deletions, each key is a stack that only its own operations touch. */
  lemma {:induction false} KeysAreStacks(ops: seq<Op>, k: Key)
    requires ops != []
    ensures var op, t := ops[|ops| - 1], Exec(ops[..|ops| - 1]);
            var before, after := Stack(t[Bucket(k)], k), Stack(Exec(ops)[Bucket(k)], k);
            && (op.k != k ==> after == before)
            && (op == Del(k) ==> after == if before == [] then [] else before[1..])
            && (op.k == k && op.Put? ==> after == [op.v] + if AtHead(t[Bucket(k)], k) then before[1..] else before)
  {
    var op, t := ops[|ops| - 1], Exec(ops[..|ops| - 1]);
    match op
    case Put(k', v) => InsertPushes(t[Bucket(k')], k', v, k);
    case Del(k') => DropPops(t[Bucket(k')], k', k);
  }

  /** The bucket of a key in plain numbers. */
  function HashOf(k: Key): int {
    Weighted(33, k) % 0x1_0000_0000_0000_0000 % 100
  }

  lemma BucketIsHash(k: Key)
    ensures Bucket(k) == HashOf(k)
  {
    PolyIsWeighted(33, k);
  }

  /** The value that the last operation on k left, if any. */
  function LastValue(ops: seq<Op>, k: Key): Option<int> {
    if ops == [] then None
    else
      var op := ops[|ops| - 1];
      if op.k == k then (if op.Put? then Some(op.v) else None) else LastValue(ops[..|ops| - 1], k)
  }

  /** With deletions, a key is a map entry when no other key of the run has the same hash modulo 100:
      its chain then has at most one node. */
  lemma {:induction false} LoneKeyIsMap(ops: seq<Op>, k: Key)
    requires forall i :: 0 <= i < |ops| && ops[i].k != k ==> HashOf(ops[i].k) != HashOf(k)
    ensures Get(Exec(ops), k) == LastValue(ops, k)
    ensures var c := Exec(ops)[Bucket(k)];
            c == match LastValue(ops, k) case None => [] case Some(v) => [(k, v)]
  {
    if ops != [] {
      var n := |ops| - 1;
      var op, c := ops[n], Exec(ops[..n])[Bucket(k)];
      LoneKeyIsMap(ops[..n], k);
      BucketIsHash(k);
      BucketIsHash(op.k);
      assert op.k != k ==> Exec(ops)[Bucket(k)] == c;
    }
  }

  /** A deleted key can come back with an older value: keys "\u0001" and "e" share a bucket. */
  lemma DroppedKeyCanResurface()
    ensures var a: Key, b: Key := [1], [101];
            var ops := [Put(a, 0), Put(b, 1), Put(b, 2), Del(b)];
            Get(Exec(ops), b) == Some(1)
  {
    var a: Key, b: Key := [1], [101];
    assert Bucket(a) == 1 && Bucket(b) == 1 by {
      assert a[..0] == [] && b[..0] == [];
    }
    assert a[0] != b[0];
    var ops := [Put(a, 0), Put(b, 1), Put(b, 2), Del(b)];
    assert ops[..3] == [Put(a, 0), Put(b, 1), Put(b, 2)];
    assert ops[..3][..2] == [Put(a, 0), Put(b, 1)];
    assert ops[..3][..2][..1] == [Put(a, 0)];
    assert ops[..3][..2][..1][..0] == [];
    var c1, c2, c3: Chain := [(a, 0)], [(a, 0), (b, 1)], [(a, 0), (b, 2), (b, 1)];
    assert InsertInto(c1, b, 1) == c2 && InsertInto(c2, b, 2) == c3;
    assert c3[1..] == [(b, 2), (b, 1)] && DropFrom(c3[1..], b) == [(b, 1)];
    assert c2[1..] == [(b, 1)] && DropFrom(c3, b) == c2 && Lookup(c2[1..], b) == Some(1);
    assert Exec(ops[..3][..2][..1])[1] == c1;
    assert Exec(ops[..3][..2])[1] == c2;
    assert Exec(ops[..3])[1] == c3;
    assert Exec(ops)[1] == c2;
  }
}
