/** Vocabulary about sequences that the list modules share. */
module Sequences {

  ghost predicate Distinct<T>(s: seq<T>) {
    forall i, j :: 0 <= i < j < |s| ==> s[i] != s[j]
  }

  ghost predicate Disjoint<T>(s: seq<T>, t: seq<T>) {
    forall x :: x in s ==> x !in t
  }

  function InsertAt<T>(s: seq<T>, k: nat, x: T): seq<T>
    requires k <= |s|
  {
    s[..k] + [x] + s[k..]
  }

  function RemoveAt<T>(s: seq<T>, k: nat): (r: seq<T>)
    requires k < |s|
    ensures forall x :: x in r ==> x in s
  {
    s[..k] + s[k + 1..]
  }

  function ShiftBy<T>(es: seq<T>, k: nat): seq<T>
    requires k <= |es|
  {
    es[k..] + es[..k]
  }

  /** s with x and y exchanged wherever they occur. */
  function Transpose<T(==)>(s: seq<T>, x: T, y: T): seq<T> {
    seq(|s|, i requires 0 <= i < |s| => if s[i] == x then y else if s[i] == y then x else s[i])
  }

  lemma DistinctMoved<T>(s: seq<T>, i: nat, j: nat)
    requires Distinct(s) && i <= j <= |s|
    ensures Distinct(s[..i] + s[j..] + s[i..j])
  {
  }

  lemma DisjointIndices<T>(s: seq<T>, t: seq<T>)
    requires Disjoint(s, t)
    ensures forall i, j :: 0 <= i < |s| && 0 <= j < |t| ==> s[i] != t[j]
  {
    assert forall j :: 0 <= j < |t| ==> t[j] in t;
  }

  /** A node taken out of s is neither among the rest of s nor, once it stands there, in u. */
  lemma TakenOut<T>(s: seq<T>, i: nat, u: seq<T>)
    requires Distinct(s) && i < |s|
    requires u == RemoveAt(s, i) || Disjoint(s, u)
    ensures s[i] !in RemoveAt(s, i) && s[i] !in u
    ensures Disjoint(s, u) ==> Disjoint(RemoveAt(s, i), u) && Disjoint(u, s)
  {
  }

  lemma InsertedAt<T>(s: seq<T>, k: nat, x: T)
    requires k <= |s|
    ensures var u := InsertAt(s, k, x);
            && |u| == |s| + 1 && u[k] == x
            && (forall i :: 0 <= i < k ==> u[i] == s[i])
            && (forall i :: k < i < |u| ==> u[i] == s[i - 1])
  {
  }

  lemma RemovedAt<T>(s: seq<T>, k: nat)
    requires k < |s|
    ensures var u := RemoveAt(s, k);
            && |u| == |s| - 1
            && (forall i :: 0 <= i < k ==> u[i] == s[i])
            && (forall i :: k <= i < |u| ==> u[i] == s[i + 1])
  {
  }

  lemma RemoveLater<T>(s: seq<T>, k: nat)
    requires 0 < k < |s|
    ensures RemoveAt(s, k) == [s[0]] + RemoveAt(s[1..], k - 1) && RemoveAt(s, k)[1..] == RemoveAt(s[1..], k - 1)
  {
  }

  lemma DistinctSpliced<T>(s: seq<T>, m: seq<T>, k: nat)
    requires Distinct(s) && Distinct(m) && Disjoint(s, m) && k <= |s|
    ensures Distinct(s[..k] + m + s[k..])
  {
    DisjointIndices(s, m);
  }

  lemma TakeNext<T>(s: seq<T>, n: nat)
    requires n < |s|
    ensures s[..n + 1] == s[..n] + [s[n]]
  {
  }
}
