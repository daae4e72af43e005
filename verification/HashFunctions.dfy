/** The string hashes of src/c_STL.c lines 18-42 and 65-74: the loops compute polynomials in the
    characters, in the modulus of their C types. */
module HashFunctions {
  import opened Arithmetic

  type SChar = x: int | -128 <= x < 128
  type UChar = x: int | 0 <= x < 0x100

  const TWO_31: nat := 0x8000_0000
  const TWO_32: nat := 0x1_0000_0000
  const TWO_64: nat := 0x1_0000_0000_0000_0000

  // ----- polynomials over the integers

  function Pow(b: int, n: nat): int {
    if n == 0 then 1 else b * Pow(b, n - 1)
  }

  /** Horner's scheme. */
  function Poly(b: int, s: seq<int>): int {
    if s == [] then 0 else Poly(b, s[..|s| - 1]) * b + s[|s| - 1]
  }

  /** The closed form: character i weighs b to the number of characters behind it. */
  function Weighted(b: int, s: seq<int>): int {
    if s == [] then 0 else s[0] * Pow(b, |s| - 1) + Weighted(b, s[1..])
  }

  lemma {:induction false} PowAdd(b: int, m: nat, n: nat)
    ensures Pow(b, m + n) == Pow(b, m) * Pow(b, n)
  {
    if m > 0 {
      PowAdd(b, m - 1, n);
      Associate(b, Pow(b, m - 1), Pow(b, n));
    }
  }

  lemma Associate(x: int, y: int, z: int)
    ensures x * (y * z) == (x * y) * z
  {
  }

  lemma {:induction false} PolyConcat(b: int, s: seq<int>, t: seq<int>)
    ensures Poly(b, s + t) == Poly(b, s) * Pow(b, |t|) + Poly(b, t)
  {
    if t == [] {
      assert s + t == s;
    } else {
      var t0, c := t[..|t| - 1], t[|t| - 1];
      PolyConcat(b, s, t0);
      assert (s + t)[..|s + t| - 1] == s + t0;
      var x, p, y := Poly(b, s), Pow(b, |t0|), Poly(b, t0);
      assert (x * p + y) * b + c == x * (b * p) + (y * b + c) by {
        Associate(x, p, b);
        assert (x * p + y) * b == (x * p) * b + y * b;
        assert p * b == b * p;
      }
    }
  }

  lemma {:induction false} PolyIsWeighted(b: int, s: seq<int>)
    ensures Poly(b, s) == Weighted(b, s)
  {
    if s != [] {
      PolyIsWeighted(b, s[1..]);
      PolyConcat(b, [s[0]], s[1..]);
      assert [s[0]] + s[1..] == s;
      assert Poly(b, [s[0]]) == s[0] by { assert [s[0]][..0] == []; }
    }
  }

  // ----- reduction

  /** The value in a C type of modulus m. */
  function Reduce(x: int, m: nat): (r: nat)
    requires m > 0
    ensures r < m
  {
    x % m
  }

  lemma SameRemainder(x: int, k: int, m: int)
    requires m > 0
    ensures (k * m + x) % m == x % m
  {
    assert x == (x / m) * m + x % m;
    assert k * m + (x / m) * m == (k + x / m) * m;
    Remainder(k + x / m, m, x % m);
  }

  /** One step of a hash loop may be reduced or not. */
  lemma StepRemainder(x: int, b: int, c: int, m: int)
    requires m > 0
    ensures ((x % m) * b + c) % m == (x * b + c) % m
  {
    var q, r := x / m, x % m;
    assert x == q * m + r;
    assert x * b + c == (q * b) * m + (r * b + c) by {
      assert (q * m + r) * b == (q * m) * b + r * b;
      Associate(q, m, b);
      Associate(q, b, m);
      assert m * b == b * m;
    }
    SameRemainder(r * b + c, q * b, m);
  }

  /** Hash values compose: the hash of a concatenation follows from the hashes of its parts. */
  lemma HashConcat(b: int, m: int, s: seq<int>, t: seq<int>)
    requires m > 0
    ensures Reduce(Poly(b, s + t), m) == Reduce(Reduce(Poly(b, s), m) * Pow(b, |t|) + Reduce(Poly(b, t), m), m)
  {
    var x, p, y := Poly(b, s), Pow(b, |t|), Poly(b, t);
    PolyConcat(b, s, t);
    StepRemainder(x, p, y % m, m);
    StepRemainder(y, 1, x * p, m);
  }

  /** One turn of a hash loop: from the characters before i to the one at i. */
  lemma PolyTurn(b: int, m: nat, s: seq<int>, i: nat, hash: int)
    requires m > 0 && i < |s| && hash == Reduce(Poly(b, s[..i]), m)
    ensures Reduce(hash * b + s[i], m) == Reduce(Poly(b, s[..i + 1]), m)
  {
    assert s[..i + 1][..i] == s[..i];
    StepRemainder(Poly(b, s[..i]), b, s[i], m);
  }

  /** The same with the multiplication by 31 as a shift and a subtraction. */
  lemma ShiftTurn(s: seq<int>, i: nat, value: int)
    requires i < |s| && value == Reduce(Poly(31, s[..i]), TWO_32)
    ensures Reduce(Reduce(value * 32, TWO_32) - value + s[i], TWO_32) == Reduce(Poly(31, s[..i + 1]), TWO_32)
  {
    PolyTurn(31, TWO_32, s, i, value);
    StepRemainder(value * 32, 1, s[i] - value, TWO_32);
  }

  // ----- the three loops

  /** HashFun; the characters of a key are signed, and a negative one wraps around. */
  method HashFun(key: seq<SChar>) returns (hash: nat)
    ensures hash == Weighted(33, key) % 0x1_0000_0000_0000_0000
    ensures hash == Poly(33, key) % TWO_64
  {
    hash := 0;
    var i := 0;
    while i < |key|
      invariant i <= |key|
      invariant hash == Reduce(Poly(33, key[..i]), TWO_64)
    {
      PolyTurn(33, TWO_64, key, i, hash);
      hash := Reduce(hash * 33 + key[i], TWO_64);
      i := i + 1;
    }
    assert key[..i] == key;
    PolyIsWeighted(33, key);
  }

  /** The first of the given characters is at n. */
  ghost predicate FirstAt(s: seq<int>, stops: set<int>, n: nat) {
    n < |s| && s[n] in stops && forall j :: 0 <= j < n ==> s[j] !in stops
  }

  lemma OneFirst(s: seq<int>, stops: set<int>, i: nat)
    requires FirstAt(s, stops, i)
    ensures forall n: nat :: FirstAt(s, stops, n) ==> n == i
  {
  }

  /** The characters before the first one that stops. */
  function Before(s: seq<int>, stop: int -> bool): seq<int> {
    if s == [] || stop(s[0]) then [] else [s[0]] + Before(s[1..], stop)
  }

  function IsLineEnd(c: int): bool { c == 10 || c == 0 }

  lemma {:induction false} BeforeAt(s: seq<int>, stop: int -> bool, n: nat)
    requires n <= |s| && forall i :: 0 <= i < n ==> !stop(s[i])
    requires n < |s| ==> stop(s[n])
    ensures Before(s, stop) == s[..n]
  {
    if n > 0 {
      BeforeAt(s[1..], stop, n - 1);
    }
  }

  /** harsh_table_harsh_string on memory that holds a string and its terminator. */
  method HarshString(p: seq<UChar>) returns (value: nat)
    requires 0 in p
    ensures forall n: nat :: FirstAt(p, {0}, n) ==> value == Weighted(31, p[..n]) % 0x1_0000_0000
  {
    var i := 0;
    value := p[0];
    if value != 0 {
      i := 1;
      assert p[..1][..0] == [];
      while p[i] != 0
        invariant 0 < i < |p| && 0 in p[i..] && forall j :: 0 <= j < i ==> p[j] != 0
        invariant value == Reduce(Poly(31, p[..i]), TWO_32)
        decreases |p| - i
      {
        assert p[i..] == [p[i]] + p[i + 1..];
        ShiftTurn(p, i, value);
        value := Reduce(Reduce(value * 32, TWO_32) - value + p[i], TWO_32);
        i := i + 1;
      }
    }
    OneFirst(p, {0}, i);
    PolyIsWeighted(31, p[..i]);
  }

  /** bkdrHash stops at a newline as well; the top bit of the 32 is dropped at the end. */
  method BkdrHash(key: seq<SChar>) returns (r: nat)
    requires 0 in key || 10 in key
    ensures forall n: nat :: FirstAt(key, {0, 10}, n) ==> r == Weighted(131, key[..n]) % 0x8000_0000
    ensures r == LineHash(key)
  {
    var hash, i := 0, 0;
    while key[i] != 10 && key[i] != 0
      invariant i < |key| && (0 in key[i..] || 10 in key[i..])
      invariant forall j :: 0 <= j < i ==> !IsLineEnd(key[j])
      invariant hash == Reduce(Poly(131, key[..i]), TWO_32)
      decreases |key| - i
    {
      assert key[i..] == [key[i]] + key[i + 1..];
      PolyTurn(131, TWO_32, key, i, hash);
      hash := Reduce(hash * 131 + key[i], TWO_32);
      i := i + 1;
    }
    OneFirst(key, {0, 10}, i);
    LineEnd(key, i, hash);
    return Reduce(hash, TWO_31);
  }

  lemma LineEnd(key: seq<int>, i: nat, hash: int)
    requires FirstAt(key, {0, 10}, i) && hash == Reduce(Poly(131, key[..i]), TWO_32)
    ensures Reduce(hash, TWO_31) == Weighted(131, key[..i]) % 0x8000_0000 == LineHash(key)
  {
    BeforeAt(key, IsLineEnd, i);
    HalfModulus(Poly(131, key[..i]));
    PolyIsWeighted(131, key[..i]);
  }

  lemma HalfModulus(x: int)
    ensures x % TWO_32 % TWO_31 == x % TWO_31
  {
  }

  lemma {:induction false} BeforeConcat(s: seq<int>, t: seq<int>, stop: int -> bool)
    requires forall i :: 0 <= i < |s| ==> !stop(s[i])
    ensures Before(s + t, stop) == s + Before(t, stop)
  {
    if s == [] {
      assert s + t == t;
    } else {
      BeforeConcat(s[1..], t, stop);
      assert (s + t)[1..] == s[1..] + t;
    }
  }

  function LineHash(key: seq<int>): int {
    Reduce(Poly(131, Before(key, IsLineEnd)), TWO_31)
  }

  /** The composition law for the line hash, when the first part has no newline or NUL in it. */
  lemma LineHashConcat(s: seq<int>, t: seq<int>)
    requires forall i :: 0 <= i < |s| ==> !IsLineEnd(s[i])
    ensures LineHash(s + t) == Reduce(LineHash(s) * Pow(131, |Before(t, IsLineEnd)|) + LineHash(t), TWO_31)
  {
    BeforeConcat(s, t, IsLineEnd);
    BeforeAt(s, IsLineEnd, |s|);
    assert s[..|s|] == s;
    HashConcat(131, TWO_31, s, Before(t, IsLineEnd));
  }
}
