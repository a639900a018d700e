/** Small arithmetic and sequence helpers shared by the whole model:
    an Option type, absolute value, C++ truncating division and the
    "sorted permutation" contract that stands for std::sort. */
module Util {

  datatype Option<+T> = None | Some(value: T)

  function Abs(x: int): (r: nat)
    ensures r == x || r == -x
  {
    if x < 0 then -x else x
  }

  function Min(a: int, b: int): (r: int)
    ensures r <= a && r <= b && (r == a || r == b)
  {
    if a <= b then a else b
  }

  function Max(a: int, b: int): (r: int)
    ensures r >= a && r >= b && (r == a || r == b)
  {
    if a >= b then a else b
  }

  function Sq(x: int): (r: nat)
  {
    x * x
  }

  /** Integer division rounding toward zero, as C++ `/` on int and the
      `static_cast<int>` of a double quotient do (Dafny's own `/` is Euclidean). */
  function TruncDiv(n: int, d: int): (q: int)
    requires d != 0
    ensures Abs(q * d) <= Abs(n)
    ensures Abs(n - q * d) < Abs(d)
    ensures (n >= 0) == (d > 0) || n == 0 ==> q >= 0
    ensures (n > 0 && d < 0) || (n < 0 && d > 0) ==> q <= 0
  {
    var q0: int := Abs(n) / Abs(d);
    DivBounds(Abs(n), Abs(d));
    SignedProduct(n, d, q0);
    if (n < 0) != (d < 0) then -q0 else q0
  }

  /** The product of the signed quotient and the divisor has the sign of the dividend. */
  lemma SignedProduct(n: int, d: int, q0: int)
    requires d != 0
    ensures (if (n < 0) != (d < 0) then -q0 else q0) * d == (if n < 0 then -(q0 * Abs(d)) else q0 * Abs(d))
  {
    if d < 0 {
      assert q0 * d == -(q0 * Abs(d));
    }
  }

  lemma DivBounds(a: nat, b: int)
    requires b > 0
    ensures 0 <= (a / b) * b <= a < (a / b) * b + b
    ensures a / b >= 0
  {
  }

  /** The smallest element, as `*std::min_element` reads it. */
  function MinOf(s: seq<int>): (m: int)
    requires |s| >= 1
    ensures m in s
    ensures forall k :: 0 <= k < |s| ==> m <= s[k]
  {
    if |s| == 1 then s[0] else Min(MinOf(s[..|s| - 1]), s[|s| - 1])
  }

  /** The largest element, as `*std::max_element` reads it. */
  function MaxOf(s: seq<int>): (m: int)
    requires |s| >= 1
    ensures m in s
    ensures forall k :: 0 <= k < |s| ==> s[k] <= m
  {
    if |s| == 1 then s[0] else Max(MaxOf(s[..|s| - 1]), s[|s| - 1])
  }

  /** Index of the first element with the smallest key: the result of scanning left
      to right and replacing the current candidate only by a strictly smaller key. */
  function FirstMinBy<T>(s: seq<T>, key: T -> int): (k: nat)
    requires |s| >= 1
    ensures k < |s|
    ensures forall j :: 0 <= j < |s| ==> key(s[k]) <= key(s[j])
    ensures forall j :: 0 <= j < k ==> key(s[k]) < key(s[j])
  {
    if |s| == 1 then 0
    else
      var m := FirstMinBy(s[..|s| - 1], key);
      if key(s[|s| - 1]) < key(s[m]) then |s| - 1 else m
  }

  /** Scanning one more element keeps the candidate unless the new key is strictly smaller. */
  lemma FirstMinByStep<T>(s: seq<T>, key: T -> int, i: int)
    requires 1 <= i < |s|
    ensures FirstMinBy(s[..i + 1], key)
      == if key(s[i]) < key(s[FirstMinBy(s[..i], key)]) then i else FirstMinBy(s[..i], key)
  {
    assert s[..i + 1][..i] == s[..i];
  }

  /** `s` is in non-decreasing order of `key`. */
  ghost predicate SortedBy<T>(s: seq<T>, key: T -> int)
  {
    forall i, j :: 0 <= i < j < |s| ==> key(s[i]) <= key(s[j])
  }

  /** Inserts `x` into the sorted sequence `s` before the first element with a larger key. */
  function InsertSorted<T>(s: seq<T>, x: T, key: T -> int): (r: seq<T>)
    requires SortedBy(s, key)
    ensures |r| == |s| + 1
    ensures r[0] == x || (|s| > 0 && r[0] == s[0])
    ensures SortedBy(r, key)
    ensures multiset(r) == multiset(s) + multiset{x}
  {
    if s == [] then [x]
    else if key(x) <= key(s[0]) then
      SortedCons(x, s, key);
      [x] + s
    else
      var rest := InsertSorted(s[1..], x, key);
      SortedCons(s[0], rest, key);
      assert s == [s[0]] + s[1..];
      [s[0]] + rest
  }

  lemma SortedCons<T>(a: T, rest: seq<T>, key: T -> int)
    requires SortedBy(rest, key)
    requires |rest| > 0 ==> key(a) <= key(rest[0])
    ensures SortedBy([a] + rest, key)
  {
    var r := [a] + rest;
    forall i, j | 0 <= i < j < |r|
      ensures key(r[i]) <= key(r[j])
    {
      if i > 0 {
        assert r[i] == rest[i - 1] && r[j] == rest[j - 1];
      } else {
        assert r[j] == rest[j - 1];
        assert key(rest[0]) <= key(rest[j - 1]) || j == 1;
      }
    }
  }

  /** The model of `std::sort` with a "less than by key" comparator: the result is
      some permutation of the input in non-decreasing key order. Since std::sort is
      not stable, callers may rely on nothing else. */
  method SortBy<T>(s: seq<T>, key: T -> int) returns (r: seq<T>)
    ensures multiset(r) == multiset(s)
    ensures |r| == |s|
    ensures SortedBy(r, key)
  {
    r := [];
    var i := 0;
    while i < |s|
      invariant 0 <= i <= |s|
      invariant multiset(r) == multiset(s[..i])
      invariant |r| == i
      invariant SortedBy(r, key)
    {
      assert s[..i + 1] == s[..i] + [s[i]];
      r := InsertSorted(r, s[i], key);
      i := i + 1;
    }
    assert s[..i] == s;
  }
}
