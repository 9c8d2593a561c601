/** Small facts about sequences and integer division that several parts share. */
module Sequences {
  import opened Memory

  ghost function Items(s: seq<int>): set<int> { set x | x in s }

  ghost predicate Distinct(s: seq<int>) { forall i, j :: 0 <= i < j < |s| ==> s[i] != s[j] }

  lemma NoItems()
    ensures Items([]) == {}
  {
  }

  lemma MoreItems(s: seq<int>, from: int, i: int)
    requires 0 <= from <= i < |s|
    ensures Items(s[from..i + 1]) == Items(s[from..i]) + {s[i]} && s[i] in Items(s)
    ensures Distinct(s) ==> s[i] !in Items(s[from..i])
  {
    assert s[from..i + 1] == s[from..i] + [s[i]];
  }

  /** Position of `x` in `s`, or its length. */
  function Index(s: seq<int>, x: int): (i: nat)
    ensures i <= |s|
    ensures i < |s| ==> s[i] == x
    ensures forall j :: 0 <= j < i ==> s[j] != x
  {
    if s == [] then 0 else if s[0] == x then 0 else 1 + Index(s[1..], x)
  }

  /** The sequence without the first `b`. */
  function Without(s: seq<int>, b: int): seq<int> {
    var i := Index(s, b);
    if i < |s| then s[..i] + s[i + 1..] else s
  }

  lemma WithoutAt(r: seq<int>, b: int, j: int)
    requires 0 <= j < |Without(r, b)| && Distinct(r)
    ensures var k := if j < Index(r, b) then j else j + 1; k < |r| && Without(r, b)[j] == r[k] && r[k] != b
  {
    var i := Index(r, b);
    hide Index;
    if i < |r| {
      if j < i {
        assert (r[..i] + r[i + 1..])[j] == r[..i][j] == r[j];
      } else {
        assert (r[..i] + r[i + 1..])[j] == r[i + 1..][j - i] == r[j + 1];
        assert r[i] != r[j + 1];
      }
    }
  }

  lemma WithoutMembers(r: seq<int>, b: int)
    requires Distinct(r)
    ensures forall x :: x in Without(r, b) <==> x in r && x != b
  {
    var n, i := Without(r, b), Index(r, b);
    forall x ensures x in n <==> x in r && x != b {
      if x in n {
        var j :| 0 <= j < |n| && n[j] == x;
        WithoutAt(r, b, j);
      }
      if x in r && x != b {
        var k :| 0 <= k < |r| && r[k] == x;
        assert if k < i then n[k] == x else n[k - 1] == x;
      }
    }
  }

  /** Element i moved to the front. */
  function Moved<T>(s: seq<T>, i: int): seq<T>
    requires 0 <= i < |s|
  {
    [s[i]] + (s[..i] + s[i + 1..])
  }

  lemma MovedHead<T>(s: seq<T>, i: int)
    requires 0 <= i < |s|
    ensures Moved(s, i) != [] && Moved(s, i)[0] == s[i]
  {
  }

  lemma SliceJoin(s: seq<byte>, a: int, b: int, c: int)
    requires 0 <= a <= b <= c <= |s|
    ensures s[a..c] == s[a..b] + s[b..c]
  {
  }

  lemma MulMono(a: int, b: int, p: int)
    requires a <= b && p >= 0
    ensures a * p <= b * p
  {
  }

  /** Quotient and remainder are unique. */
  lemma DivIs(x: int, q: int, r: int, m: int)
    requires 0 <= r < m && x == q * m + r
    ensures x / m == q && x % m == r
  {
    var e := q - x / m;
    assert e * m == q * m - m * (x / m);
    assert x % m == e * m + r;
    assert e >= 1 ==> e * m >= m;
    assert e <= -1 ==> e * m <= -m;
  }
}
