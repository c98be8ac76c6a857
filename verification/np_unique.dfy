/** `numpy.unique` on a one-dimensional integer column: its distinct values in ascending order. */
module NpUnique {

  /** Strictly ascending, hence also free of repetitions. */
  predicate Increasing(s: seq<int>) {
    forall i, j :: 0 <= i < j < |s| ==> s[i] < s[j]
  }

  /** Inserts `x` into an ascending sequence unless it is already there. */
  function InsertSorted(s: seq<int>, x: int): (r: seq<int>)
    requires Increasing(s)
    ensures Increasing(r)
    ensures forall y :: y in r <==> y in s || y == x
  {
    if s == [] then [x]
    else if x < s[0] then
      assert forall y :: y in s ==> x < y;
      ConsIncreasing(x, s);
      [x] + s
    else if x == s[0] then s
    else
      var rest := InsertSorted(s[1..], x);
      assert forall y :: y in s <==> y == s[0] || y in s[1..];
      assert forall y :: y in rest ==> s[0] < y;
      ConsIncreasing(s[0], rest);
      [s[0]] + rest
  }

  /** A value below every element of an ascending sequence can be put in front of it. */
  lemma ConsIncreasing(h: int, t: seq<int>)
    requires Increasing(t) && forall y :: y in t ==> h < y
    ensures Increasing([h] + t)
  {
    var r := [h] + t;
    forall i, j | 0 <= i < j < |r| ensures r[i] < r[j] {
      assert r[j] == t[j - 1] && t[j - 1] in t;
      if i > 0 {
        assert r[i] == t[i - 1];
      }
    }
  }

  /** `np.unique(xs)`. */
  function Unique(xs: seq<int>): (r: seq<int>)
    ensures Increasing(r)
    ensures forall y :: y in r <==> y in xs
  {
    if xs == [] then []
    else
      var init := xs[..|xs| - 1];
      assert xs == init + [xs[|xs| - 1]];
      InsertSorted(Unique(init), xs[|xs| - 1])
  }

  /**
   An ascending sequence is determined by its elements, so `Unique(xs)` is
   the one ascending sequence holding exactly the values of `xs`.
   */
  lemma {:induction false} IncreasingDetermined(a: seq<int>, b: seq<int>)
    requires Increasing(a) && Increasing(b)
    requires forall y :: y in a <==> y in b
    ensures a == b
    decreases |a|
  {
    HeadIsMember(a);
    HeadIsMember(b);
    if a != [] && b != [] {
      assert a[0] == b[0] by {
        var j :| 0 <= j < |b| && b[j] == a[0];
        var i :| 0 <= i < |a| && a[i] == b[0];
      }
      assert forall y :: y in a[1..] <==> y in a && y != a[0];
      assert forall y :: y in b[1..] <==> y in b && y != b[0];
      IncreasingDetermined(a[1..], b[1..]);
      assert a == [a[0]] + a[1..] && b == [b[0]] + b[1..];
    }
  }

  lemma HeadIsMember(s: seq<int>)
    ensures s != [] ==> s[0] in s
  {
  }

  lemma UniqueIsSortedDistinct(xs: seq<int>, s: seq<int>)
    requires Increasing(s) && forall y :: y in s <==> y in xs
    ensures Unique(xs) == s
  {
    IncreasingDetermined(Unique(xs), s);
  }

}
