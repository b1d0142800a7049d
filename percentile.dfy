/**
 * The percentile computation `normalize` relies on: numpy's default
 * ("linear") method, which reads the ranks of a sorted copy of the data
 * and interpolates linearly between the two ranks adjacent to the virtual index
 * (n - 1) * q / 100.  Values are exact reals.
 */
module Percentile {

  predicate Sorted(s: seq<real>) {
    forall i, j :: 0 <= i < j < |s| ==> s[i] <= s[j]
  }

  /** Inserts `x` into the sorted sequence `s`, before the first element not below it. */
  function Insert(x: real, s: seq<real>): (r: seq<real>)
    requires Sorted(s)
    ensures Sorted(r)
    ensures multiset(r) == multiset(s) + multiset{x}
    ensures |r| == |s| + 1
    ensures r[0] == x || (s != [] && r[0] == s[0])
  {
    if s == [] then [x]
    else if x <= s[0] then
      SortedCons(x, s);
      [x] + s
    else
      SortedTail(s);
      var t := Insert(x, s[1..]);
      assert multiset(s) == multiset{s[0]} + multiset(s[1..]) by {
        assert s == [s[0]] + s[1..];
      }
      assert multiset([s[0]] + t) == multiset{s[0]} + multiset(t);
      SortedCons(s[0], t);
      [s[0]] + t
  }

  /** The tail of a sorted sequence is sorted. */
  lemma SortedTail(s: seq<real>)
    requires Sorted(s) && s != []
    ensures Sorted(s[1..])
  {
    forall i, j | 0 <= i < j < |s| - 1 ensures s[1..][i] <= s[1..][j] {
      assert s[1..][i] == s[i + 1] && s[1..][j] == s[j + 1];
    }
  }

  /** Putting an element no larger than the head in front keeps a sequence sorted. */
  lemma SortedCons(x: real, t: seq<real>)
    requires Sorted(t) && (t == [] || x <= t[0])
    ensures Sorted([x] + t)
  {
    var u := [x] + t;
    forall i, j | 0 <= i < j < |u| ensures u[i] <= u[j] {
      if i == 0 {
        assert u[j] == t[j - 1];
        assert t[0] <= t[j - 1];
      } else {
        assert u[i] == t[i - 1] && u[j] == t[j - 1];
      }
    }
  }

  /** The sorted copy numpy takes before selecting ranks. */
  function SortReals(s: seq<real>): (r: seq<real>)
    ensures Sorted(r)
    ensures multiset(r) == multiset(s)
    ensures |r| == |s|
  {
    if s == [] then []
    else
      assert s == [s[0]] + s[1..];
      Insert(s[0], SortReals(s[1..]))
  }

  /** A position of a value known to occur in `s`. */
  lemma IndexIn(s: seq<real>, v: real) returns (i: nat)
    requires v in multiset(s)
    ensures i < |s| && s[i] == v
  {
    assert v in s;
    i :| 0 <= i < |s| && s[i] == v;
  }

  /** The multiset of a sequence is its head plus the multiset of its tail. */
  lemma MultisetTail(a: seq<real>)
    requires a != []
    ensures multiset(a) == multiset{a[0]} + multiset(a[1..])
  {
    assert a == [a[0]] + a[1..];
  }

  /** Two sorted sequences with the same elements are the same sequence. */
  lemma {:induction false} SortedUnique(a: seq<real>, b: seq<real>)
    requires Sorted(a) && Sorted(b)
    requires multiset(a) == multiset(b)
    ensures a == b
  {
    assert |a| == |multiset(a)| == |multiset(b)| == |b|;
    if a != [] {
      var i := IndexIn(b, a[0]);
      var j := IndexIn(a, b[0]);
      assert b[0] <= b[i] && a[0] <= a[j];
      assert a[0] == b[0];
      MultisetTail(a);
      MultisetTail(b);
      assert multiset(a[1..]) == multiset(a) - multiset{a[0]};
      assert multiset(b[1..]) == multiset(b) - multiset{b[0]};
      SortedTail(a);
      SortedTail(b);
      SortedUnique(a[1..], b[1..]);
    }
  }

  /** The smallest and the largest element of the sorted copy both occur in the data. */
  lemma SortedCopyEnds(data: seq<real>) returns (lo: nat, hi: nat)
    requires |data| > 0
    ensures lo < |data| && data[lo] == SortReals(data)[0]
    ensures hi < |data| && data[hi] == SortReals(data)[|data| - 1]
  {
    var t := SortReals(data);
    assert t[0] in multiset(t) && t[|t| - 1] in multiset(t);
    lo := IndexIn(data, t[0]);
    hi := IndexIn(data, t[|t| - 1]);
  }

  /** Linear interpolation from `a` toward `b` by the fraction `f`. */
  function Lerp(a: real, b: real, f: real): (r: real)
    requires a <= b && 0.0 <= f <= 1.0
    ensures a <= r <= b
    ensures f == 0.0 ==> r == a
    ensures f == 1.0 ==> r == b
  {
    var d := b - a;
    assert 0.0 <= f * d by { assert 0.0 <= d; }
    assert f * d <= d by { assert 0.0 <= (1.0 - f) * d; }
    a + f * d
  }

  /** Lerp grows with the fraction. */
  lemma LerpMonotone(a: real, b: real, f1: real, f2: real)
    requires a <= b && 0.0 <= f1 <= f2 <= 1.0
    ensures Lerp(a, b, f1) <= Lerp(a, b, f2)
  {
    var d := b - a;
    assert 0.0 <= (f2 - f1) * d;
  }

  /**
   * The value at scaled rank `k` (the virtual index times 100) of a sorted
   * sequence: the element at index k / 100, moved toward the next element by
   * the fraction (k % 100) / 100.
   */
  function Interpolate(t: seq<real>, k: nat): (r: real)
    requires Sorted(t)
    requires |t| > 0 && k <= (|t| - 1) * 100
    ensures t[0] <= r <= t[|t| - 1]
    ensures t[k / 100] <= r
    ensures k % 100 == 0 ==> r == t[k / 100]
    ensures k % 100 != 0 ==> k / 100 + 1 < |t| && r <= t[k / 100 + 1]
  {
    var lo, frac := k / 100, k % 100;
    if frac == 0 then t[lo]
    else
      assert lo + 1 < |t|;
      Lerp(t[lo], t[lo + 1], frac as real / 100.0)
  }

  /** A larger scaled rank never gives a smaller value. */
  lemma InterpolateMonotone(t: seq<real>, k1: nat, k2: nat)
    requires Sorted(t)
    requires |t| > 0 && k1 <= k2 <= (|t| - 1) * 100
    ensures Interpolate(t, k1) <= Interpolate(t, k2)
  {
    var lo1, lo2 := k1 / 100, k2 / 100;
    if lo1 == lo2 {
      if k1 % 100 != 0 {
        LerpMonotone(t[lo1], t[lo1 + 1], (k1 % 100) as real / 100.0, (k2 % 100) as real / 100.0);
      }
    } else {
      assert lo1 < lo2;
      if k1 % 100 != 0 {
        assert t[lo1 + 1] <= t[lo2];
      }
    }
  }

  /** Multiplying by a natural number keeps the order. */
  lemma {:induction false} MulMonotone(a: nat, b: nat, c: nat)
    requires b <= c
    ensures a * b <= a * c
  {
    if a > 0 {
      MulMonotone(a - 1, b, c);
      assert a * b == (a - 1) * b + b;
      assert a * c == (a - 1) * c + c;
    }
  }

  /** The virtual index (n - 1) * q / 100 of the q-th percentile, times 100. */
  function ScaledRank(last: nat, q: nat): (k: nat)
    requires q <= 100
    ensures k <= last * 100
    ensures q == 0 ==> k == 0
    ensures q == 100 ==> k == last * 100
  {
    MulMonotone(last, q, 100);
    last * q
  }

  /** A higher percentile has a higher rank. */
  lemma ScaledRankMonotone(last: nat, q1: nat, q2: nat)
    requires q1 <= q2 <= 100
    ensures ScaledRank(last, q1) <= ScaledRank(last, q2)
  {
    MulMonotone(last, q1, q2);
  }

  /** Dividing a whole multiple of 100 leaves no fraction. */
  lemma DivHundred(n: nat)
    ensures (n * 100) / 100 == n && (n * 100) % 100 == 0
  {
  }

  /** `np.percentile(data, q)` for 0 <= q <= 100 on non-empty data. */
  function Percentile(data: seq<real>, q: nat): (r: real)
    requires |data| > 0 && q <= 100
    ensures SortReals(data)[0] <= r <= SortReals(data)[|data| - 1]
    ensures q == 0 ==> r == SortReals(data)[0]
    ensures q == 100 ==> r == SortReals(data)[|data| - 1]
  {
    var t, last := SortReals(data), |data| - 1;
    var k := ScaledRank(last, q);
    assert |t| - 1 == last;
    assert q == 0 ==> k / 100 == 0 && k % 100 == 0;
    assert q == 100 ==> k / 100 == last && k % 100 == 0 by {
      if q == 100 { DivHundred(last); }
    }
    Interpolate(t, k)
  }

  /** A percentile lies between the smallest and the largest data value. */
  lemma PercentileInRange(data: seq<real>, q: nat)
    requires |data| > 0 && q <= 100
    ensures exists i :: 0 <= i < |data| && data[i] <= Percentile(data, q)
    ensures exists j :: 0 <= j < |data| && Percentile(data, q) <= data[j]
  {
    var lo, hi := SortedCopyEnds(data);
    assert data[lo] <= Percentile(data, q) <= data[hi];
  }

  /** A higher percentile is never below a lower one. */
  lemma PercentileMonotone(data: seq<real>, q1: nat, q2: nat)
    requires |data| > 0 && q1 <= q2 <= 100
    ensures Percentile(data, q1) <= Percentile(data, q2)
  {
    var n := |data| - 1;
    ScaledRankMonotone(n, q1, q2);
    InterpolateMonotone(SortReals(data), ScaledRank(n, q1), ScaledRank(n, q2));
  }

  /** The percentile depends only on the values, not on their order. */
  lemma PercentileOrderFree(a: seq<real>, b: seq<real>, q: nat)
    requires |a| > 0 && q <= 100
    requires multiset(a) == multiset(b)
    ensures |b| == |a| && Percentile(a, q) == Percentile(b, q)
  {
    assert |a| == |multiset(a)| == |multiset(b)| == |b|;
    SortedUnique(SortReals(a), SortReals(b));
  }

  /** Every percentile of constant data is that constant. */
  lemma PercentileConstant(data: seq<real>, q: nat, c: real)
    requires |data| > 0 && q <= 100
    requires forall i :: 0 <= i < |data| ==> data[i] == c
    ensures Percentile(data, q) == c
  {
    var lo, hi := SortedCopyEnds(data);
  }
}
