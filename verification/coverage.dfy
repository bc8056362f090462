/**
 The coverage check of the integer ruler: do the pairwise distances between
 the marks of a ruler include every integer distance from 1 to the ruler's
 length?
 */
module Coverage {

  function Abs(x: int): nat
  {
    if x < 0 then -x else x
  }

  /** Distance `d` is measured by some pair of marks at indices `i < j`. */
  ghost predicate Measurable(marks: seq<int>, d: int)
  {
    exists i, j :: 0 <= i < j < |marks| && Abs(marks[j] - marks[i]) == d
  }

  /** Every distance `1..maxLength` is measured by the marks. */
  ghost predicate Covers(marks: seq<int>, maxLength: int)
  {
    forall d :: 1 <= d <= maxLength ==> Measurable(marks, d)
  }

  /** The distances from mark `x` to each of the marks `s`. */
  function DistancesTo(x: int, s: seq<int>): (r: set<int>)
    ensures |r| <= |s|
    decreases |s|
  {
    if s == [] then {}
    else DistancesTo(x, s[..|s| - 1]) + {Abs(x - s[|s| - 1])}
  }

  /** The set of all pairwise distances, at most one per pair. The nested
      loops gather each pair `i < j` under its earlier index `i`; here each
      pair is gathered under its later index `j`, as the distances from mark
      `j` to the marks before it. The set is the same, as DiffsMembers
      shows. */
  function Diffs(marks: seq<int>): (r: set<int>)
    ensures |r| <= |marks| * (|marks| - 1) / 2
    decreases |marks|
  {
    if marks == [] then {}
    else
      var n := |marks| - 1;
      PairsStep(n);
      Diffs(marks[..n]) + DistancesTo(marks[n], marks[..n])
  }

  /** Distance `d` separates mark `x` from one of the marks `s`. */
  ghost predicate Reaches(x: int, s: seq<int>, d: int)
  {
    exists i :: 0 <= i < |s| && Abs(x - s[i]) == d
  }

  lemma {:induction false} DistancesToMembers(x: int, s: seq<int>, v: int)
    ensures v in DistancesTo(x, s) <==> Reaches(x, s, v)
    decreases |s|
  {
    if s != [] {
      var n := |s| - 1;
      var init := s[..n];
      DistancesToMembers(x, init, v);
      if v in DistancesTo(x, s) {
        if v !in DistancesTo(x, init) {
          assert Abs(x - s[n]) == v;
        } else {
          var i :| 0 <= i < |init| && Abs(x - init[i]) == v;
          assert s[i] == init[i];
        }
      }
      if Reaches(x, s, v) {
        var i :| 0 <= i < |s| && Abs(x - s[i]) == v;
        if i < n {
          assert init[i] == s[i];
        }
      }
    }
  }

  /** The difference set holds exactly the measurable distances. */
  lemma {:induction false} DiffsMembers(marks: seq<int>, d: int)
    ensures d in Diffs(marks) <==> Measurable(marks, d)
    decreases |marks|
  {
    if marks != [] {
      var n := |marks| - 1;
      DiffsMembers(marks[..n], d);
      DistancesToMembers(marks[n], marks[..n], d);
      MeasurableSnoc(marks[..n], marks[n], d);
      assert marks[..n] + [marks[n]] == marks;
    }
  }

  /** Appending mark `x` measures what the earlier marks measure, plus the
      distances from `x` back to them. */
  lemma MeasurableSnoc(init: seq<int>, x: int, d: int)
    ensures Measurable(init + [x], d) <==> Measurable(init, d) || Reaches(x, init, d)
  {
    var marks := init + [x];
    var n := |init|;
    if Measurable(init, d) {
      var i, j :| 0 <= i < j < |init| && Abs(init[j] - init[i]) == d;
      assert marks[i] == init[i] && marks[j] == init[j];
    }
    if Reaches(x, init, d) {
      var i :| 0 <= i < n && Abs(x - init[i]) == d;
      assert marks[i] == init[i] && marks[n] == x;
    }
    if Measurable(marks, d) {
      MeasurableSplit(init, x, d);
    }
  }

  lemma MeasurableSplit(init: seq<int>, x: int, d: int)
    requires Measurable(init + [x], d)
    ensures Measurable(init, d) || Reaches(x, init, d)
  {
  }

  /** Scans `lo..hi` in ascending order and stops at the first value missing
      from `diffs`. */
  function AllPresent(diffs: set<int>, lo: int, hi: int): (ok: bool)
    ensures ok <==> forall d :: lo <= d <= hi ==> d in diffs
    decreases hi - lo
  {
    if lo > hi then true
    else if lo !in diffs then false
    else AllPresent(diffs, lo + 1, hi)
  }

  /** The checker: gather the differences, then look up each of `1..maxLength`. */
  function CanMeasureAll(marks: seq<int>, maxLength: int): (ok: bool)
    ensures ok <==> Covers(marks, maxLength)
    ensures maxLength <= 0 ==> ok
  {
    var diffs := Diffs(marks);
    assert forall d :: d in diffs <==> Measurable(marks, d) by {
      forall d ensures d in diffs <==> Measurable(marks, d) {
        DiffsMembers(marks, d);
      }
    }
    AllPresent(diffs, 1, maxLength)
  }

  /** Coverage depends only on which positions are marked: neither the order
      in which the marks are listed nor repeated marks change it. */
  lemma CoversDependsOnlyOnMarkSet(a: seq<int>, b: seq<int>, maxLength: int)
    requires forall x :: x in a <==> x in b
    ensures Covers(a, maxLength) <==> Covers(b, maxLength)
  {
    if Covers(a, maxLength) {
      forall d | 1 <= d <= maxLength ensures Measurable(b, d) {
        MeasurableTransfers(a, b, d);
      }
    }
    if Covers(b, maxLength) {
      forall d | 1 <= d <= maxLength ensures Measurable(a, d) {
        MeasurableTransfers(b, a, d);
      }
    }
  }

  /** A positive distance measured in `a` is measured in any `b` that holds
      every mark of `a`. */
  lemma MeasurableTransfers(a: seq<int>, b: seq<int>, d: int)
    requires forall x :: x in a ==> x in b
    requires d >= 1 && Measurable(a, d)
    ensures Measurable(b, d)
  {
    var i, j :| 0 <= i < j < |a| && Abs(a[j] - a[i]) == d;
    assert a[i] in a && a[j] in a;
    var p :| 0 <= p < |b| && b[p] == a[i];
    var q :| 0 <= q < |b| && b[q] == a[j];
    if p < q {
      assert Abs(b[q] - b[p]) == d;
    } else {
      assert q < p;
      assert Abs(b[p] - b[q]) == d;
    }
  }

  lemma PairsStep(n: nat)
    ensures n * (n - 1) / 2 + n == (n + 1) * n / 2
  {
  }

  lemma SubsetCard(a: set<int>, b: set<int>)
    requires a <= b
    ensures |a| <= |b|
  {
    assert b == a + (b - a);
  }

  /** The distances `1..hi`, as many as `hi` when `hi` is not negative. */
  function Span(hi: int): (r: set<int>)
    ensures forall d :: d in r <==> 1 <= d <= hi
    ensures hi >= 0 ==> |r| == hi
    decreases hi
  {
    if hi < 1 then {} else Span(hi - 1) + {hi}
  }

  /** A ruler with `k` marks measures at most `k * (k - 1) / 2` distances,
      so covering `1..maxLength` takes at least that many pairs. */
  lemma CoversNeedsPairs(marks: seq<int>, maxLength: int)
    requires Covers(marks, maxLength)
    ensures maxLength <= |marks| * (|marks| - 1) / 2
  {
    if maxLength > 0 {
      assert Span(maxLength) <= Diffs(marks) by {
        forall d | d in Span(maxLength) ensures d in Diffs(marks) {
          DiffsMembers(marks, d);
        }
      }
      SubsetCard(Span(maxLength), Diffs(marks));
    }
  }

  /** Worked case: `0, 1, 3` measures `1..3`. */
  lemma ThreeMarkedByThree()
    ensures CanMeasureAll([0, 1, 3], 3)
  {
  }

  /** Worked case: `0, 2, 5` does not measure 1. */
  lemma ZeroTwoFiveMissesOne()
    ensures !CanMeasureAll([0, 2, 5], 3)
  {
    var s := [0, 2, 5];
    forall i, j | 0 <= i < j < |s| ensures Abs(s[j] - s[i]) != 1 {
      assert j == 1 || j == 2;
    }
    assert !Measurable(s, 1);
  }

  /** Worked case: `0, 1, 4, 6` measures `1..6`. */
  lemma SixMarkedByFour()
    ensures CanMeasureAll([0, 1, 4, 6], 6)
  {
  }
}
