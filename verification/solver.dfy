/**
 The solver: tries mark counts 2, 3, ..., length + 1 in increasing order and
 returns the first ruler the placement search finds, so that no ruler with
 fewer marks exists.
 */
module Solver {
  import opened Coverage
  import opened Placement

  /** The ruler with a mark at every integer `0..maxLength`. */
  function FullRuler(maxLength: nat): seq<int>
  {
    seq(maxLength + 1, i => i)
  }

  /** The full ruler is a ruler and measures every distance `1..maxLength`:
      distance `d` is the pair of marks at 0 and `d`. */
  lemma FullRulerIsRuler(maxLength: nat)
    ensures IsRuler(FullRuler(maxLength), maxLength)
    ensures |FullRuler(maxLength)| == maxLength + 1
  {
    var r := FullRuler(maxLength);
    forall d | 1 <= d <= maxLength ensures Measurable(r, d) {
      assert Abs(r[d] - r[0]) == d;
    }
  }

  /** No ruler for a positive length has fewer than two marks: a single
      mark measures nothing. */
  lemma RulerHasTwoMarks(r: seq<int>, maxLength: int)
    requires maxLength >= 1 && IsRuler(r, maxLength)
    ensures |r| >= 2
  {
    assert Measurable(r, 1);
  }

  /** `marks` is what the solver promises for `length`: a ruler measuring
      every distance `1..length`, with no ruler having fewer marks, and no
      ruler with as many marks coming before it lexicographically. */
  ghost predicate Solution(marks: seq<int>, length: int)
  {
    && IsRuler(marks, length)
    && (forall r :: IsRuler(r, length) ==> |marks| <= |r|)
    && (forall r :: IsRuler(r, length) && |r| == |marks| ==> !LexBefore(r, marks))
  }

  /** Tries each mark count from 2 up to `length + 1` and returns the first
      non-empty placement, or the empty sequence when every count fails. */
  method FindFewestMarks(length: int) returns (marks: seq<int>)
    ensures length <= 0 ==> marks == []
    ensures length >= 1 ==> marks != []
    ensures marks != [] ==> Solution(marks, length)
    ensures marks != [] ==> marks == BacktrackRuler(length, |marks|)
  {
    var markCount := 2;
    while markCount <= length + 1
      invariant 2 <= markCount
      invariant length >= 1 ==> markCount <= length + 2
      invariant forall k :: 2 <= k < markCount ==> BacktrackRuler(length, k) == []
    {
      var result := BacktrackRuler(length, markCount);
      if result != [] {
        forall r | IsRuler(r, length) ensures markCount <= |r| {
          RulerHasTwoMarks(r, length);
          if |r| < markCount {
            BacktrackRulerComplete(length, |r|, r);
          }
        }
        forall r | IsRuler(r, length) && |r| == markCount ensures !LexBefore(r, result) {
          BacktrackRulerFirst(length, markCount, r);
        }
        return result;
      }
      markCount := markCount + 1;
    }
    if length >= 1 {
      FullRulerIsRuler(length);
      BacktrackRulerComplete(length, length + 1, FullRuler(length));
      assert false;
    }
    return [];
  }

  /** Length 1 is solved by the marks 0 and 1. */
  lemma SolutionForOne(marks: seq<int>)
    requires Solution(marks, 1)
    ensures marks == [0, 1]
  {
    FullRulerIsRuler(1);
    RulerHasTwoMarks(marks, 1);
    assert FullRuler(1) == [0, 1];
  }

  /** Length 3 is solved by the marks 0, 1 and 3: two marks measure one
      distance only, and of the two 3-mark rulers, 0, 1, 3 comes first. */
  lemma SolutionForThree(marks: seq<int>)
    requires Solution(marks, 3)
    ensures marks == [0, 1, 3]
  {
    var best := [0, 1, 3];
    ThreeMarkedByThree();
    AscendingFromSteps(best);
    assert IsRuler(best, 3);
    CoversNeedsPairs(marks, 3);
    assert |marks| == 3;
    assert Measurable(marks, 3);
    assert marks[2] == 3;
  }

  /** Length 6 takes four marks: three marks measure at most three
      distances, and 0, 1, 4, 6 measures all six. */
  lemma SolutionForSix(marks: seq<int>)
    requires Solution(marks, 6)
    ensures |marks| == 4
  {
    FourMarkRulerForSix();
    CoversNeedsPairs(marks, 6);
  }

  lemma FourMarkRulerForSix()
    ensures IsRuler([0, 1, 4, 6], 6)
  {
    var r := [0, 1, 4, 6];
    SixMarkedByFour();
    assert CanMeasureAll(r, 6);
    AscendingFromSteps(r);
  }

  /** Marks that increase from each one to the next strictly increase. */
  lemma AscendingFromSteps(s: seq<int>)
    requires forall k :: 0 <= k < |s| - 1 ==> s[k] < s[k + 1]
    ensures Ascending(s)
  {
    forall i, j | 0 <= i < j < |s| ensures s[i] < s[j] {
      StepsChain(s, i, j);
    }
  }

  lemma {:induction false} StepsChain(s: seq<int>, i: int, j: int)
    requires forall k :: 0 <= k < |s| - 1 ==> s[k] < s[k + 1]
    requires 0 <= i < j < |s|
    ensures s[i] < s[j]
    decreases j - i
  {
    if j > i + 1 {
      StepsChain(s, i, j - 1);
    }
  }
}
