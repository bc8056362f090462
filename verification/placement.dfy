/**
 The placement search: a depth-first backtracking search that extends a
 working sequence of marks with strictly increasing positions until it holds
 the requested number of marks, and accepts the first candidate that passes
 the coverage check.

 The working sequence is shared by every level of the search and changed by
 push and pop. The model threads it through the calls: every call takes the
 sequence as it is on entry and returns, next to its result, the sequence as
 it is left on exit.
 */
module Placement {
  import opened Coverage

  /** The outcome of one search call: the vector it returns (empty for
      failure) and the working sequence of marks as the call leaves it. */
  datatype Step = Step(result: seq<int>, marks: seq<int>)

  /** Positions strictly increase. */
  ghost predicate Ascending(s: seq<int>)
  {
    forall i, j :: 0 <= i < j < |s| ==> s[i] < s[j]
  }

  /** Every position lies in `lo..hi`. */
  ghost predicate Within(s: seq<int>, lo: int, hi: int)
  {
    forall k :: 0 <= k < |s| ==> lo <= s[k] <= hi
  }

  /** `ext` is a way the search may extend the working sequence when it
      starts placing at `nextStart`: strictly increasing positions drawn from
      `nextStart..maxLength`. */
  ghost predicate Extension(ext: seq<int>, nextStart: int, maxLength: int)
  {
    Ascending(ext) && Within(ext, nextStart, maxLength)
  }

  /** `prefix + ext` is a candidate the search accepts: it has exactly
      `numMarks` marks and measures every distance `1..maxLength`. */
  ghost predicate Completes(prefix: seq<int>, ext: seq<int>, nextStart: int, maxLength: int, numMarks: int)
  {
    Extension(ext, nextStart, maxLength) && |prefix + ext| == numMarks && Covers(prefix + ext, maxLength)
  }

  /** How many candidate positions remain from `i` on. */
  function Room(i: int, maxLength: int): nat
  {
    if i <= maxLength + 1 then maxLength + 1 - i else 0
  }

  /** One level of the search: check a full candidate, or try each next
      position from `nextStart` on. Whatever it returns, the working sequence
      is left as it was on entry after a failure, and holds exactly the
      returned candidate after a success. */
  function Backtrack(nextStart: int, maxLength: int, numMarks: int, marks: seq<int>): (s: Step)
    ensures s.result == [] ==> s.marks == marks
    ensures s.result != [] ==> s.marks == s.result
    decreases Room(nextStart, maxLength), 1
  {
    if |marks| == numMarks then
      if CanMeasureAll(marks, maxLength) then Step(marks, marks) else Step([], marks)
    else
      TryFrom(nextStart, maxLength, numMarks, marks)
  }

  /** The loop over candidate positions `i..maxLength`: push `i`, search one
      level deeper from `i + 1`, stop at the first success, otherwise pop `i`
      and move on. */
  function TryFrom(i: int, maxLength: int, numMarks: int, marks: seq<int>): (s: Step)
    ensures s.result == [] ==> s.marks == marks
    ensures s.result != [] ==> s.marks == s.result
    decreases Room(i, maxLength), 0
  {
    if i > maxLength then Step([], marks)
    else
      var s := Backtrack(i + 1, maxLength, numMarks, marks + [i]);
      if s.result != [] then s
      else TryFrom(i + 1, maxLength, numMarks, s.marks[..|s.marks| - 1])
  }

  /** Seeds the working sequence with the mark at 0 and searches from 1.
      A non-empty result has `numMarks` marks, the first at 0, strictly
      increasing, the others in `1..maxLength`, and measures every distance
      `1..maxLength`; for a length of at least 0 it is a ruler. */
  function BacktrackRuler(maxLength: int, numMarks: int): (r: seq<int>)
    ensures r != [] ==> && |r| == numMarks && r[0] == 0 && Ascending(r)
                        && Within(r[1..], 1, maxLength) && Covers(r, maxLength)
                        && (maxLength >= 0 ==> IsRuler(r, maxLength))
  {
    var r := Backtrack(1, maxLength, numMarks, [0]).result;
    BacktrackSound(1, maxLength, numMarks, [0]);
    if r != [] then SeededShape(r, maxLength, numMarks); r else r
  }

  /** Soundness: a successful search returns the entry sequence followed by
      an extension the search may place, with `numMarks` marks in all, and
      the result measures every distance `1..maxLength`. */
  lemma {:induction false} BacktrackSound(nextStart: int, maxLength: int, numMarks: int, marks: seq<int>)
    ensures var r := Backtrack(nextStart, maxLength, numMarks, marks).result;
            r != [] ==> |marks| <= |r| && r[..|marks|] == marks
                        && Completes(marks, r[|marks|..], nextStart, maxLength, numMarks)
    decreases Room(nextStart, maxLength), 1
  {
    if |marks| != numMarks {
      TryFromSound(nextStart, maxLength, numMarks, marks);
    } else {
      var r := Backtrack(nextStart, maxLength, numMarks, marks).result;
      if r != [] {
        assert r == marks && r[|marks|..] == [];
        assert marks + [] == marks;
      }
    }
  }

  /** Soundness of the loop over candidate positions from `i`. */
  lemma {:induction false} TryFromSound(i: int, maxLength: int, numMarks: int, marks: seq<int>)
    ensures var r := TryFrom(i, maxLength, numMarks, marks).result;
            r != [] ==> |marks| <= |r| && r[..|marks|] == marks
                        && Completes(marks, r[|marks|..], i, maxLength, numMarks)
    decreases Room(i, maxLength), 0
  {
    if i <= maxLength {
      var s := Backtrack(i + 1, maxLength, numMarks, marks + [i]);
      BacktrackSound(i + 1, maxLength, numMarks, marks + [i]);
      if s.result != [] {
        var r := s.result;
        var n := |marks|;
        var tail := r[n + 1..];
        assert r[..n + 1] == marks + [i];
        assert r[..n] == marks by {
          assert r[..n] == r[..n + 1][..n];
        }
        assert r[n..] == [i] + tail by {
          assert r[n..n + 1] == r[..n + 1][n..] == [i];
          assert r[n..] == r[n..n + 1] + tail;
        }
        assert (marks + [i]) + tail == marks + r[n..];
        ExtensionCons(i, tail, i, maxLength);
      } else {
        TryFromSound(i + 1, maxLength, numMarks, marks);
      }
    }
  }

  /** Placing `i` in front of an extension that starts after `i`. */
  lemma ExtensionCons(i: int, tail: seq<int>, nextStart: int, maxLength: int)
    requires nextStart <= i <= maxLength
    requires Extension(tail, i + 1, maxLength)
    ensures Extension([i] + tail, nextStart, maxLength)
  {
  }

  /** Completeness: when some extension the search may place completes the
      entry sequence into an accepted candidate, the search does not fail.
      The one exception is the empty candidate, which reads as failure. */
  lemma {:induction false} BacktrackComplete(nextStart: int, maxLength: int, numMarks: int, marks: seq<int>, ext: seq<int>)
    requires Completes(marks, ext, nextStart, maxLength, numMarks)
    requires marks + ext != []
    ensures Backtrack(nextStart, maxLength, numMarks, marks).result != []
    decreases Room(nextStart, maxLength), 1
  {
    if |marks| == numMarks {
      assert ext == [];
      assert marks + ext == marks;
    } else {
      TryFromComplete(nextStart, maxLength, numMarks, marks, ext);
    }
  }

  /** Completeness of the loop over candidate positions from `i`. */
  lemma {:induction false} TryFromComplete(i: int, maxLength: int, numMarks: int, marks: seq<int>, ext: seq<int>)
    requires Completes(marks, ext, i, maxLength, numMarks)
    requires ext != []
    ensures TryFrom(i, maxLength, numMarks, marks).result != []
    decreases Room(i, maxLength), 0
  {
    assert i <= ext[0] <= maxLength;
    var s := Backtrack(i + 1, maxLength, numMarks, marks + [i]);
    if s.result == [] {
      if ext[0] == i {
        CompletesPlaceFirst(marks, ext, i, maxLength, numMarks);
        BacktrackComplete(i + 1, maxLength, numMarks, marks + [i], ext[1..]);
        assert false;
      } else {
        assert s.marks[..|s.marks| - 1] == marks;
        CompletesSkipFirst(marks, ext, i, maxLength, numMarks);
        TryFromComplete(i + 1, maxLength, numMarks, marks, ext);
      }
    }
  }

  /** An accepted extension starting at `i`, with `i` placed, leaves an
      accepted extension of the longer sequence from `i + 1`. */
  lemma CompletesPlaceFirst(marks: seq<int>, ext: seq<int>, i: int, maxLength: int, numMarks: int)
    requires Completes(marks, ext, i, maxLength, numMarks)
    requires ext != [] && ext[0] == i
    ensures Completes(marks + [i], ext[1..], i + 1, maxLength, numMarks)
  {
    assert ext == [i] + ext[1..];
    assert (marks + [i]) + ext[1..] == marks + ext;
  }

  /** An accepted extension from `i` that does not place `i` is an accepted
      extension from `i + 1`. */
  lemma CompletesSkipFirst(marks: seq<int>, ext: seq<int>, i: int, maxLength: int, numMarks: int)
    requires Completes(marks, ext, i, maxLength, numMarks)
    requires ext != [] && ext[0] != i
    ensures Completes(marks, ext, i + 1, maxLength, numMarks)
  {
  }

  /** `a` comes strictly before `b` in lexicographic order: they agree up to
      some index where `a` holds the smaller position. */
  ghost predicate LexBefore(a: seq<int>, b: seq<int>)
  {
    exists p :: 0 <= p < |a| && p < |b| && a[..p] == b[..p] && a[p] < b[p]
  }

  /** Because positions are tried in ascending order, a successful search
      returns the lexicographically first accepted extension: no accepted
      extension comes before the one it placed. */
  lemma {:induction false} BacktrackFirst(nextStart: int, maxLength: int, numMarks: int, marks: seq<int>, ext: seq<int>)
    requires Completes(marks, ext, nextStart, maxLength, numMarks)
    ensures var r := Backtrack(nextStart, maxLength, numMarks, marks).result;
            r != [] ==> |marks| <= |r| && !LexBefore(ext, r[|marks|..])
    decreases Room(nextStart, maxLength), 2
  {
    BacktrackSound(nextStart, maxLength, numMarks, marks);
    if |marks| != numMarks {
      TryFromFirst(nextStart, maxLength, numMarks, marks, ext);
    }
  }

  /** The loop over candidate positions from `i` returns the first
      accepted extension. */
  lemma {:induction false} TryFromFirst(i: int, maxLength: int, numMarks: int, marks: seq<int>, ext: seq<int>)
    requires Completes(marks, ext, i, maxLength, numMarks)
    requires ext != []
    ensures var r := TryFrom(i, maxLength, numMarks, marks).result;
            r != [] ==> |marks| <= |r| && !LexBefore(ext, r[|marks|..])
    decreases Room(i, maxLength), 1
  {
    TryFromSound(i, maxLength, numMarks, marks);
    var s := Backtrack(i + 1, maxLength, numMarks, marks + [i]);
    if s.result != [] {
      PlacedFirst(i, maxLength, numMarks, marks, ext);
    } else {
      if ext[0] == i {
        CompletesPlaceFirst(marks, ext, i, maxLength, numMarks);
        BacktrackComplete(i + 1, maxLength, numMarks, marks + [i], ext[1..]);
        assert false;
      }
      assert s.marks[..|s.marks| - 1] == marks;
      CompletesSkipFirst(marks, ext, i, maxLength, numMarks);
      TryFromFirst(i + 1, maxLength, numMarks, marks, ext);
    }
  }

  /** When placing `i` leads to a success, no accepted extension from `i`
      comes before the placed one. */
  lemma {:induction false} PlacedFirst(i: int, maxLength: int, numMarks: int, marks: seq<int>, ext: seq<int>)
    requires Completes(marks, ext, i, maxLength, numMarks)
    requires ext != []
    ensures var r := Backtrack(i + 1, maxLength, numMarks, marks + [i]).result;
            r != [] ==> |marks| < |r| && !LexBefore(ext, r[|marks|..])
    decreases Room(i, maxLength), 0
  {
    assert i <= ext[0] <= maxLength;
    var r := Backtrack(i + 1, maxLength, numMarks, marks + [i]).result;
    BacktrackSound(i + 1, maxLength, numMarks, marks + [i]);
    if r != [] {
      var n := |marks|;
      PlacedSplit(marks, i, r);
      if LexBefore(ext, r[n..]) {
        LexBeforeTail(ext, r[n..]);
        CompletesPlaceFirst(marks, ext, i, maxLength, numMarks);
        BacktrackFirst(i + 1, maxLength, numMarks, marks + [i], ext[1..]);
        assert false;
      }
    }
  }

  /** A result that extends `marks + [i]` is `i` followed by the rest. */
  lemma PlacedSplit(marks: seq<int>, i: int, r: seq<int>)
    requires |marks| + 1 <= |r| && r[..|marks| + 1] == marks + [i]
    ensures r[|marks|..] == [i] + r[|marks| + 1..]
    ensures r[|marks|..][1..] == r[|marks| + 1..]
  {
  }

  /** Lexicographic order on sequences whose first elements are ordered the
      other way reduces to the order on their tails. */
  lemma LexBeforeTail(a: seq<int>, b: seq<int>)
    requires |a| > 0 && |b| > 0 && a[0] >= b[0]
    requires LexBefore(a, b)
    ensures a[0] == b[0] && LexBefore(a[1..], b[1..])
  {
    var p :| 0 <= p < |a| && p < |b| && a[..p] == b[..p] && a[p] < b[p];
    assert p > 0;
    assert a[0] == a[..p][0] == b[..p][0] == b[0];
    var q := p - 1;
    assert a[1..][..q] == a[..p][1..];
    assert b[1..][..q] == b[..p][1..];
    assert a[1..][q] == a[p] && b[1..][q] == b[p];
  }

  /** A ruler for length `maxLength`: the first mark at 0, marks strictly
      increasing, none beyond `maxLength`. */
  ghost predicate RulerShape(r: seq<int>, maxLength: int)
  {
    |r| > 0 && r[0] == 0 && Ascending(r) && Within(r, 0, maxLength)
  }

  /** A ruler that measures every distance `1..maxLength`. */
  ghost predicate IsRuler(r: seq<int>, maxLength: int)
  {
    RulerShape(r, maxLength) && Covers(r, maxLength)
  }

  /** An accepted extension of the seed `[0]`, placed from 1, makes a
      sequence of the shape the seeded search promises. */
  lemma SeededShape(r: seq<int>, maxLength: int, numMarks: int)
    requires 1 <= |r| && r[..1] == [0]
    requires Completes([0], r[1..], 1, maxLength, numMarks)
    ensures && |r| == numMarks && r[0] == 0 && Ascending(r)
            && Within(r[1..], 1, maxLength) && Covers(r, maxLength)
            && (maxLength >= 0 ==> IsRuler(r, maxLength))
  {
    assert r == [0] + r[1..];
    assert r[0] == 0;
    assert Ascending(r) by {
      var hi := if maxLength < 0 then 0 else maxLength;
      ExtensionCons(0, r[1..], 0, hi);
    }
  }

  /** A ruler, without its mark at 0, is an accepted extension of the seed. */
  lemma RulerCompletesSeed(r: seq<int>, maxLength: int)
    requires IsRuler(r, maxLength)
    ensures [0] + r[1..] == r
    ensures Completes([0], r[1..], 1, maxLength, |r|)
  {
  }

  /** A search seeded with the mark at 0 finds a candidate of `numMarks`
      marks whenever some ruler of that many marks exists. */
  lemma BacktrackRulerComplete(maxLength: int, numMarks: int, r: seq<int>)
    requires IsRuler(r, maxLength) && |r| == numMarks
    ensures BacktrackRuler(maxLength, numMarks) != []
  {
    RulerCompletesSeed(r, maxLength);
    BacktrackComplete(1, maxLength, numMarks, [0], r[1..]);
  }

  /** The search seeded with the mark at 0 returns the lexicographically
      first ruler among all rulers with `numMarks` marks. */
  lemma BacktrackRulerFirst(maxLength: int, numMarks: int, r: seq<int>)
    requires IsRuler(r, maxLength) && |r| == numMarks
    ensures BacktrackRuler(maxLength, numMarks) != []
    ensures !LexBefore(r, BacktrackRuler(maxLength, numMarks))
  {
    var res := BacktrackRuler(maxLength, numMarks);
    BacktrackRulerComplete(maxLength, numMarks, r);
    RulerCompletesSeed(r, maxLength);
    BacktrackFirst(1, maxLength, numMarks, [0], r[1..]);
    if LexBefore(r, res) {
      LexBeforeTail(r, res);
      assert false;
    }
  }
}
