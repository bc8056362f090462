# Minimal integer ruler search, modelled in Dafny

The program takes a ruler length X. It finds the fewest integer marks, the
first at 0, such that every distance 1..X is the difference of some pair of
marks. It does this in three layers:

- **Coverage check** (`canMeasureAll`). It collects every pairwise distance
  `|marks[j] - marks[i]|` with `i < j` into a set. It then looks up 1, 2, …,
  X in order and fails at the first missing one.
- **Placement search** (`backtrackRuler`, `backtrack`). It seeds a shared
  working vector with the mark 0. It then searches depth first. At each
  level it pushes a candidate position `i`, going up from `nextStart` to X,
  and searches on from `i + 1`. When the vector holds the requested number
  of marks, it runs the coverage check. A failed branch pops `i`.
- **Solver** (`findFewestMarks`). It tries mark counts 2, 3, …, X + 1 in
  turn and returns the first placement found. If none is found, it returns
  the empty vector.

The project has three modules, one per layer:

- `coverage.dfy` (module `Coverage`): the checker, and the index-pair
  meaning `Covers` it is proved equal to.
- `placement.dfy` (module `Placement`): the search as two mutually
  recursive functions. `Backtrack` is one level. `TryFrom` is its loop over
  candidate positions.
- `solver.dfy` (module `Solver`): the outer loop as a method with loop
  invariants.

The shared `currentMarks` vector is threaded through the search. Every call
takes the vector as it is on entry. It returns a `Step`: the vector it
returns (empty means failure) and the working vector as it leaves it. A pop
is `marks[..|marks| - 1]`. It is well defined only because the deeper call
is proved to leave the vector as it found it. This is the push/pop
restoration discipline.

## Model

| member | source | states |
|---|---|---|
| Coverage.CanMeasureAll | integer-ruler-cpp/integer-ruler-cpp.cpp:141-165 | The checker is true exactly when every distance d in 1..maxLength equals `|marks[j] - marks[i]|` for some indices i < j. It is vacuously true when maxLength ≤ 0. |
| Coverage.AllPresent | integer-ruler-cpp/integer-ruler-cpp.cpp:155-164 | The ascending lookup with early exit is true exactly when every value lo..hi is in the set of differences. |
| Coverage.CoversDependsOnlyOnMarkSet | integer-ruler-cpp/integer-ruler-cpp.cpp:146-151 | Pairs are gathered as i < j, but the distance is absolute. So coverage depends only on which positions are marked, not on their order or on repeated marks. |
| Coverage.DistancesTo | integer-ruler-cpp/integer-ruler-cpp.cpp:146-152 | One mark adds at most one new distance for each mark listed before it. The loops gather pair i < j under its earlier index i; the model gathers it under its later index j, which yields the same set (see DiffsMembers). |
| Coverage.DistancesToMembers | integer-ruler-cpp/integer-ruler-cpp.cpp:146-152 | The distances mark j contributes are exactly its distances to the marks before it. The model groups each pair under its later index, where the loops group it under the earlier one. |
| Coverage.DiffsMembers | integer-ruler-cpp/integer-ruler-cpp.cpp:143-152 | This gives the meaning of `Diffs`, the model of the pair-gathering loops. The difference set holds exactly the distances `|marks[j] - marks[i]|` with i < j: nothing missing, nothing extra. |
| Coverage.Diffs | integer-ruler-cpp/integer-ruler-cpp.cpp:143-152 | The set the pair-gathering loops build has at most k(k-1)/2 elements for k marks, one per pair. Its exact contents are stated by DiffsMembers. |
| Coverage.CoversNeedsPairs | integer-ruler-cpp/integer-ruler-cpp.cpp:141-165 | Marks that pass the check for maxLength have at least maxLength pairs: maxLength ≤ k(k-1)/2. |
| Coverage.ThreeMarkedByThree | integer-ruler-cpp/integer-ruler-cpp.cpp:141-165 | Worked case: the marks 0, 1, 3 pass the check for length 3. |
| Coverage.ZeroTwoFiveMissesOne | integer-ruler-cpp/integer-ruler-cpp.cpp:155-160 | Worked case: the marks 0, 2, 5 fail the check for length 3, because distance 1 is missing. |
| Coverage.SixMarkedByFour | integer-ruler-cpp/integer-ruler-cpp.cpp:141-165 | Worked case: the marks 0, 1, 4, 6 pass the check for length 6. |
| Placement.Backtrack | integer-ruler-cpp/integer-ruler-cpp.cpp:100-129 | After a failure the working vector is what it was on entry. After a success it holds exactly the returned candidate. |
| Placement.TryFrom | integer-ruler-cpp/integer-ruler-cpp.cpp:113-128 | The loop's push/recurse/pop leaves the working vector as it was on entry after a failure, and equal to the result after a success. |
| Placement.BacktrackSound | integer-ruler-cpp/integer-ruler-cpp.cpp:100-129 | A non-empty result is the entry vector followed by strictly increasing positions from nextStart..maxLength. It has exactly numMarks marks and covers 1..maxLength. |
| Placement.TryFromSound | integer-ruler-cpp/integer-ruler-cpp.cpp:113-122 | The same soundness holds for the loop started at candidate i. |
| Placement.BacktrackComplete | integer-ruler-cpp/integer-ruler-cpp.cpp:100-129 | Suppose some strictly increasing extension drawn from nextStart..maxLength gives numMarks marks that cover 1..maxLength. Then the search does not return empty, unless that candidate is itself empty. |
| Placement.TryFromComplete | integer-ruler-cpp/integer-ruler-cpp.cpp:113-128 | The loop from i does not fail when an accepted extension with all positions ≥ i exists. |
| Placement.BacktrackFirst | integer-ruler-cpp/integer-ruler-cpp.cpp:113-122 | Candidates are tried in ascending order. So no accepted extension comes lexicographically before the one returned. |
| Placement.TryFromFirst | integer-ruler-cpp/integer-ruler-cpp.cpp:113-128 | The loop from i returns the lexicographically first accepted extension with all positions ≥ i. |
| Placement.PlacedFirst | integer-ruler-cpp/integer-ruler-cpp.cpp:115-121 | When pushing i leads to a success, no accepted extension from i comes before the one found. |
| Placement.BacktrackRuler | integer-ruler-cpp/integer-ruler-cpp.cpp:79-86 | A non-empty result has numMarks marks. Its first mark is 0, the marks strictly increase, and the others lie in 1..maxLength. It covers 1..maxLength, and for maxLength ≥ 0 it is a ruler. |
| Placement.BacktrackRulerComplete | integer-ruler-cpp/integer-ruler-cpp.cpp:79-86 | The seeded search finds a candidate whenever a covering ruler with numMarks marks exists. |
| Placement.BacktrackRulerFirst | integer-ruler-cpp/integer-ruler-cpp.cpp:79-86 | The seeded search returns the lexicographically first covering ruler with numMarks marks. |
| Solver.FullRulerIsRuler | integer-ruler-cpp/integer-ruler-cpp.cpp:55 | Marks at every integer 0..X form a covering ruler of X + 1 marks. So the last count the loop tries always succeeds. |
| Solver.RulerHasTwoMarks | integer-ruler-cpp/integer-ruler-cpp.cpp:55 | A covering ruler for X ≥ 1 has at least two marks. So starting the loop at 2 skips nothing. |
| Solver.FindFewestMarks | integer-ruler-cpp/integer-ruler-cpp.cpp:52-67 | For length ≤ 0 the result is empty. For length ≥ 1 it is non-empty and is the seeded search's result at its own count. It is a covering ruler, no covering ruler has fewer marks, and none with as many marks comes before it lexicographically. |
| Solver.SolutionForOne | integer-ruler-cpp/integer-ruler-cpp.cpp:52-67 | For X = 1 the solver's promise forces the marks 0, 1. |
| Solver.SolutionForThree | integer-ruler-cpp/integer-ruler-cpp.cpp:52-67 | For X = 3 the solver's promise forces the marks 0, 1, 3. |
| Solver.SolutionForSix | integer-ruler-cpp/integer-ruler-cpp.cpp:52-67 | For X = 6 the solver's promise forces exactly four marks. |

## Left out

- `main` (integer-ruler-cpp/integer-ruler-cpp.cpp:15-40) is left out. It only reads X from the console and prints the count and the marks.
- The `unordered_set` of differences is a Dafny `set<int>`. Hashing is a library concern and cannot change which values are in the set.
- Integer widths are unbounded. The model does not wrap `length + 1` (line 55) or `i + 1` (line 118) at the 32-bit `int` limit. It reads `static_cast<size_t>(numMarks)` (line 103) as plain integer equality: a negative count never equals a size in either reading.
- Running time is not modelled. The search is exponential by design; the model proves termination, not cost.
- `canMeasureAll` takes its vector by const reference and has no side effects. It is a pure function here, so that property holds by construction.
- Solver.FindFewestMarks: minimality covers rulers, meaning marks starting at 0, strictly increasing and within 0..X. That is the whole space the search explores. Arbitrary integer mark sets, which may reach beyond X, are not compared.
- For length ≤ 0 the code returns the empty vector, and the model follows the code. `main` passes whatever `cin` read straight to `findFewestMarks` (lines 21-24), so nothing rejects a length ≤ 0.
- A successful empty candidate reads as failure. This happens only when the search starts from an empty vector with a count of 0 and a length ≤ 0, because the empty vector doubles as the failure signal. Placement.BacktrackComplete therefore excludes that candidate. The seeded search always starts from the mark 0, so it never meets this case.
- For a count of 1 and a negative length, the seeded search returns the single mark 0 (it covers nothing, vacuously). 0 then exceeds the length. Placement.BacktrackRuler therefore states "all marks ≤ maxLength" only for maxLength ≥ 0.
