# mindmatch pre-processing, modelled in Dafny

This project models the two hand-written steps of the matcher in
`paper_reviewer_matcher/mindmatch.py` and proves properties about them:

- **`compute_conflicts`** builds the conflict-of-interest list. Every roster
  row `i` has a `conflicts` text. It is split on `sep`, and each piece is
  scored against the `fullname` of every row `j`. When the best score reaches
  `ratio`, the couple `[i, j]`, `[j, i]` is appended to the list.
- **`perform_mindmatch`**, around its solver call, edits the square affinity
  matrix `A` in place:
  - it writes the sentinel -1000 on the diagonal;
  - it keeps the conflict pairs whose indices are at most `len(A)`;
  - it overwrites every row those pairs name with the sentinel;
  - it zeroes the `n_trim` smallest entries of each row, through a row view,
    and stacks the rows into `A_trim`;
  - it hands `A_trim` to the assignment step and reports "does not converge"
    exactly when the assignment sums to zero.

Modules:

| file | module | contents |
|---|---|---|
| `wrappers.dfy` | `Wrappers` | `Option`, `Result`, `Outcome` and the `Error` values standing for the Python exceptions |
| `strings.dfy` | `Strings` | Python's `str.find` and `str.split(sep)` with an explicit separator, and their laws |
| `conflicts.dfy` | `Conflicts` | `compute_conflicts` as a method with nested loops, proved against a specification function `ConflictList` |
| `mindmatch.dfy` | `Mindmatch` | `perform_mindmatch` as methods on an `array2<real>`, each proved against a function or a relation on the matrix's values |

Exceptions are modelled as `Err` results that carry the condition Python raises on:

- `EmptySeparator`: `str.split("")` raises `ValueError`. This happens only once a row is visited, so an empty roster returns `[]`.
- `MissingConflictList`: with `cois=None`, line 46 raises `TypeError`. The diagonal has already been written by then.
- `IndexOutOfRange`: line 48 raises `IndexError` for an index outside `[-N, N)`. The matrix is left as line 43 made it.
- `NothingToStack`: with zero rows and `n_trim != 0`, `np.vstack([])` raises `ValueError`.

Points where the code does something its reader may not expect (the model follows the code):

- **Filter bound.** The comment at line 47 says the filter makes sure the pairs are in range. It tests `<=`, so the index `len(A)` passes it and then raises `IndexError` at line 48. Negative indices pass as well, and NumPy wraps them (`BoundaryIndexAdmitted`).
- **Whole rows.** `A[np.array(cois, dtype=int)]` indexes the first axis with a k-by-2 integer array, so line 48 overwrites every whole row named by either index of a kept pair, not only the entries (c1, c2) (`SuppressConflictRows`).
- **Tie order.** `np.argsort`'s default sort is not stable, so trimming is specified by the relation `Trimmed`: any choice of `k` smallest positions. The method `SmallestPositions` picks the stable choice, and that choice meets the specification.
- **`n_trim=None`.** This default passes the test `n_trim != 0`, so `[0:None]` zeroes every entry of every row (`TrimAllZeroes`).
- **Diagonal after trimming.** In a row whose other entries all exceed -1000, the diagonal sentinel is the unique smallest value, so trimming at least one position turns it into 0 (`DiagonalSentinelTrimmed`). This does not hold for a row that line 48 set to -1000 throughout, where argsort may pick any of the equal entries (the stable choice picks column 0, so a diagonal entry further right stays -1000), nor for a row holding an affinity below -1000.

## Model

| member | source | states |
|---|---|---|
| Strings.Find | paper_reviewer_matcher/mindmatch.py:25 | the result is the leftmost index where `sep` occurs, and it is `None` exactly when `sep` occurs nowhere |
| Strings.Pieces | paper_reviewer_matcher/mindmatch.py:25 | `split` with a non-empty separator always yields at least one piece |
| Strings.Split | paper_reviewer_matcher/mindmatch.py:25 | `split` fails exactly when the separator is empty, and the failure is `EmptySeparator`; otherwise it yields at least one piece |
| Strings.JoinPieces | paper_reviewer_matcher/mindmatch.py:25 | joining the pieces with the separator gives back the original text |
| Strings.PiecesAreFree | paper_reviewer_matcher/mindmatch.py:25 | no piece contains the separator |
| Strings.SplitWhole | paper_reviewer_matcher/mindmatch.py:25 | the text stays one piece exactly when the separator does not occur in it |
| Strings.SplitEmpty | paper_reviewer_matcher/mindmatch.py:25 | an empty conflicts text splits into one empty piece, so the `max` at line 27 is defined |
| Conflicts.MaxOf | paper_reviewer_matcher/mindmatch.py:27 | `max` of a non-empty list is an element of the list and no element exceeds it |
| Conflicts.Scores | paper_reviewer_matcher/mindmatch.py:27 | the score list has one score per piece, in piece order |
| Conflicts.HitIff | paper_reviewer_matcher/mindmatch.py:27 | `Hit`, the `max(...) >= ratio` test over a non-empty list of pieces, holds exactly when some single piece scores at least `ratio` against the name |
| Conflicts.Conflicted | paper_reviewer_matcher/mindmatch.py:25-27 | the test of line 27 for rows (i, j) holds exactly when some piece of row i's split text scores at least `ratio` against row j's full name |
| Conflicts.TableOfAt | paper_reviewer_matcher/mindmatch.py:24-27 | entry (i, j) of the roster's test table is the line-27 test for rows i and j |
| Conflicts.ConflictList | paper_reviewer_matcher/mindmatch.py:23-30 | the list lines 23-30 return has even length and at most two entries per ordered pair of rows; the lemmas below characterise it completely |
| Conflicts.AllHeadsLength | paper_reviewer_matcher/mindmatch.py:24-28 | the first `m` rows contribute at most one leading pair per ordered pair of rows |
| Conflicts.AppendRowCouples | paper_reviewer_matcher/mindmatch.py:26-29 | the inner loop appends, in column order, the couple `(i, j), (j, i)` for each column `j` whose test passes, and nothing else |
| Conflicts.ComputeConflicts | paper_reviewer_matcher/mindmatch.py:11-30 | the method fails exactly when the roster is non-empty and the separator is empty, with `EmptySeparator`; otherwise it returns `ConflictList` |
| Conflicts.ConflictsComeInCouples | paper_reviewer_matcher/mindmatch.py:28-29 | the list has even length, every pair at an even position is followed by its swap, and the list is closed under swapping |
| Conflicts.CoupleHeadsInRowMajorOrder | paper_reviewer_matcher/mindmatch.py:24-29 | the list is the leading pairs, each followed by its swap; the leading pairs are strictly in row-major order and lie in range; (i, j) is a leading pair exactly when rows i and j pass the test |
| Conflicts.ConflictMembership | paper_reviewer_matcher/mindmatch.py:24-29 | (a, b) is in the list exactly when both indices are in range and row a's text names row b or row b's text names row a |
| Mindmatch.DiagonalSuppressed | paper_reviewer_matcher/mindmatch.py:43 | after line 43 the diagonal holds -1000, every other entry is unchanged, and the shape is kept |
| Mindmatch.SuppressDiagonal | paper_reviewer_matcher/mindmatch.py:43 | the array's diagonal entries become -1000, its other entries are unchanged, and its contents equal `DiagonalSuppressed` of the old contents |
| Mindmatch.KeepInRange | paper_reviewer_matcher/mindmatch.py:46-47 | a pair survives the filter exactly when it is an input pair with both indices at most `len(A)`; the filter never lengthens the list |
| Mindmatch.KeepInRangeInOrder | paper_reviewer_matcher/mindmatch.py:46-47 | the survivors keep their original order |
| Mindmatch.KeepInRangeAppend | paper_reviewer_matcher/mindmatch.py:46-47 | filtering a concatenation is the concatenation of the filtered parts |
| Mindmatch.BoundaryIndexAdmitted | paper_reviewer_matcher/mindmatch.py:46-48 | the filter lets through the index `len(A)`, which line 48 rejects, and lets through every negative index |
| Mindmatch.Wrap | paper_reviewer_matcher/mindmatch.py:48 | NumPy's reading of an index: an index in `[-N, N)` lands in `[0, N)`, and a non-negative index is read as itself |
| Mindmatch.FillRow | paper_reviewer_matcher/mindmatch.py:48 | one whole-row write: every entry of row `r` becomes -1000 and every other entry of the array is unchanged |
| Mindmatch.RowsSuppressed | paper_reviewer_matcher/mindmatch.py:48 | after line 48 every row named by either index of a kept pair, read as NumPy wraps negatives, holds -1000 throughout; other rows are unchanged |
| Mindmatch.SuppressConflictRows | paper_reviewer_matcher/mindmatch.py:48 | the method fails with `IndexOutOfRange` and leaves the array unchanged exactly when some index lies outside `[-N, N)`; otherwise the named rows become -1000 and the rest are unchanged |
| Mindmatch.SuppressedDiagonal | paper_reviewer_matcher/mindmatch.py:43-48 | after lines 43-48 every diagonal entry still holds -1000 |
| Mindmatch.SuppressedConflicts | paper_reviewer_matcher/mindmatch.py:43-48 | both rows of every kept pair hold -1000 throughout, which covers the entries (c1, c2) and (c2, c1); rows no pair names are as line 43 left them |
| Mindmatch.NoConflictsNoChange | paper_reviewer_matcher/mindmatch.py:48 | an empty conflict list leaves the matrix unchanged |
| Mindmatch.TrimCount | paper_reviewer_matcher/mindmatch.py:55 | the slice `[0:n_trim]` of a row's argsort selects `min(n_trim, N)` positions for non-negative `n_trim` and never more than the row has |
| Mindmatch.SmallestPositions | paper_reviewer_matcher/mindmatch.py:55 | the method selects exactly `k` positions in range, and each selected position comes before each unselected one in (value, index) order |
| Mindmatch.TrimRow | paper_reviewer_matcher/mindmatch.py:54-55 | one row is trimmed: `k` positions holding values no larger than any other position become 0, the rest of the row is unchanged, and other rows are untouched |
| Mindmatch.TrimRows | paper_reviewer_matcher/mindmatch.py:51-59 | with `n_trim == 0` the result is `A` itself, unchanged; with no rows stacking fails; otherwise every row of `A` is trimmed independently in place, and `A_trim` is a fresh array of the same shape with the same contents as `A` |
| Mindmatch.TrimNothing | paper_reviewer_matcher/mindmatch.py:58-59 | leaving the matrix as it is counts as trimming zero positions |
| Mindmatch.TrimZeroUnchanged | paper_reviewer_matcher/mindmatch.py:55 | a row trimmed by zero positions is unchanged |
| Mindmatch.TrimAllZeroes | paper_reviewer_matcher/mindmatch.py:51-55 | trimming as many positions as the row has, which is what `n_trim=None` does, zeroes the whole row |
| Mindmatch.TrimKeepsTheRest | paper_reviewer_matcher/mindmatch.py:55 | exactly `N - k` positions of a trimmed row keep their values |
| Mindmatch.DiagonalSentinelTrimmed | paper_reviewer_matcher/mindmatch.py:43-57 | in a row whose diagonal holds -1000 and whose other entries are all larger, trimming at least one position zeroes the diagonal |
| Mindmatch.RowSumZero | paper_reviewer_matcher/mindmatch.py:69 | the sum of a row with no negative entry is non-negative, and it is zero exactly when every entry is zero |
| Mindmatch.SumZero | paper_reviewer_matcher/mindmatch.py:69 | `Sum`, the model of `b.sum()`, is non-negative for a matrix with no negative entry, and zero exactly when every entry is zero |
| Mindmatch.Report | paper_reviewer_matcher/mindmatch.py:69-72 | the status is "does not converge" exactly when the assignment sums to zero |
| Mindmatch.NotConvergedIffEmpty | paper_reviewer_matcher/mindmatch.py:69-72 | for a non-negative assignment, "does not converge" is reported exactly when every entry is zero |
| Mindmatch.PerformMindmatch | paper_reviewer_matcher/mindmatch.py:42-73 | the error cases, in the code's order: `cois=None`, an index out of range, stacking no rows; each leaves the array as far as the code got. Otherwise the array holds the trimmed, suppressed matrix, the assignment is `assign` of it, and the status is its report |

## Left out

- `fuzz.ratio` is foreign code (fuzzywuzzy). It is the function parameter `score`, and nothing is assumed about it.
- `create_lp_matrix`, `linprog` and `create_assignment` (lines 63-67) are not part of this model. Together they are the function parameter `assign`, applied to the trimmed matrix and `n_match`. LP optimality, load bounds and the 0/1 shape of `b` are not modelled.
- pandas `iterrows` yields index labels. The roster is a sequence, so row `i` has the label `i`, as it does for a default `RangeIndex`.
- The roster is reduced to the `fullname` and `conflicts` columns, both of them strings. A non-string cell, such as a NaN for missing text, would raise in Python and is not modelled.
- tqdm progress bars and the two `print` calls are output only. Only the status they announce is modelled, as `Status`.
- NumPy floating point is modelled by `real`. The code only compares entries and writes the constants -1000 and 0, so NaN and rounding are not modelled.
- Line 48 also accepts an empty conflict list, which is a no-op. Index arrays of any other shape cannot arise, because the filter builds a list of pairs.
- `perform_mindmatch` requires a square `A`. The model states this as `a.Length0 == a.Length1`; the code assumes it without checking.
- Calling the conflict computation twice on the same input gives the same list because `ConflictList` is a function. No separate lemma states this.
