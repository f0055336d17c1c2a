/**
 * `perform_mindmatch` up to and around the solver call: the square affinity
 * matrix is edited in place (diagonal, conflict rows, per-row trimming), the
 * trimmed matrix goes to the assignment step, and the sum of the assignment
 * decides the reported status.
 *
 * Entries are `real`: the code only compares them and writes constants.
 */
module Mindmatch {
  import opened Wrappers
  import opened Conflicts

  /** The value written for "never match" (lines 43 and 48). */
  const Sentinel: real := -1000.0

  type Matrix = seq<seq<real>>

  // ---------------------------------------------------------------------
  // Reading an array2 as a value

  function RowOf(a: array2<real>, r: nat): (s: seq<real>)
    requires r < a.Length0
    reads a
    ensures |s| == a.Length1 && forall c :: 0 <= c < a.Length1 ==> s[c] == a[r, c]
  {
    seq(a.Length1, c requires 0 <= c < a.Length1 reads a => a[r, c])
  }

  function Contents(a: array2<real>): (m: Matrix)
    reads a
    ensures |m| == a.Length0
    ensures forall r :: 0 <= r < a.Length0 ==> m[r] == RowOf(a, r)
  {
    seq(a.Length0, r requires 0 <= r < a.Length0 reads a => RowOf(a, r))
  }

  /** Every row of `m` has `cols` entries. */
  predicate Rect(m: Matrix, cols: nat) {
    forall r :: 0 <= r < |m| ==> |m[r]| == cols
  }

  lemma ContentsAre(a: array2<real>, m: Matrix)
    requires |m| == a.Length0 && Rect(m, a.Length1)
    requires forall r, c :: 0 <= r < a.Length0 && 0 <= c < a.Length1 ==> a[r, c] == m[r][c]
    ensures Contents(a) == m
  {
    forall r | 0 <= r < |m| ensures Contents(a)[r] == m[r] {
      assert RowOf(a, r) == m[r];
    }
  }

  // ---------------------------------------------------------------------
  // Line 43: the diagonal

  /** The matrix after line 43. */
  function DiagonalSuppressed(m: Matrix): (d: Matrix)
    ensures |d| == |m| && forall r :: 0 <= r < |m| ==> |d[r]| == |m[r]|
    ensures forall r, c :: 0 <= r < |m| && 0 <= c < |m[r]| ==>
      d[r][c] == if r == c then Sentinel else m[r][c]
  {
    seq(|m|, r requires 0 <= r < |m| =>
      seq(|m[r]|, c requires 0 <= c < |m[r]| => if r == c then Sentinel else m[r][c]))
  }

  /** `A[np.arange(len(A)), np.arange(len(A))] = -1000`. */
  method SuppressDiagonal(a: array2<real>)
    requires a.Length0 <= a.Length1
    modifies a
    ensures forall r, c :: 0 <= r < a.Length0 && 0 <= c < a.Length1 ==>
      a[r, c] == if r == c then Sentinel else old(a[r, c])
    ensures Contents(a) == DiagonalSuppressed(old(Contents(a)))
  {
    ghost var before := Contents(a);
    for k := 0 to a.Length0
      invariant forall r, c :: 0 <= r < a.Length0 && 0 <= c < a.Length1 ==>
        a[r, c] == if r == c && r < k then Sentinel else old(a[r, c])
    {
      a[k, k] := Sentinel;
    }
    ContentsAre(a, DiagonalSuppressed(before));
  }

  // ---------------------------------------------------------------------
  // Lines 46-47: the conflict filter

  /** The test of line 47: both indices at most `n` (negative ones pass). */
  predicate Admitted(p: Pair, n: int) {
    p.0 <= n && p.1 <= n
  }

  /** `[(c1, c2) for (c1, c2) in cois if c1 <= len(A) and c2 <= len(A)]`. */
  function KeepInRange(cois: seq<Pair>, n: int): (kept: seq<Pair>)
    ensures forall p :: p in kept <==> p in cois && Admitted(p, n)
    ensures |kept| <= |cois|
  {
    if cois == [] then []
    else
      var rest := KeepInRange(cois[1..], n);
      assert forall p :: p in cois <==> p == cois[0] || p in cois[1..];
      if Admitted(cois[0], n) then [cois[0]] + rest else rest
  }

  /** `xs` is `ys` with some elements dropped, the rest in their order. */
  predicate Subsequence(xs: seq<Pair>, ys: seq<Pair>)
    decreases |ys|
  {
    if xs == [] then true
    else if ys == [] then false
    else (xs[0] == ys[0] && Subsequence(xs[1..], ys[1..])) || Subsequence(xs, ys[1..])
  }

  /** The filter keeps its survivors in their original order. */
  lemma {:induction false} KeepInRangeInOrder(cois: seq<Pair>, n: int)
    ensures Subsequence(KeepInRange(cois, n), cois)
  {
    if cois != [] {
      KeepInRangeInOrder(cois[1..], n);
      var kept := KeepInRange(cois, n);
      if Admitted(cois[0], n) {
        assert kept[1..] == KeepInRange(cois[1..], n);
      }
    }
  }

  /** Filtering a concatenation filters each part. */
  lemma {:induction false} KeepInRangeAppend(xs: seq<Pair>, ys: seq<Pair>, n: int)
    ensures KeepInRange(xs + ys, n) == KeepInRange(xs, n) + KeepInRange(ys, n)
  {
    if xs == [] {
      assert xs + ys == ys;
    } else {
      assert (xs + ys)[1..] == xs[1..] + ys;
      KeepInRangeAppend(xs[1..], ys, n);
    }
  }

  // ---------------------------------------------------------------------
  // Line 48: whole rows of conflicted indices

  /** NumPy's reading of an index `c` into an axis of length `n`. */
  function Wrap(c: int, n: int): (r: int)
    ensures IndexOk(c, n) ==> 0 <= r < n
    ensures 0 <= c ==> r == c
  {
    if c < 0 then c + n else c
  }

  /** NumPy accepts an index in [-n, n). */
  predicate IndexOk(c: int, n: int) {
    -n <= c < n
  }

  predicate AllIndicesOk(kept: seq<Pair>, n: int) {
    forall p :: p in kept ==> IndexOk(p.0, n) && IndexOk(p.1, n)
  }

  /** Row `r` is named by either entry of some kept pair. */
  predicate RowHit(kept: seq<Pair>, n: int, r: int) {
    exists p :: p in kept && (Wrap(p.0, n) == r || Wrap(p.1, n) == r)
  }

  /** The matrix after line 48: every named row set to the sentinel. */
  function RowsSuppressed(m: Matrix, kept: seq<Pair>): (s: Matrix)
    ensures |s| == |m| && forall r :: 0 <= r < |m| ==> |s[r]| == |m[r]|
    ensures forall r, c :: 0 <= r < |m| && 0 <= c < |m[r]| ==>
      s[r][c] == if RowHit(kept, |m|, r) then Sentinel else m[r][c]
  {
    seq(|m|, r requires 0 <= r < |m| =>
      if RowHit(kept, |m|, r) then seq(|m[r]|, c => Sentinel) else m[r])
  }

  /** Sets every entry of row `r` to the sentinel. */
  method FillRow(a: array2<real>, r: nat)
    requires r < a.Length0
    modifies a
    ensures forall i, c :: 0 <= i < a.Length0 && 0 <= c < a.Length1 ==>
      a[i, c] == if i == r then Sentinel else old(a[i, c])
  {
    for c := 0 to a.Length1
      invariant forall i, j :: 0 <= i < a.Length0 && 0 <= j < a.Length1 ==>
        a[i, j] == if i == r && j < c then Sentinel else old(a[i, j])
    {
      a[r, c] := Sentinel;
    }
  }

  /**
   * `A[np.array(cois, dtype=int)] = -1000`: a k-by-2 integer array indexes the
   * first axis, so each row named anywhere in it is overwritten. An index
   * outside [-N, N) raises IndexError before anything is written.
   */
  method SuppressConflictRows(a: array2<real>, kept: seq<Pair>) returns (r: Outcome)
    modifies a
    ensures r.Fail? <==> !AllIndicesOk(kept, a.Length0)
    ensures r.Fail? ==> r.error == IndexOutOfRange && unchanged(a)
    ensures r.Pass? ==> forall i, c :: 0 <= i < a.Length0 && 0 <= c < a.Length1 ==>
      a[i, c] == if RowHit(kept, a.Length0, i) then Sentinel else old(a[i, c])
    ensures r.Pass? ==> Contents(a) == RowsSuppressed(old(Contents(a)), kept)
  {
    var n := a.Length0;
    if !(forall p | p in kept :: IndexOk(p.0, n) && IndexOk(p.1, n)) {
      return Fail(IndexOutOfRange);
    }
    ghost var before := Contents(a);
    for k := 0 to |kept|
      invariant forall i, c :: 0 <= i < n && 0 <= c < a.Length1 ==>
        a[i, c] == if RowHit(kept[..k], n, i) then Sentinel else old(a[i, c])
    {
      assert kept[k] in kept;
      FillRow(a, Wrap(kept[k].0, n));
      FillRow(a, Wrap(kept[k].1, n));
      assert kept[..k + 1] == kept[..k] + [kept[k]];
      forall i | 0 <= i < n
        ensures RowHit(kept[..k + 1], n, i) <==>
          RowHit(kept[..k], n, i) || i == Wrap(kept[k].0, n) || i == Wrap(kept[k].1, n)
      {
        if i == Wrap(kept[k].0, n) || i == Wrap(kept[k].1, n) {
          assert kept[k] in kept[..k + 1];
        }
      }
    }
    assert kept[..|kept|] == kept;
    ContentsAre(a, RowsSuppressed(before, kept));
    r := Pass;
  }

  /** Lines 43-48 together, on values. */
  function Suppressed(m: Matrix, kept: seq<Pair>): Matrix {
    RowsSuppressed(DiagonalSuppressed(m), kept)
  }

  /** After suppression every diagonal entry holds the sentinel. */
  lemma SuppressedDiagonal(m: Matrix, kept: seq<Pair>, k: nat)
    requires Rect(m, |m|) && k < |m|
    ensures Suppressed(m, kept)[k][k] == Sentinel
  {
  }

  /**
   * Both entries of every kept, in-range conflict pair hold the sentinel,
   * and so does the whole of both rows; rows no pair names keep their values.
   */
  lemma SuppressedConflicts(m: Matrix, kept: seq<Pair>)
    requires Rect(m, |m|) && AllIndicesOk(kept, |m|)
    ensures forall p, c :: p in kept && 0 <= c < |m| ==>
      Suppressed(m, kept)[Wrap(p.0, |m|)][c] == Sentinel && Suppressed(m, kept)[Wrap(p.1, |m|)][c] == Sentinel
    ensures forall r :: 0 <= r < |m| && !RowHit(kept, |m|, r) ==> Suppressed(m, kept)[r] == DiagonalSuppressed(m)[r]
  {
    var n := |m|;
    forall p, c | p in kept && 0 <= c < n
      ensures Suppressed(m, kept)[Wrap(p.0, n)][c] == Sentinel && Suppressed(m, kept)[Wrap(p.1, n)][c] == Sentinel
    {
      assert RowHit(kept, n, Wrap(p.0, n)) && RowHit(kept, n, Wrap(p.1, n));
    }
  }

  /** An empty conflict list leaves the matrix as it is. */
  lemma NoConflictsNoChange(m: Matrix)
    ensures RowsSuppressed(m, []) == m
  {
  }

  /**
   * The filter admits the index `len(A)` itself, which line 48 then rejects,
   * and it admits every negative index.
   */
  lemma BoundaryIndexAdmitted(n: nat, c: int)
    requires c < 0
    ensures KeepInRange([(n, 0)], n) == [(n, 0)] && !AllIndicesOk([(n, 0)], n)
    ensures KeepInRange([(c, 0)], n) == [(c, 0)]
  {
  }

  // ---------------------------------------------------------------------
  // Lines 51-57: trimming

  /**
   * How many positions `np.argsort(a)[0:n_trim]` selects in a row of length
   * `cols`: all of them for `None`, and Python's slice rule otherwise.
   */
  function TrimCount(nTrim: Option<int>, cols: nat): (k: nat)
    ensures k <= cols
    ensures nTrim.Some? && nTrim.value >= 0 ==> k == if nTrim.value < cols then nTrim.value else cols
  {
    match nTrim
    case None => cols
    case Some(t) =>
      if t >= 0 then (if t < cols then t else cols)
      else if cols + t > 0 then cols + t else 0
  }

  /**
   * `after` is `before` with the positions `sel` set to 0, where `sel` is
   * `k` positions whose values are no larger than any position left out.
   */
  ghost predicate TrimmedBy(before: seq<real>, after: seq<real>, sel: set<int>, k: nat) {
    && |after| == |before|
    && |sel| == k
    && (forall p :: p in sel ==> 0 <= p < |before|)
    && (forall p, q :: p in sel && 0 <= q < |before| && q !in sel ==> before[p] <= before[q])
    && (forall c :: 0 <= c < |before| ==> after[c] == if c in sel then 0.0 else before[c])
  }

  /** One row trimmed by some choice of `k` smallest positions (ties broken either way). */
  ghost predicate TrimmedRow(before: seq<real>, after: seq<real>, k: nat) {
    exists sel :: TrimmedBy(before, after, sel, k)
  }

  /** Every row trimmed independently, the shape kept. */
  ghost predicate Trimmed(before: Matrix, after: Matrix, k: nat) {
    |after| == |before| && forall r :: 0 <= r < |before| ==> TrimmedRow(before[r], after[r], k)
  }

  /** The set {0, ..., n - 1}. */
  function Below(n: nat): (s: set<int>)
    ensures forall q :: q in s <==> 0 <= q < n
    ensures |s| == n
  {
    if n == 0 then {} else Below(n - 1) + {n - 1}
  }

  /** A set of fewer than `n` indices below `n` misses one of them. */
  lemma FreeIndex(sel: set<int>, n: nat) returns (q: int)
    requires forall p :: p in sel ==> 0 <= p < n
    requires |sel| < n
    ensures 0 <= q < n && q !in sel
  {
    var missing := Below(n) - sel;
    assert Below(n) == missing + sel && missing * sel == {};
    assert |missing| == n - |sel| > 0;
    q :| q in missing;
  }

  /**
   * The positions of the `k` smallest entries of `row`, ties broken by the
   * lower index first (the order a stable `argsort` gives).
   */
  method SmallestPositions(row: seq<real>, k: nat) returns (sel: set<int>)
    requires k <= |row|
    ensures |sel| == k
    ensures forall p :: p in sel ==> 0 <= p < |row|
    ensures forall p, q :: p in sel && 0 <= q < |row| && q !in sel ==>
      row[p] < row[q] || (row[p] == row[q] && p < q)
  {
    sel := {};
    while |sel| < k
      invariant |sel| <= k
      invariant forall p :: p in sel ==> 0 <= p < |row|
      invariant forall p, q :: p in sel && 0 <= q < |row| && q !in sel ==>
        row[p] < row[q] || (row[p] == row[q] && p < q)
      decreases k - |sel|
    {
      ghost var free := FreeIndex(sel, |row|);
      var best := -1;
      for j := 0 to |row|
        invariant best == -1 ==> forall q :: 0 <= q < j ==> q in sel
        invariant best != -1 ==> 0 <= best < j && best !in sel
        invariant best != -1 ==> forall q :: 0 <= q < j && q !in sel ==>
          row[best] < row[q] || (row[best] == row[q] && best <= q)
      {
        if j !in sel && (best == -1 || row[j] < row[best]) {
          best := j;
        }
      }
      sel := sel + {best};
    }
  }

  /** `a = A[r, :]; a[np.argsort(a)[0:n_trim]] = 0` for one row `r`. */
  method TrimRow(a: array2<real>, r: nat, k: nat) returns (sel: set<int>)
    requires r < a.Length0 && k <= a.Length1
    modifies a
    ensures TrimmedBy(old(RowOf(a, r)), RowOf(a, r), sel, k)
    ensures forall i, c :: 0 <= i < a.Length0 && i != r && 0 <= c < a.Length1 ==> a[i, c] == old(a[i, c])
  {
    var row := RowOf(a, r);
    sel := SmallestPositions(row, k);
    for c := 0 to a.Length1
      invariant forall i, j :: 0 <= i < a.Length0 && 0 <= j < a.Length1 ==>
        a[i, j] == if i == r && j < c && j in sel then 0.0 else old(a[i, j])
    {
      if c in sel {
        a[r, c] := 0.0;
      }
    }
  }

  /**
   * Lines 51-59. With `n_trim != 0` each row is trimmed through its view, so
   * `A` itself changes, and `A_trim` is a fresh stacked copy of the rows;
   * stacking no rows raises. With `n_trim == 0`, `A_trim` is `A`.
   */
  method TrimRows(a: array2<real>, nTrim: Option<int>) returns (res: Result<array2<real>>)
    modifies a
    ensures nTrim == Some(0) ==> res == Ok(a) && unchanged(a)
    ensures nTrim != Some(0) && a.Length0 == 0 ==> res == Err(NothingToStack) && unchanged(a)
    ensures nTrim != Some(0) && a.Length0 > 0 ==>
      && res.Ok? && fresh(res.value)
      && Trimmed(old(Contents(a)), Contents(a), TrimCount(nTrim, a.Length1))
      && res.value.Length0 == a.Length0 && res.value.Length1 == a.Length1
      && Contents(res.value) == Contents(a)
  {
    if nTrim == Some(0) {
      return Ok(a);
    }
    if a.Length0 == 0 {
      return Err(NothingToStack);
    }
    var k := TrimCount(nTrim, a.Length1);
    ghost var before := Contents(a);
    ghost var sels: seq<set<int>> := [];
    for r := 0 to a.Length0
      invariant |sels| == r
      invariant forall i :: 0 <= i < r ==> TrimmedBy(before[i], RowOf(a, i), sels[i], k)
      invariant forall i :: r <= i < a.Length0 ==> RowOf(a, i) == before[i]
    {
      ghost var pre := Contents(a);
      var sel := TrimRow(a, r, k);
      sels := sels + [sel];
      forall i | 0 <= i < a.Length0 && i != r ensures RowOf(a, i) == pre[i] {
      }
    }
    forall i | 0 <= i < a.Length0 ensures TrimmedRow(before[i], Contents(a)[i], k) {
      assert TrimmedBy(before[i], Contents(a)[i], sels[i], k);
    }
    var aTrim := new real[a.Length0, a.Length1]((i, j) requires 0 <= i < a.Length0 && 0 <= j < a.Length1 reads a => a[i, j]);
    ContentsAre(aTrim, Contents(a));
    res := Ok(aTrim);
  }

  /** Trimming zero positions changes nothing. */
  lemma TrimNothing(m: Matrix)
    ensures Trimmed(m, m, 0)
  {
    forall r | 0 <= r < |m| ensures TrimmedRow(m[r], m[r], 0) {
      assert TrimmedBy(m[r], m[r], {}, 0);
    }
  }

  /** A row trimmed by zero positions is unchanged. */
  lemma TrimZeroUnchanged(before: seq<real>, after: seq<real>)
    requires TrimmedRow(before, after, 0)
    ensures after == before
  {
    var sel :| TrimmedBy(before, after, sel, 0);
    assert sel == {};
  }

  /** Trimming as many positions as the row has (`n_trim=None`) zeroes the whole row. */
  lemma TrimAllZeroes(before: seq<real>, after: seq<real>)
    requires TrimmedRow(before, after, |before|)
    ensures forall c :: 0 <= c < |after| ==> after[c] == 0.0
  {
    var sel :| TrimmedBy(before, after, sel, |before|);
    assert sel <= Below(|before|);
    var missing := Below(|before|) - sel;
    assert Below(|before|) == missing + sel && missing * sel == {};
    assert missing == {};
    forall c | 0 <= c < |after| ensures after[c] == 0.0 {
      assert c in Below(|before|);
    }
  }

  /** Exactly `|before| - k` positions keep their values. */
  lemma TrimKeepsTheRest(before: seq<real>, after: seq<real>, sel: set<int>, k: nat)
    requires TrimmedBy(before, after, sel, k)
    ensures |Below(|before|) - sel| == |before| - k
    ensures forall c :: c in Below(|before|) - sel ==> after[c] == before[c]
  {
    var missing := Below(|before|) - sel;
    assert Below(|before|) == missing + sel && missing * sel == {};
  }

  /**
   * In a row whose diagonal holds the sentinel and whose other entries are
   * all larger, trimming at least one position always zeroes the diagonal.
   */
  lemma DiagonalSentinelTrimmed(before: seq<real>, after: seq<real>, k: nat, d: nat)
    requires TrimmedRow(before, after, k) && k >= 1
    requires d < |before| && before[d] == Sentinel
    requires forall c :: 0 <= c < |before| && c != d ==> before[c] > Sentinel
    ensures after[d] == 0.0
  {
    var sel :| TrimmedBy(before, after, sel, k);
    if d !in sel {
      assert forall p :: p in sel ==> p == d;
      assert false;
    }
  }

  // ---------------------------------------------------------------------
  // Lines 69-72: the convergence report

  datatype Status = Converged | NotConverged

  function RowSum(s: seq<real>): real {
    if s == [] then 0.0 else s[0] + RowSum(s[1..])
  }

  /** `b.sum()`. */
  function Sum(b: Matrix): real {
    if b == [] then 0.0 else RowSum(b[0]) + Sum(b[1..])
  }

  /** The message printed at lines 69-72. */
  function Report(b: Matrix): (s: Status)
    ensures s == NotConverged <==> Sum(b) == 0.0
  {
    if Sum(b) == 0.0 then NotConverged else Converged
  }

  predicate NonNegative(b: Matrix) {
    forall r, c :: 0 <= r < |b| && 0 <= c < |b[r]| ==> b[r][c] >= 0.0
  }

  lemma {:induction false} RowSumZero(s: seq<real>)
    requires forall c :: 0 <= c < |s| ==> s[c] >= 0.0
    ensures RowSum(s) >= 0.0
    ensures RowSum(s) == 0.0 <==> forall c :: 0 <= c < |s| ==> s[c] == 0.0
  {
    if s != [] {
      RowSumZero(s[1..]);
      assert forall c :: 1 <= c < |s| ==> s[c] == s[1..][c - 1];
    }
  }

  lemma {:induction false} SumZero(b: Matrix)
    requires NonNegative(b)
    ensures Sum(b) >= 0.0
    ensures Sum(b) == 0.0 <==> forall r, c :: 0 <= r < |b| && 0 <= c < |b[r]| ==> b[r][c] == 0.0
  {
    if b != [] {
      RowSumZero(b[0]);
      SumZero(b[1..]);
      assert forall r :: 1 <= r < |b| ==> b[r] == b[1..][r - 1];
    }
  }

  /**
   * For an assignment with no negative entry, "does not converge" is reported
   * exactly when nothing at all is assigned.
   */
  lemma NotConvergedIffEmpty(b: Matrix)
    requires NonNegative(b)
    ensures Report(b) == NotConverged <==> forall r, c :: 0 <= r < |b| && 0 <= c < |b[r]| ==> b[r][c] == 0.0
  {
    SumZero(b);
  }

  // ---------------------------------------------------------------------
  // The whole of perform_mindmatch

  /** What `perform_mindmatch` returns (`b`) and what it reports. */
  datatype Matching = Matching(assignment: Matrix, status: Status)

  /**
   * `perform_mindmatch(A, n_trim, n_match, cois)`. The LP construction, the
   * solver and the assignment recovery (lines 63-67) are the parameter
   * `assign`, applied to the trimmed matrix and `n_match`.
   */
  method PerformMindmatch(a: array2<real>, nTrim: Option<int>, nMatch: int, cois: Option<seq<Pair>>,
                          assign: (Matrix, int) -> Matrix)
    returns (res: Result<Matching>)
    requires a.Length0 == a.Length1
    modifies a
    ensures cois.None? ==> res == Err(MissingConflictList) && Contents(a) == DiagonalSuppressed(old(Contents(a)))
    ensures cois.Some? && !AllIndicesOk(KeepInRange(cois.value, a.Length0), a.Length0) ==>
      res == Err(IndexOutOfRange) && Contents(a) == DiagonalSuppressed(old(Contents(a)))
    ensures cois.Some? && AllIndicesOk(KeepInRange(cois.value, a.Length0), a.Length0) ==>
      if nTrim != Some(0) && a.Length0 == 0 then res == Err(NothingToStack)
      else
        && res.Ok?
        && Trimmed(Suppressed(old(Contents(a)), KeepInRange(cois.value, a.Length0)), Contents(a),
                   TrimCount(nTrim, a.Length0))
        && res.value.assignment == assign(Contents(a), nMatch)
        && res.value.status == Report(res.value.assignment)
  {
    SuppressDiagonal(a);
    if cois.None? {
      return Err(MissingConflictList);
    }
    var kept := KeepInRange(cois.value, a.Length0);
    ghost var suppressed := Suppressed(old(Contents(a)), kept);
    var o := SuppressConflictRows(a, kept);
    if o.Fail? {
      return Err(o.error);
    }
    assert Contents(a) == suppressed;
    var t := TrimRows(a, nTrim);
    if t.Err? {
      return Err(t.error);
    }
    if nTrim == Some(0) {
      TrimNothing(suppressed);
    }
    var b := assign(Contents(t.value), nMatch);
    res := Ok(Matching(b, Report(b)));
  }
}
