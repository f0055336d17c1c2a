/**
 * `compute_conflicts`: every ordered pair of roster rows (i, j) is tested, and
 * when some piece of row i's conflict text scores at least `ratio` against
 * row j's full name, the couple [i, j], [j, i] is appended to the list.
 *
 * The fuzzy similarity (`fuzz.ratio`) is the parameter `score`; nothing is
 * assumed about it.
 */
module Conflicts {
  import opened Wrappers
  import opened Strings

  /** One roster row: the `fullname` and `conflicts` columns. */
  datatype Member = Member(fullname: string, conflicts: string)

  /** A conflict pair `[i, j]` of row indices. */
  type Pair = (int, int)

  function Swap(p: Pair): Pair { (p.1, p.0) }

  /** Python's `max` over a non-empty list. */
  function MaxOf(xs: seq<int>): (m: int)
    requires |xs| > 0
    ensures m in xs
    ensures forall x :: x in xs ==> x <= m
  {
    if |xs| == 1 then xs[0]
    else
      var rest := MaxOf(xs[1..]);
      assert forall x :: x in xs ==> x == xs[0] || x in xs[1..];
      if xs[0] >= rest then xs[0] else rest
  }

  /** `[fuzz.ratio(name, n) for n in pieces]`. */
  function Scores(name: string, pieces: seq<string>, score: (string, string) -> int): (r: seq<int>)
    ensures |r| == |pieces|
    ensures forall k :: 0 <= k < |pieces| ==> r[k] == score(name, pieces[k])
  {
    seq(|pieces|, k requires 0 <= k < |pieces| => score(name, pieces[k]))
  }

  /** `max([fuzz.ratio(name, n) for n in pieces]) >= ratio` (line 27). */
  predicate Hit(name: string, pieces: seq<string>, ratio: int, score: (string, string) -> int)
    requires |pieces| > 0
  {
    MaxOf(Scores(name, pieces, score)) >= ratio
  }

  /** The `max` test holds exactly when some single piece scores high enough. */
  lemma HitIff(name: string, pieces: seq<string>, ratio: int, score: (string, string) -> int)
    requires |pieces| > 0
    ensures Hit(name, pieces, ratio, score) <==> exists p :: p in pieces && score(name, p) >= ratio
  {
    var xs := Scores(name, pieces, score);
    if Hit(name, pieces, ratio, score) {
      var k :| 0 <= k < |xs| && xs[k] == MaxOf(xs);
      assert pieces[k] in pieces;
    } else {
      forall p | p in pieces ensures score(name, p) < ratio {
        var k :| 0 <= k < |pieces| && pieces[k] == p;
        assert xs[k] in xs;
      }
    }
  }

  /**
   * The test of line 27 for rows i and j: it holds exactly when some piece of
   * row i's split text scores high enough against row j's full name.
   */
  predicate Conflicted(roster: seq<Member>, i: nat, j: nat, ratio: int, sep: string,
                       score: (string, string) -> int)
    requires i < |roster| && j < |roster| && sep != ""
    ensures Conflicted(roster, i, j, ratio, sep, score) <==>
            exists p :: p in Pieces(roster[i].conflicts, sep) && score(roster[j].fullname, p) >= ratio
  {
    HitIff(roster[j].fullname, Pieces(roster[i].conflicts, sep), ratio, score);
    Hit(roster[j].fullname, Pieces(roster[i].conflicts, sep), ratio, score)
  }

  /** The outcome of the line-27 test for every ordered pair of rows. */
  type Table = seq<seq<bool>>

  predicate Square(t: Table) {
    forall i :: 0 <= i < |t| ==> |t[i]| == |t|
  }

  /** The `exclude_list` of every row: its conflicts text split at `sep` (line 25). */
  function ExcludeLists(roster: seq<Member>, sep: string): (ls: seq<seq<string>>)
    requires |roster| == 0 || sep != ""
    ensures |ls| == |roster|
    ensures forall i :: 0 <= i < |roster| ==> |ls[i]| > 0
  {
    seq(|roster|, i requires 0 <= i < |roster| => Pieces(roster[i].conflicts, sep))
  }

  /** The tests of line 27 of one exclude list against the first n full names. */
  function HitRow(roster: seq<Member>, list: seq<string>, ratio: int,
                  score: (string, string) -> int, n: nat): (r: seq<bool>)
    requires n <= |roster| && |list| > 0
    ensures |r| == n
  {
    if n == 0 then [] else HitRow(roster, list, ratio, score, n - 1) + [Hit(roster[n - 1].fullname, list, ratio, score)]
  }

  lemma {:induction false} HitRowAt(roster: seq<Member>, list: seq<string>, ratio: int,
                                    score: (string, string) -> int, n: nat)
    requires n <= |roster| && |list| > 0
    ensures forall j :: 0 <= j < n ==>
      HitRow(roster, list, ratio, score, n)[j] == Hit(roster[j].fullname, list, ratio, score)
  {
    if n > 0 {
      HitRowAt(roster, list, ratio, score, n - 1);
    }
  }

  /** The rows of the table for the first m exclude lists. */
  function HitRows(roster: seq<Member>, lists: seq<seq<string>>, ratio: int,
                   score: (string, string) -> int, m: nat): (t: Table)
    requires m <= |lists| == |roster| && forall i :: 0 <= i < |lists| ==> |lists[i]| > 0
    ensures |t| == m
  {
    if m == 0 then []
    else HitRows(roster, lists, ratio, score, m - 1) + [HitRow(roster, lists[m - 1], ratio, score, |roster|)]
  }

  lemma {:induction false} HitRowsAt(roster: seq<Member>, lists: seq<seq<string>>, ratio: int,
                                     score: (string, string) -> int, m: nat)
    requires m <= |lists| == |roster| && forall i :: 0 <= i < |lists| ==> |lists[i]| > 0
    ensures forall i :: 0 <= i < m ==>
      HitRows(roster, lists, ratio, score, m)[i] == HitRow(roster, lists[i], ratio, score, |roster|)
  {
    if m > 0 {
      HitRowsAt(roster, lists, ratio, score, m - 1);
    }
  }

  /** The outcome of the line-27 test for every ordered pair, given each row's exclude list. */
  function ConflictTable(roster: seq<Member>, lists: seq<seq<string>>, ratio: int,
                         score: (string, string) -> int): (t: Table)
    requires |lists| == |roster| && forall i :: 0 <= i < |lists| ==> |lists[i]| > 0
    ensures |t| == |roster| && Square(t)
  {
    HitRowsAt(roster, lists, ratio, score, |roster|);
    HitRows(roster, lists, ratio, score, |roster|)
  }

  /** Row i of the table holds the tests of row i's exclude list against every full name. */
  lemma ConflictTableRow(roster: seq<Member>, lists: seq<seq<string>>, ratio: int,
                         score: (string, string) -> int, i: nat)
    requires |lists| == |roster| && forall i :: 0 <= i < |lists| ==> |lists[i]| > 0
    requires i < |roster|
    ensures var t := ConflictTable(roster, lists, ratio, score);
      |t| == |roster| && Square(t) &&
      forall j :: 0 <= j < |roster| ==> t[i][j] == Hit(roster[j].fullname, lists[i], ratio, score)
  {
    HitRowsAt(roster, lists, ratio, score, |roster|);
    HitRowAt(roster, lists[i], ratio, score, |roster|);
  }

  /** The table of the roster itself. */
  function TableOf(roster: seq<Member>, ratio: int, sep: string, score: (string, string) -> int): (t: Table)
    requires |roster| == 0 || sep != ""
    ensures |t| == |roster| && Square(t)
  {
    ConflictTable(roster, ExcludeLists(roster, sep), ratio, score)
  }

  /** Entry (i, j) of the roster's table is the test of line 27 for rows i and j. */
  lemma TableOfAt(roster: seq<Member>, ratio: int, sep: string, score: (string, string) -> int)
    requires |roster| == 0 || sep != ""
    ensures var t := TableOf(roster, ratio, sep, score);
      |t| == |roster| && Square(t) &&
      forall i, j :: 0 <= i < |roster| && 0 <= j < |roster| ==>
        t[i][j] == Conflicted(roster, i, j, ratio, sep, score)
  {
    var lists := ExcludeLists(roster, sep);
    HitRowsAt(roster, lists, ratio, score, |roster|);
    forall i | 0 <= i < |roster|
      ensures forall j :: 0 <= j < |roster| ==>
        TableOf(roster, ratio, sep, score)[i][j] == Conflicted(roster, i, j, ratio, sep, score)
    {
      HitRowAt(roster, lists[i], ratio, score, |roster|);
    }
  }

  /** Row i of the roster's table holds the tests against row i's split text. */
  lemma TableOfRow(roster: seq<Member>, ratio: int, sep: string, score: (string, string) -> int, i: nat)
    requires i < |roster| && sep != ""
    ensures var t := TableOf(roster, ratio, sep, score);
      |t| == |roster| && Square(t) && |Pieces(roster[i].conflicts, sep)| > 0 &&
      forall j :: 0 <= j < |roster| ==>
        t[i][j] == Hit(roster[j].fullname, Pieces(roster[i].conflicts, sep), ratio, score)
  {
    ConflictTableRow(roster, ExcludeLists(roster, sep), ratio, score, i);
  }

  // ---------------------------------------------------------------------
  // The list is built from its leading pairs: [i, j] is always followed by [j, i].

  /** Each pair of `h` followed by its swap. */
  function Expand(h: seq<Pair>): (c: seq<Pair>)
    ensures |c| == 2 * |h|
  {
    if h == [] then [] else [h[0], Swap(h[0])] + Expand(h[1..])
  }

  lemma {:induction false} ExpandAppend(h1: seq<Pair>, h2: seq<Pair>)
    ensures Expand(h1 + h2) == Expand(h1) + Expand(h2)
  {
    if h1 == [] {
      assert h1 + h2 == h2;
    } else {
      assert (h1 + h2)[1..] == h1[1..] + h2;
      ExpandAppend(h1[1..], h2);
    }
  }

  /** Position 2k holds the k-th leading pair, position 2k + 1 its swap. */
  lemma {:induction false} ExpandAt(h: seq<Pair>, k: nat)
    requires k < |h|
    ensures Expand(h)[2 * k] == h[k] && Expand(h)[2 * k + 1] == Swap(h[k])
  {
    if k > 0 {
      ExpandAt(h[1..], k - 1);
      assert Expand(h)[2 * k] == Expand(h[1..])[2 * (k - 1)];
      assert Expand(h)[2 * k + 1] == Expand(h[1..])[2 * (k - 1) + 1];
    }
  }

  lemma {:induction false} ExpandMembers(h: seq<Pair>)
    ensures forall p :: p in Expand(h) <==> p in h || Swap(p) in h
  {
    if h != [] {
      ExpandMembers(h[1..]);
      assert forall p :: p in h <==> p == h[0] || p in h[1..];
      assert forall p :: Swap(p) == h[0] <==> p == Swap(h[0]);
    }
  }

  /** The leading pairs of row i, columns below n, in column order. */
  function RowHeads(t: Table, i: nat, n: nat): seq<Pair>
    requires i < |t| && n <= |t[i]|
  {
    if n == 0 then [] else RowHeads(t, i, n - 1) + (if t[i][n - 1] then [(i, n - 1)] else [])
  }

  /** The leading pairs of rows below m, in row-major order. */
  function AllHeads(t: Table, m: nat): seq<Pair>
    requires Square(t) && m <= |t|
  {
    if m == 0 then [] else AllHeads(t, m - 1) + RowHeads(t, m - 1, |t|)
  }

  lemma {:induction false} RowHeadsLength(t: Table, i: nat, n: nat)
    requires i < |t| && n <= |t[i]|
    ensures |RowHeads(t, i, n)| <= n
  {
    if n > 0 {
      RowHeadsLength(t, i, n - 1);
    }
  }

  /** At most one leading pair per ordered pair of rows. */
  lemma {:induction false} AllHeadsLength(t: Table, m: nat)
    requires Square(t) && m <= |t|
    ensures |AllHeads(t, m)| <= m * |t|
  {
    if m > 0 {
      AllHeadsLength(t, m - 1);
      RowHeadsLength(t, m - 1, |t|);
      assert (m - 1) * |t| + |t| == m * |t|;
    }
  }

  /**
   * The list `compute_conflicts` returns: every conflicted pair, then its
   * swap. It has even length and at most two entries per ordered pair of rows.
   */
  function ConflictList(roster: seq<Member>, ratio: int, sep: string,
                        score: (string, string) -> int): (c: seq<Pair>)
    requires |roster| == 0 || sep != ""
    ensures |c| % 2 == 0
    ensures |c| <= 2 * |roster| * |roster|
  {
    var t := TableOf(roster, ratio, sep, score);
    AllHeadsLength(t, |roster|);
    assert 2 * (|roster| * |roster|) == 2 * |roster| * |roster|;
    Expand(AllHeads(t, |roster|))
  }

  /** Handling column j of row i appends its couple, if any. */
  lemma RowHeadsStep(t: Table, i: nat, j: nat)
    requires i < |t| && j < |t[i]|
    ensures Expand(RowHeads(t, i, j + 1)) ==
            Expand(RowHeads(t, i, j)) + (if t[i][j] then [(i, j), (j, i)] else [])
  {
    var hc: seq<Pair> := if t[i][j] then [(i, j)] else [];
    ExpandAppend(RowHeads(t, i, j), hc);
    assert Expand(hc) == if t[i][j] then [(i, j), (j, i)] else [];
  }

  /** Handling row m appends the couples of that row. */
  lemma AllHeadsStep(t: Table, m: nat)
    requires Square(t) && m < |t|
    ensures Expand(AllHeads(t, m + 1)) == Expand(AllHeads(t, m)) + Expand(RowHeads(t, m, |t|))
  {
    ExpandAppend(AllHeads(t, m), RowHeads(t, m, |t|));
  }

  /** One pass of the inner loop body keeps the loop's account of the list. */
  lemma RowStep(cois: seq<Pair>, out: seq<Pair>, t: Table, i: nat, j: nat)
    requires i < |t| && j < |t[i]|
    requires out == cois + Expand(RowHeads(t, i, j))
    ensures t[i][j] ==> out + [(i, j)] + [(j, i)] == cois + Expand(RowHeads(t, i, j + 1))
    ensures !t[i][j] ==> out == cois + Expand(RowHeads(t, i, j + 1))
  {
    RowHeadsStep(t, i, j);
  }

  /**
   * The inner loop of lines 26-29 for row i: appends the couple of every row
   * j whose full name scores high enough against a piece of row i's text.
   */
  method AppendRowCouples(cois: seq<Pair>, roster: seq<Member>, i: nat, excludeList: seq<string>,
                          ratio: int, score: (string, string) -> int, ghost t: Table)
    returns (out: seq<Pair>)
    requires i < |t| && |t[i]| == |roster| && |excludeList| > 0
    requires forall j :: 0 <= j < |roster| ==> t[i][j] == Hit(roster[j].fullname, excludeList, ratio, score)
    ensures out == cois + Expand(RowHeads(t, i, |roster|))
  {
    out := cois;
    var j := 0;
    while j < |roster|
      invariant 0 <= j <= |roster|
      invariant out == cois + Expand(RowHeads(t, i, j))
    {
      RowStep(cois, out, t, i, j);
      if Hit(roster[j].fullname, excludeList, ratio, score) {
        out := out + [(i, j)];
        out := out + [(j, i)];
      }
      j := j + 1;
    }
  }

  /**
   * `compute_conflicts(df, ratio, sep)`. Splitting on an empty separator
   * raises, but only once a row is visited, so an empty roster never raises.
   */
  method ComputeConflicts(roster: seq<Member>, ratio: int, sep: string,
                          score: (string, string) -> int)
    returns (r: Result<seq<Pair>>)
    ensures r.Err? <==> |roster| > 0 && sep == ""
    ensures r.Err? ==> r.error == EmptySeparator
    ensures r.Ok? ==> r.value == ConflictList(roster, ratio, sep, score)
  {
    ghost var t := if sep == "" then [] else TableOf(roster, ratio, sep, score);
    var cois: seq<Pair> := [];
    var i := 0;
    while i < |roster|
      invariant 0 <= i <= |roster|
      invariant i > 0 ==> sep != ""
      invariant i > 0 ==> cois == Expand(AllHeads(t, i))
      invariant i == 0 ==> cois == []
    {
      var split := Split(roster[i].conflicts, sep);
      if split.Err? {
        return Err(split.error);
      }
      var excludeList := split.value;
      TableOfRow(roster, ratio, sep, score, i);
      cois := AppendRowCouples(cois, roster, i, excludeList, ratio, score, t);
      AllHeadsStep(t, i);
      i := i + 1;
    }
    r := Ok(cois);
  }

  // ---------------------------------------------------------------------
  // The list comes in couples.

  /**
   * The output of `compute_conflicts` comes in couples: it has even length,
   * every pair at an even position is followed by its swap, and the list is
   * closed under swapping.
   */
  lemma ConflictsComeInCouples(roster: seq<Member>, ratio: int, sep: string,
                               score: (string, string) -> int)
    requires |roster| == 0 || sep != ""
    ensures var c := ConflictList(roster, ratio, sep, score);
      && |c| % 2 == 0
      && (forall k :: 0 <= k < |c| / 2 ==> c[2 * k + 1] == Swap(c[2 * k]))
      && (forall p :: p in c ==> Swap(p) in c)
  {
    var t := TableOf(roster, ratio, sep, score);
    TableOfAt(roster, ratio, sep, score);
    var h := AllHeads(t, |t|);
    var c := Expand(h);
    forall k | 0 <= k < |c| / 2 ensures c[2 * k + 1] == Swap(c[2 * k]) {
      ExpandAt(h, k);
    }
    ExpandMembers(h);
    forall p | p in c ensures Swap(p) in c {
      assert Swap(Swap(p)) == p;
    }
  }

  // ---------------------------------------------------------------------
  // Which couples are emitted, and in which order.

  /** Row-major order on pairs. */
  predicate Before(p: Pair, q: Pair) {
    p.0 < q.0 || (p.0 == q.0 && p.1 < q.1)
  }

  predicate StrictlyOrdered(s: seq<Pair>) {
    forall k, l :: 0 <= k < l < |s| ==> Before(s[k], s[l])
  }

  /** Every pair of `h` has its first index in [lo, m) and its second in [0, n). */
  predicate RowsBelow(h: seq<Pair>, lo: int, m: int, n: int) {
    forall k :: 0 <= k < |h| ==> lo <= h[k].0 < m && 0 <= h[k].1 < n
  }

  /** Every pair of `h` is an entry of `t` whose test passed. */
  predicate Marked(h: seq<Pair>, t: Table) {
    forall k :: 0 <= k < |h| ==> 0 <= h[k].0 < |t| && 0 <= h[k].1 < |t[h[k].0]| && t[h[k].0][h[k].1]
  }

  lemma MarkedAppend(a: seq<Pair>, b: seq<Pair>, t: Table)
    requires Marked(a, t) && Marked(b, t)
    ensures Marked(a + b, t)
  {
    forall k | 0 <= k < |a + b|
      ensures 0 <= (a + b)[k].0 < |t| && 0 <= (a + b)[k].1 < |t[(a + b)[k].0]| && t[(a + b)[k].0][(a + b)[k].1]
    {
      if k >= |a| {
        assert (a + b)[k] == b[k - |a|];
      }
    }
  }

  lemma OrderedAppend(a: seq<Pair>, b: seq<Pair>)
    requires StrictlyOrdered(a) && StrictlyOrdered(b)
    requires forall x, y :: x in a && y in b ==> Before(x, y)
    ensures StrictlyOrdered(a + b)
  {
    forall k, l | 0 <= k < l < |a + b| ensures Before((a + b)[k], (a + b)[l]) {
      if l < |a| {
      } else if k >= |a| {
        assert (a + b)[k] == b[k - |a|] && (a + b)[l] == b[l - |a|];
      } else {
        assert (a + b)[k] in a && (a + b)[l] in b;
      }
    }
  }

  /** Row i's leading pairs are in column order and lie in row i, columns below n. */
  lemma {:induction false} RowHeadsOrdered(t: Table, i: nat, n: nat)
    requires i < |t| && n <= |t[i]|
    ensures StrictlyOrdered(RowHeads(t, i, n))
    ensures RowsBelow(RowHeads(t, i, n), i, i + 1, n)
  {
    if n > 0 {
      var hp := RowHeads(t, i, n - 1);
      var hc: seq<Pair> := if t[i][n - 1] then [(i, n - 1)] else [];
      RowHeadsOrdered(t, i, n - 1);
      AppendColumn(hp, hc, i, n - 1);
    }
  }

  /** Row i's leading pairs are entries whose test passed. */
  lemma {:induction false} RowHeadsMarked(t: Table, i: nat, n: nat)
    requires i < |t| && n <= |t[i]|
    ensures Marked(RowHeads(t, i, n), t)
  {
    if n > 0 {
      var hp := RowHeads(t, i, n - 1);
      var hc: seq<Pair> := if t[i][n - 1] then [(i, n - 1)] else [];
      RowHeadsMarked(t, i, n - 1);
      MarkedAppend(hp, hc, t);
    }
  }

  /** Appending at most the pair (i, c) after pairs of row i, columns below c, keeps the order. */
  lemma AppendColumn(hp: seq<Pair>, hc: seq<Pair>, i: int, c: nat)
    requires StrictlyOrdered(hp) && RowsBelow(hp, i, i + 1, c)
    requires hc == [] || hc == [(i, c)]
    ensures StrictlyOrdered(hp + hc) && RowsBelow(hp + hc, i, i + 1, c + 1)
  {
    if hc == [] {
      assert hp + hc == hp;
    } else {
      GlueOrdered(hp, hc, i, i, c + 1);
    }
  }

  /** Every column of row i whose test passed has its leading pair. */
  lemma {:induction false} RowHeadsComplete(t: Table, i: nat, n: nat)
    requires i < |t| && n <= |t[i]|
    ensures forall j :: 0 <= j < n && t[i][j] ==> (i, j) in RowHeads(t, i, n)
  {
    if n > 0 {
      var hp := RowHeads(t, i, n - 1);
      var hc: seq<Pair> := if t[i][n - 1] then [(i, n - 1)] else [];
      RowHeadsComplete(t, i, n - 1);
      MembersOfAppend(hp, hc);
    }
  }

  lemma MembersOfAppend(a: seq<Pair>, b: seq<Pair>)
    ensures forall x :: x in a + b <==> x in a || x in b
  {
  }

  /**
   * Gluing pairs of row r after pairs of rows in [lo, r] keeps the order, as
   * long as every later pair comes after every earlier one.
   */
  lemma GlueOrdered(hp: seq<Pair>, hr: seq<Pair>, lo: int, r: int, n: int)
    requires lo <= r
    requires StrictlyOrdered(hp) && RowsBelow(hp, lo, r + 1, n)
    requires StrictlyOrdered(hr) && RowsBelow(hr, r, r + 1, n)
    requires forall x, y :: x in hp && y in hr ==> Before(x, y)
    ensures StrictlyOrdered(hp + hr) && RowsBelow(hp + hr, lo, r + 1, n)
  {
    OrderedAppend(hp, hr);
    forall k | 0 <= k < |hp + hr| ensures lo <= (hp + hr)[k].0 < r + 1 && 0 <= (hp + hr)[k].1 < n {
      if k >= |hp| {
        assert (hp + hr)[k] == hr[k - |hp|];
      }
    }
  }

  /** All leading pairs are in row-major order and lie in rows below m. */
  lemma {:induction false} AllHeadsOrdered(t: Table, m: nat)
    requires Square(t) && m <= |t|
    ensures StrictlyOrdered(AllHeads(t, m))
    ensures RowsBelow(AllHeads(t, m), 0, m, |t|)
  {
    if m > 0 {
      var hp := AllHeads(t, m - 1);
      var hr := RowHeads(t, m - 1, |t|);
      AllHeadsOrdered(t, m - 1);
      RowHeadsOrdered(t, m - 1, |t|);
      RowsBefore(hp, hr, m - 1, |t|);
      GlueOrdered(hp, hr, 0, m - 1, |t|);
    }
  }

  /** All leading pairs are entries whose test passed. */
  lemma {:induction false} AllHeadsMarked(t: Table, m: nat)
    requires Square(t) && m <= |t|
    ensures Marked(AllHeads(t, m), t)
  {
    if m > 0 {
      AllHeadsMarked(t, m - 1);
      RowHeadsMarked(t, m - 1, |t|);
      MarkedAppend(AllHeads(t, m - 1), RowHeads(t, m - 1, |t|), t);
    }
  }

  /** Pairs of rows below r come before pairs of row r. */
  lemma RowsBefore(hp: seq<Pair>, hr: seq<Pair>, r: int, n: int)
    requires RowsBelow(hp, 0, r, n) && RowsBelow(hr, r, r + 1, n)
    ensures RowsBelow(hp, 0, r + 1, n)
    ensures forall x, y :: x in hp && y in hr ==> Before(x, y)
  {
  }

  lemma GlueComplete(hp: seq<Pair>, hr: seq<Pair>, t: Table, r: nat)
    requires Square(t) && r < |t|
    requires forall i, j :: 0 <= i < r && 0 <= j < |t| && t[i][j] ==> (i, j) in hp
    requires forall j :: 0 <= j < |t| && t[r][j] ==> (r, j) in hr
    ensures forall i, j :: 0 <= i <= r && 0 <= j < |t| && t[i][j] ==> (i, j) in hp + hr
  {
    MembersOfAppend(hp, hr);
  }

  /** Every entry of the first m rows whose test passed has its leading pair. */
  lemma {:induction false} AllHeadsComplete(t: Table, m: nat)
    requires Square(t) && m <= |t|
    ensures forall i, j :: 0 <= i < m && 0 <= j < |t| && t[i][j] ==> (i, j) in AllHeads(t, m)
  {
    if m > 0 {
      var hp := AllHeads(t, m - 1);
      var hr := RowHeads(t, m - 1, |t|);
      AllHeadsComplete(t, m - 1);
      RowHeadsComplete(t, m - 1, |t|);
      GlueComplete(hp, hr, t, m - 1);
    }
  }

  /**
   * The leading pairs of the couples are exactly the pairs (i, j) that pass
   * the test of line 27, each once, in row-major order; every other entry of
   * the list is the swap of the one before it.
   */
  lemma CoupleHeadsInRowMajorOrder(roster: seq<Member>, ratio: int, sep: string,
                                   score: (string, string) -> int)
    requires |roster| == 0 || sep != ""
    ensures var h := AllHeads(TableOf(roster, ratio, sep, score), |roster|);
      && ConflictList(roster, ratio, sep, score) == Expand(h)
      && StrictlyOrdered(h)
      && RowsBelow(h, 0, |roster|, |roster|)
      && (forall i, j :: 0 <= i < |roster| && 0 <= j < |roster| ==>
            ((i, j) in h <==> Conflicted(roster, i, j, ratio, sep, score)))
  {
    var t := TableOf(roster, ratio, sep, score);
    TableOfAt(roster, ratio, sep, score);
    AllHeadsOrdered(t, |t|);
    AllHeadsMarked(t, |t|);
    AllHeadsComplete(t, |t|);
  }

  /** A pair is in the list iff its rows are conflicted one way or the other. */
  lemma ConflictMembership(roster: seq<Member>, ratio: int, sep: string,
                           score: (string, string) -> int, a: int, b: int)
    requires |roster| == 0 || sep != ""
    ensures (a, b) in ConflictList(roster, ratio, sep, score) <==>
            0 <= a < |roster| && 0 <= b < |roster| &&
            (Conflicted(roster, a, b, ratio, sep, score) || Conflicted(roster, b, a, ratio, sep, score))
  {
    var t := TableOf(roster, ratio, sep, score);
    TableOfAt(roster, ratio, sep, score);
    var h := AllHeads(t, |t|);
    ExpandMembers(h);
    AllHeadsOrdered(t, |t|);
    AllHeadsMarked(t, |t|);
    AllHeadsComplete(t, |t|);
    assert Swap((a, b)) == (b, a);
  }
}
