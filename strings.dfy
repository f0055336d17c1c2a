/**
 * Python's `str.find` and `str.split(sep)` for a separator given explicitly:
 * the string is cut at the leftmost occurrence of `sep`, scanning resumes
 * after it, and the text between cuts becomes the pieces.
 */
module Strings {
  import opened Wrappers

  /** `sep` occurs in `s` starting at index `k`. */
  predicate OccursAt(s: string, sep: string, k: int) {
    0 <= k && k + |sep| <= |s| && s[k..k + |sep|] == sep
  }

  /** `sep` occurs nowhere in `s`. */
  predicate Free(s: string, sep: string) {
    forall k :: 0 <= k <= |s| - |sep| ==> !OccursAt(s, sep, k)
  }

  /** Index of the leftmost occurrence of `sep` in `s`, as `s.find(sep)`. */
  function Find(s: string, sep: string): (r: Option<nat>)
    requires |sep| > 0
    ensures r.Some? ==> OccursAt(s, sep, r.value)
    ensures r.Some? ==> forall k :: 0 <= k < r.value ==> !OccursAt(s, sep, k)
    ensures r.None? <==> Free(s, sep)
    decreases |s|
  {
    if |s| < |sep| then None
    else if s[..|sep|] == sep then assert OccursAt(s, sep, 0); Some(0)
    else
      match Find(s[1..], sep)
      case None =>
        assert forall k :: 1 <= k <= |s| - |sep| ==> (OccursAt(s, sep, k) <==> OccursAt(s[1..], sep, k - 1));
        None
      case Some(k) =>
        assert forall q :: 1 <= q <= |s| - |sep| ==> (OccursAt(s, sep, q) <==> OccursAt(s[1..], sep, q - 1));
        Some(k + 1)
  }

  /** The pieces of `s.split(sep)` for a non-empty separator. */
  function Pieces(s: string, sep: string): (r: seq<string>)
    requires |sep| > 0
    ensures |r| >= 1
    decreases |s|
  {
    match Find(s, sep)
    case None => [s]
    case Some(k) => [s[..k]] + Pieces(s[k + |sep|..], sep)
  }

  /** `s.split(sep)`: Python raises ValueError for an empty separator. */
  function Split(s: string, sep: string): (r: Result<seq<string>>)
    ensures r.Err? <==> sep == ""
    ensures r.Err? ==> r.error == EmptySeparator
    ensures r.Ok? ==> |r.value| >= 1
  {
    if sep == "" then Err(EmptySeparator) else Ok(Pieces(s, sep))
  }

  /** `sep.join(pieces)`. */
  function Join(pieces: seq<string>, sep: string): string {
    if |pieces| == 0 then ""
    else if |pieces| == 1 then pieces[0]
    else pieces[0] + sep + Join(pieces[1..], sep)
  }

  lemma JoinCons(x: string, tail: seq<string>, sep: string)
    requires |tail| >= 1
    ensures Join([x] + tail, sep) == x + sep + Join(tail, sep)
  {
    assert ([x] + tail)[1..] == tail;
  }

  /** Cutting `s` around an occurrence of `sep` and gluing it back gives `s`. */
  lemma Reassemble(s: string, sep: string, k: nat)
    requires OccursAt(s, sep, k)
    ensures s == s[..k] + sep + s[k + |sep|..]
  {
    assert s == s[..k] + s[k..k + |sep|] + s[k + |sep|..];
  }

  /** Re-joining the pieces with the separator gives back the original string. */
  lemma {:induction false} JoinPieces(s: string, sep: string)
    requires |sep| > 0
    ensures Join(Pieces(s, sep), sep) == s
    decreases |s|
  {
    match Find(s, sep)
    case None =>
    case Some(k) =>
      var rest := s[k + |sep|..];
      JoinPieces(rest, sep);
      JoinCons(s[..k], Pieces(rest, sep), sep);
      Reassemble(s, sep, k);
  }

  /** An occurrence inside a prefix is an occurrence in the whole string. */
  lemma OccursInPrefix(s: string, sep: string, n: nat, q: int)
    requires n <= |s|
    requires OccursAt(s[..n], sep, q)
    ensures OccursAt(s, sep, q) && q + |sep| <= n
  {
    assert s[..n][q..q + |sep|] == s[q..q + |sep|];
  }

  /** The text before the leftmost occurrence does not contain the separator. */
  lemma BeforeFirstIsFree(s: string, sep: string, k: nat)
    requires |sep| > 0 && Find(s, sep) == Some(k)
    ensures Free(s[..k], sep)
  {
    forall q | 0 <= q <= k - |sep|
      ensures !OccursAt(s[..k], sep, q)
    {
      if OccursAt(s[..k], sep, q) {
        OccursInPrefix(s, sep, k, q);
      }
    }
  }

  /** No piece contains the separator. */
  lemma {:induction false} PiecesAreFree(s: string, sep: string)
    requires |sep| > 0
    ensures forall p :: p in Pieces(s, sep) ==> Free(p, sep)
    decreases |s|
  {
    match Find(s, sep)
    case None =>
    case Some(k) =>
      var tail := Pieces(s[k + |sep|..], sep);
      PiecesAreFree(s[k + |sep|..], sep);
      BeforeFirstIsFree(s, sep, k);
      assert forall p :: p in [s[..k]] + tail ==> p == s[..k] || p in tail;
  }

  /** `split` leaves `s` whole exactly when the separator does not occur in it. */
  lemma SplitWhole(s: string, sep: string)
    requires |sep| > 0
    ensures Pieces(s, sep) == [s] <==> Free(s, sep)
  {
    match Find(s, sep)
    case None =>
    case Some(k) =>
      assert |Pieces(s, sep)| >= 2;
  }

  /** The empty string splits into one empty piece, so `max` over the scores is defined. */
  lemma SplitEmpty(sep: string)
    requires |sep| > 0
    ensures Split("", sep) == Ok([""])
  {
  }
}
