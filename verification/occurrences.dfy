/**
 The occurrence scanner behind `replaceOcurrences`: leftmost search for a query
 (what `NSString.range(of:options:range:)` answers) and the left-to-right list of
 non-overlapping occurrences it yields when every search restarts right after the
 previous match. Generic over the element type: text is a sequence of characters.
 */
module Occurrences {
  import opened Wrappers

  /** `q` occurs in `s` starting at position `i`. */
  predicate MatchAt<T(==)>(s: seq<T>, q: seq<T>, i: nat) {
    i + |q| <= |s| && MatchesFrom(s, q, i, 0)
  }

  /** `q[k..]` occurs in `s` at `i + k`, compared element by element. */
  predicate MatchesFrom<T(==)>(s: seq<T>, q: seq<T>, i: nat, k: nat)
    requires i + |q| <= |s|
    decreases |q| - k
  {
    k >= |q| || (s[i + k] == q[k] && MatchesFrom(s, q, i, k + 1))
  }

  lemma {:induction false} MatchesFromSlice<T>(s: seq<T>, q: seq<T>, i: nat, k: nat)
    requires i + |q| <= |s| && k <= |q|
    ensures MatchesFrom(s, q, i, k) <==> s[i + k..i + |q|] == q[k..]
    decreases |q| - k
  {
    if k < |q| {
      MatchesFromSlice(s, q, i, k + 1);
      assert s[i + k..i + |q|] == [s[i + k]] + s[i + k + 1..i + |q|];
      assert q[k..] == [q[k]] + q[k + 1..];
    }
  }

  /** The element-wise comparison is equality of the slice with the query. */
  lemma MatchAtSlice<T>(s: seq<T>, q: seq<T>, i: nat)
    ensures MatchAt(s, q, i) <==> i + |q| <= |s| && s[i..i + |q|] == q
  {
    if i + |q| <= |s| {
      MatchesFromSlice(s, q, i, 0);
      assert q[0..] == q;
    }
  }

  /** Matches seen through a suffix of the text are the matches of the whole text shifted. */
  lemma MatchAtSuffix<T>(s: seq<T>, q: seq<T>, from: nat, j: nat)
    requires from <= |s|
    ensures MatchAt(s[from..], q, j) <==> MatchAt(s, q, from + j)
  {
    MatchAtSlice(s[from..], q, j);
    MatchAtSlice(s, q, from + j);
    if from + j + |q| <= |s| {
      assert s[from..][j..j + |q|] == s[from + j..from + j + |q|];
    }
  }

  /** Matches inside a window `s[lo..hi]` are the matches of the whole text lying
      entirely inside the window. */
  lemma MatchAtWindow<T>(s: seq<T>, q: seq<T>, lo: nat, hi: nat, j: nat)
    requires lo <= hi <= |s|
    ensures MatchAt(s[lo..hi], q, j) <==> lo + j + |q| <= hi && MatchAt(s, q, lo + j)
  {
    var w := s[lo..hi];
    MatchAtSlice(w, q, j);
    MatchAtSlice(s, q, lo + j);
    if lo + j + |q| <= hi {
      var x, y := w[j..j + |q|], s[lo + j..lo + j + |q|];
      assert forall k :: 0 <= k < |q| ==> x[k] == y[k];
      assert x == y;
    }
  }

  /** The leftmost occurrence of `q` at or after `from`; an empty query never occurs. */
  function FindFrom<T(==)>(s: seq<T>, q: seq<T>, from: nat): (r: Option<nat>)
    ensures r.Some? ==> |q| > 0 && from <= r.value && MatchAt(s, q, r.value)
    ensures r.Some? ==> forall j :: from <= j < r.value ==> !MatchAt(s, q, j)
    ensures r.None? ==> |q| == 0 || forall j :: from <= j ==> !MatchAt(s, q, j)
    decreases |s| - from
  {
    if |q| == 0 || from + |q| > |s| then None
    else if MatchAt(s, q, from) then Some(from)
    else FindFrom(s, q, from + 1)
  }

  /** Ascending `n`-long spans, no two of which overlap. */
  ghost predicate NonOverlapping(occ: seq<nat>, n: nat) {
    forall a, b :: 0 <= a < b < |occ| ==> occ[a] + n <= occ[b]
  }

  /** `occ` lists `n`-long spans laid end to end in order between `from` and `end`, with
      gaps allowed: the shape a left-to-right scan produces. */
  predicate Spans(occ: seq<nat>, n: nat, from: nat, end: nat)
    decreases |occ|
  {
    if |occ| == 0 then from <= end
    else from <= occ[0] && Spans(occ[1..], n, occ[0] + n, end)
  }

  lemma {:induction false} SpansEndAfterStart(occ: seq<nat>, n: nat, from: nat, end: nat)
    requires Spans(occ, n, from, end)
    ensures from <= end
    decreases |occ|
  {
    if |occ| > 0 {
      SpansEndAfterStart(occ[1..], n, occ[0] + n, end);
    }
  }

  /** Spans laid end to end are ascending, non-overlapping and inside `[from, end)`. */
  lemma {:induction false} SpansNonOverlapping(occ: seq<nat>, n: nat, from: nat, end: nat)
    requires Spans(occ, n, from, end)
    ensures NonOverlapping(occ, n)
    ensures forall k :: 0 <= k < |occ| ==> from <= occ[k] && occ[k] + n <= end
    decreases |occ|
  {
    if |occ| > 0 {
      var rest := occ[1..];
      SpansNonOverlapping(rest, n, occ[0] + n, end);
      assert forall k :: 0 < k < |occ| ==> occ[k] == rest[k - 1];
    }
  }

  /** Matches in a prefix `s[..end]` are the matches of the whole text ending by `end`. */
  lemma MatchAtPrefix<T>(s: seq<T>, q: seq<T>, end: nat, j: nat)
    requires end <= |s|
    ensures MatchAt(s[..end], q, j) <==> j + |q| <= end && MatchAt(s, q, j)
  {
    MatchAtSlice(s[..end], q, j);
    MatchAtSlice(s, q, j);
    if j + |q| <= end {
      assert s[..end][j..j + |q|] == s[j..j + |q|];
    }
  }

  /** Position `j` lies inside one of the `n`-long spans starting at the positions in `occ`. */
  predicate Covered(occ: seq<nat>, n: nat, j: nat) {
    |occ| > 0 && (occ[0] <= j < occ[0] + n || Covered(occ[1..], n, j))
  }

  lemma CoveredCons(i: nat, rest: seq<nat>, n: nat, j: nat)
    requires Covered(rest, n, j) || i <= j < i + n
    ensures Covered([i] + rest, n, j)
  {
    assert ([i] + rest)[1..] == rest;
  }

  /** If `i` is the first match from `from` on and `rest` covers every match after it, then
      `i` followed by `rest` covers every match from `from` on. */
  lemma CoveredAfterFirst<T>(s: seq<T>, q: seq<T>, from: nat, i: nat, rest: seq<nat>)
    requires from <= i && forall j :: from <= j < i ==> !MatchAt(s, q, j)
    requires forall j :: i + |q| <= j && MatchAt(s, q, j) ==> Covered(rest, |q|, j)
    ensures forall j :: from <= j && MatchAt(s, q, j) ==> Covered([i] + rest, |q|, j)
  {
    forall j | from <= j && MatchAt(s, q, j)
      ensures Covered([i] + rest, |q|, j)
    {
      CoveredCons(i, rest, |q|, j);
    }
  }

  /** The occurrences of `q` from `from` on, scanned left to right, each search restarting
      right after the previous match: ascending, non-overlapping, and covering every place
      where `q` occurs. */
  function OccurrencesFrom<T(==)>(s: seq<T>, q: seq<T>, from: nat): (occ: seq<nat>)
    ensures forall k :: 0 <= k < |occ| ==> MatchAt(s, q, occ[k])
    ensures from <= |s| ==> Spans(occ, |q|, from, |s|)
    decreases |s| - from
  {
    match FindFrom(s, q, from)
    case None => []
    case Some(i) =>
      var rest := OccurrencesFrom(s, q, i + |q|);
      assert ([i] + rest)[1..] == rest;
      [i] + rest
  }

  lemma OccurrencesFromFirst<T>(s: seq<T>, q: seq<T>, from: nat, i: nat)
    requires FindFrom(s, q, from) == Some(i)
    ensures OccurrencesFrom(s, q, from) == [i] + OccurrencesFrom(s, q, i + |q|)
  {
  }

  /** The scan misses nothing: every place from `from` on where a non-empty query occurs
      lies inside one of the occurrences found, so the scan is greedy as well as sound. */
  lemma {:induction false} OccurrencesCoverMatches<T>(s: seq<T>, q: seq<T>, from: nat)
    requires |q| > 0
    ensures forall j :: from <= j && MatchAt(s, q, j) ==> Covered(OccurrencesFrom(s, q, from), |q|, j)
    decreases |s| - from
  {
    var first := FindFrom(s, q, from);
    if first.Some? {
      var i := first.value;
      OccurrencesFromFirst(s, q, from, i);
      OccurrencesCoverMatches(s, q, i + |q|);
      CoveredAfterFirst(s, q, from, i, OccurrencesFrom(s, q, i + |q|));
    }
  }

  /** All occurrences of `q` in `s`; there are none exactly when the query is empty or
      does not occur. */
  function AllOccurrences<T(==)>(s: seq<T>, q: seq<T>): (occ: seq<nat>)
    ensures forall k :: 0 <= k < |occ| ==> MatchAt(s, q, occ[k])
    ensures NonOverlapping(occ, |q|)
    ensures |q| > 0 ==> forall j :: MatchAt(s, q, j) ==> Covered(occ, |q|, j)
    ensures |occ| == 0 <==> |q| == 0 || forall j :: !MatchAt(s, q, j)
  {
    var occ := OccurrencesFrom(s, q, 0);
    SpansNonOverlapping(occ, |q|, 0, |s|);
    if |q| > 0 then
      OccurrencesCoverMatches(s, q, 0);
      occ
    else
      occ
  }
}
