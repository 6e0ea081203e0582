/**
 `NSMutableAttributedString.replaceOcurrences(of:with:within:)` on the text of an
 attributed string: every non-overlapping occurrence of a query, found left to
 right, is replaced; a bounding range limits the search to the occurrences lying
 entirely inside it; an empty query changes nothing.
 */
module ReplaceOccurrences {
  import opened Wrappers
  import opened Occurrences
  import opened RangeConversion

  /** Reference definition: scan from the left, replacing each occurrence of `q` by `r` and
      resuming right after it. */
  function ReplaceAll<T(==)>(s: seq<T>, q: seq<T>, r: seq<T>): (t: seq<T>)
    ensures |q| == 0 ==> t == s
    ensures |r| == |q| ==> |t| == |s|
    decreases |s|
  {
    if |q| == 0 || |s| < |q| then s
    else if MatchAt(s, q, 0) then r + ReplaceAll(s[|q|..], q, r)
    else [s[0]] + ReplaceAll(s[1..], q, r)
  }

  /** The bounded form: only `s[within]` is searched, the text around it is kept. */
  function ReplaceWithin<T(==)>(s: seq<T>, q: seq<T>, r: seq<T>, within: NSRange): (t: seq<T>)
    requires within.EndLocation() <= |s|
    ensures |q| == 0 ==> t == s
    ensures |r| == |q| ==> |t| == |s|
  {
    assert s[..within.location] + s[within.location..within.EndLocation()] + s[within.EndLocation()..] == s;
    s[..within.location] + ReplaceAll(s[within.location..within.EndLocation()], q, r)
      + s[within.EndLocation()..]
  }

  /** The replacement strategy of applying, in one left-to-right pass, the edits found in the
      ORIGINAL text: copy the text up to each occurrence, then the replacement, then skip the
      occurrence. */
  function Splice<T>(s: seq<T>, occ: seq<nat>, n: nat, r: seq<T>, from: nat): (t: seq<T>)
    requires Spans(occ, n, from, |s|)
    decreases |occ|
  {
    SpansEndAfterStart(occ, n, from, |s|);
    if |occ| == 0 then s[from..]
    else
      SpansEndAfterStart(occ[1..], n, occ[0] + n, |s|);
      s[from..occ[0]] + r + Splice(s, occ[1..], n, r, occ[0] + n)
  }

  /** Each edit of the splice changes the length by the difference between replacement and
      query. */
  lemma {:induction false} SpliceLength<T>(s: seq<T>, occ: seq<nat>, n: nat, r: seq<T>, from: nat)
    requires Spans(occ, n, from, |s|)
    ensures |Splice(s, occ, n, r, from)| == |s| - from + |occ| * (|r| - n)
    decreases |occ|
  {
    SpansEndAfterStart(occ, n, from, |s|);
    if |occ| > 0 {
      SpansEndAfterStart(occ[1..], n, occ[0] + n, |s|);
      SpliceLength(s, occ[1..], n, r, occ[0] + n);
      assert |occ[1..]| * (|r| - n) + (|r| - n) == |occ| * (|r| - n);
    }
  }

  /** A text in which the query never occurs comes back unchanged. */
  lemma {:induction false} ReplaceAllWithoutMatches<T>(s: seq<T>, q: seq<T>, r: seq<T>)
    requires forall j :: !MatchAt(s, q, j)
    ensures ReplaceAll(s, q, r) == s
    decreases |s|
  {
    if |q| > 0 && |s| >= |q| {
      assert !MatchAt(s, q, 0);
      forall j: nat ensures !MatchAt(s[1..], q, j) {
        MatchAtSuffix(s, q, 1, j);
      }
      ReplaceAllWithoutMatches(s[1..], q, r);
      assert [s[0]] + s[1..] == s;
    }
  }

  /** Up to the first occurrence the text is copied; the occurrence becomes the replacement;
      the search resumes right after it. */
  lemma {:induction false} ReplaceAllFirstMatch<T>(s: seq<T>, q: seq<T>, r: seq<T>, i: nat)
    requires |q| > 0 && MatchAt(s, q, i)
    requires forall j: nat :: j < i ==> !MatchAt(s, q, j)
    ensures ReplaceAll(s, q, r) == s[..i] + r + ReplaceAll(s[i + |q|..], q, r)
    decreases i
  {
    if i == 0 {
      ReplaceAllAtMatch(s, q, r);
      assert s[..0] + r == r;
    } else {
      FirstMatchInTail(s, q, i);
      ReplaceAllFirstMatch(s[1..], q, r, i - 1);
      FirstMatchAfterSkip(s, q, r, i);
    }
  }

  /** The step of `ReplaceAllFirstMatch` past a first element that starts no occurrence. */
  lemma {:induction false} FirstMatchAfterSkip<T>(s: seq<T>, q: seq<T>, r: seq<T>, i: nat)
    requires |q| > 0 && 0 < i && i + |q| <= |s| && !MatchAt(s, q, 0)
    requires ReplaceAll(s[1..], q, r) == s[1..][..i - 1] + r + ReplaceAll(s[1..][i - 1 + |q|..], q, r)
    ensures ReplaceAll(s, q, r) == s[..i] + r + ReplaceAll(s[i + |q|..], q, r)
  {
    ReplaceAllSkipsNonMatch(s, q, r);
    TailSlices(s, i, |q|);
    ConsOntoSplit(s, i, r, ReplaceAll(s[i + |q|..], q, r), ReplaceAll(s[1..], q, r));
  }

  /** Putting the first element back in front of a split tail gives the split whole. */
  lemma {:induction false} ConsOntoSplit<T>(s: seq<T>, i: nat, r: seq<T>, x: seq<T>, y: seq<T>)
    requires 0 < i <= |s| && y == s[1..][..i - 1] + r + x
    ensures [s[0]] + y == s[..i] + r + x
  {
    assert [s[0]] + s[1..][..i - 1] == s[..i];
  }

  /** Where the query starts, it is replaced and the scan resumes right after it. */
  lemma {:induction false} ReplaceAllAtMatch<T>(s: seq<T>, q: seq<T>, r: seq<T>)
    requires |q| > 0 && MatchAt(s, q, 0)
    ensures ReplaceAll(s, q, r) == r + ReplaceAll(s[|q|..], q, r)
  {
  }

  /** Where the query does not start, one element is copied and the scan moves on. */
  lemma {:induction false} ReplaceAllSkipsNonMatch<T>(s: seq<T>, q: seq<T>, r: seq<T>)
    requires |q| > 0 && |s| >= |q| && !MatchAt(s, q, 0)
    ensures ReplaceAll(s, q, r) == [s[0]] + ReplaceAll(s[1..], q, r)
  {
  }

  lemma {:induction false} FirstMatchInTail<T>(s: seq<T>, q: seq<T>, i: nat)
    requires 0 < i && MatchAt(s, q, i)
    requires forall j: nat :: j < i ==> !MatchAt(s, q, j)
    ensures MatchAt(s[1..], q, i - 1)
    ensures forall j: nat :: j < i - 1 ==> !MatchAt(s[1..], q, j)
  {
    MatchAtSuffix(s, q, 1, i - 1);
    forall j: nat | j < i - 1 ensures !MatchAt(s[1..], q, j) {
      MatchAtSuffix(s, q, 1, j);
    }
  }

  lemma {:induction false} TailSlices<T>(s: seq<T>, i: nat, n: nat)
    requires 0 < i && i + n <= |s|
    ensures s[1..][i - 1 + n..] == s[i + n..]
    ensures [s[0]] + s[1..][..i - 1] == s[..i]
  {
  }

  /** The reference scan and the splice of the occurrences found in the original text agree:
      replacing as you go and replacing what was found are the same. */
  lemma {:induction false} ReplaceAllIsSplice<T>(s: seq<T>, q: seq<T>, r: seq<T>, from: nat)
    requires from <= |s|
    ensures ReplaceAll(s[from..], q, r) == Splice(s, OccurrencesFrom(s, q, from), |q|, r, from)
    decreases |s| - from
  {
    match FindFrom(s, q, from)
    case None =>
      NoneLeftIsSplice(s, q, r, from);
    case Some(i) =>
      ReplaceAllIsSplice(s, q, r, i + |q|);
      NextMatchIsSplice(s, q, r, from, i);
  }

  lemma {:induction false} NoneLeftIsSplice<T>(s: seq<T>, q: seq<T>, r: seq<T>, from: nat)
    requires from <= |s| && FindFrom(s, q, from).None?
    ensures ReplaceAll(s[from..], q, r) == Splice(s, OccurrencesFrom(s, q, from), |q|, r, from)
  {
    if |q| > 0 {
      forall j: nat ensures !MatchAt(s[from..], q, j) {
        MatchAtSuffix(s, q, from, j);
      }
      ReplaceAllWithoutMatches(s[from..], q, r);
    }
  }

  lemma {:induction false} NextMatchIsSplice<T>(s: seq<T>, q: seq<T>, r: seq<T>, from: nat, i: nat)
    requires from <= |s| && FindFrom(s, q, from) == Some(i)
    requires i + |q| <= |s|
    requires ReplaceAll(s[i + |q|..], q, r) == Splice(s, OccurrencesFrom(s, q, i + |q|), |q|, r, i + |q|)
    ensures ReplaceAll(s[from..], q, r) == Splice(s, OccurrencesFrom(s, q, from), |q|, r, from)
  {
    var occ, rest := OccurrencesFrom(s, q, from), OccurrencesFrom(s, q, i + |q|);
    OccurrencesFromFirst(s, q, from, i);
    assert occ[0] == i && occ[1..] == rest;
    ReplaceAllFromFirst(s, q, r, from, i);
    SpliceFirst(s, occ, |q|, r, from);
  }

  /** Scanning a suffix whose first occurrence is at `i`. */
  lemma {:induction false} ReplaceAllFromFirst<T>(s: seq<T>, q: seq<T>, r: seq<T>, from: nat, i: nat)
    requires |q| > 0 && from <= i && MatchAt(s, q, i)
    requires forall j :: from <= j < i ==> !MatchAt(s, q, j)
    ensures ReplaceAll(s[from..], q, r) == s[from..i] + r + ReplaceAll(s[i + |q|..], q, r)
  {
    FirstMatchInSuffix(s, q, from, i);
    ReplaceAllFirstMatch(s[from..], q, r, i - from);
    SuffixReplaced(s, q, r, from, i);
  }

  /** Restates the first-match split of `s[from..]` in slices of `s` itself. */
  lemma {:induction false} SuffixReplaced<T>(s: seq<T>, q: seq<T>, r: seq<T>, from: nat, i: nat)
    requires from <= i && i + |q| <= |s|
    requires ReplaceAll(s[from..], q, r)
      == s[from..][..i - from] + r + ReplaceAll(s[from..][i - from + |q|..], q, r)
    ensures ReplaceAll(s[from..], q, r) == s[from..i] + r + ReplaceAll(s[i + |q|..], q, r)
  {
    SuffixSlices(s, from, i, |q|);
  }

  lemma {:induction false} FirstMatchInSuffix<T>(s: seq<T>, q: seq<T>, from: nat, i: nat)
    requires from <= i && MatchAt(s, q, i)
    requires forall j :: from <= j < i ==> !MatchAt(s, q, j)
    ensures MatchAt(s[from..], q, i - from)
    ensures forall j: nat :: j < i - from ==> !MatchAt(s[from..], q, j)
  {
    MatchAtSuffix(s, q, from, i - from);
    forall j: nat | j < i - from ensures !MatchAt(s[from..], q, j) {
      MatchAtSuffix(s, q, from, j);
    }
  }

  lemma {:induction false} SuffixSlices<T>(s: seq<T>, from: nat, i: nat, n: nat)
    requires from <= i && i + n <= |s|
    ensures s[from..][..i - from] == s[from..i]
    ensures s[from..][i - from + n..] == s[i + n..]
  {
  }

  lemma {:induction false} SpliceFirst<T>(s: seq<T>, occ: seq<nat>, n: nat, r: seq<T>, from: nat)
    requires |occ| > 0 && Spans(occ, n, from, |s|)
    requires occ[0] + n <= |s|
    ensures Splice(s, occ, n, r, from) == s[from..occ[0]] + r + Splice(s, occ[1..], n, r, occ[0] + n)
  {
  }

  /** Each occurrence found changes the length by the difference between replacement and
      query: `k` occurrences make exactly `k` edits. */
  lemma {:induction false} ReplaceAllLength<T>(s: seq<T>, q: seq<T>, r: seq<T>)
    ensures |ReplaceAll(s, q, r)| == |s| + |AllOccurrences(s, q)| * (|r| - |q|)
  {
    ReplaceAllIsSplice(s, q, r, 0);
    SpliceLength(s, AllOccurrences(s, q), |q|, r, 0);
    assert s[0..] == s;
  }

  /** Replacing a query by itself changes nothing. */
  lemma {:induction false} ReplaceAllBySelf<T>(s: seq<T>, q: seq<T>)
    ensures ReplaceAll(s, q, q) == s
    decreases |s|
  {
    if |q| > 0 && |s| >= |q| {
      MatchAtSlice(s, q, 0);
      if MatchAt(s, q, 0) {
        assert s[0..|q|] == s[..|q|];
        ReplaceAllBySelf(s[|q|..], q);
        assert s[..|q|] + s[|q|..] == s;
      } else {
        ReplaceAllBySelf(s[1..], q);
        assert [s[0]] + s[1..] == s;
      }
    }
  }

  /** The text comes back unchanged exactly when the query is empty, does not occur, or is
      replaced by itself. */
  lemma {:induction false} ReplaceAllUnchanged<T>(s: seq<T>, q: seq<T>, r: seq<T>)
    ensures ReplaceAll(s, q, r) == s <==> |q| == 0 || r == q || forall j :: !MatchAt(s, q, j)
  {
    if |q| == 0 {
    } else if r == q {
      ReplaceAllBySelf(s, q);
    } else if forall j :: !MatchAt(s, q, j) {
      ReplaceAllWithoutMatches(s, q, r);
    } else {
      var i :| MatchAt(s, q, i);
      ReplaceAllChanges(s, q, r, i);
    }
  }

  /** A query that occurs, replaced by something else, always changes the text. */
  lemma {:induction false} ReplaceAllChanges<T>(s: seq<T>, q: seq<T>, r: seq<T>, i: nat)
    requires |q| > 0 && r != q && MatchAt(s, q, i)
    ensures ReplaceAll(s, q, r) != s
  {
    if |r| != |q| {
      ReplaceAllChangesLength(s, q, r, i);
    } else {
      var k := FindFrom(s, q, 0).value;
      ReplaceAllFirstMatch(s, q, r, k);
      ReplacedSpan(s[..k], r, ReplaceAll(s[k + |q|..], q, r));
      MatchAtSlice(s, q, k);
    }
  }

  lemma {:induction false} ReplaceAllChangesLength<T>(s: seq<T>, q: seq<T>, r: seq<T>, i: nat)
    requires |q| > 0 && |r| != |q| && MatchAt(s, q, i)
    ensures |ReplaceAll(s, q, r)| != |s|
  {
    var n := |AllOccurrences(s, q)|;
    ReplaceAllLength(s, q, r);
    assert n > 0;
    ProductNonZero(n, |r| - |q|);
  }

  /** The one nonlinear step of `ReplaceAllChangesLength`, kept apart from the sequences. */
  lemma {:induction false} ProductNonZero(a: int, d: int)
    requires a > 0 && d != 0
    ensures a * d != 0
  {
  }

  lemma {:induction false} ReplacedSpan<T>(a: seq<T>, r: seq<T>, b: seq<T>)
    ensures (a + r + b)[|a|..|a| + |r|] == r
  {
  }

  /** A query occurring once, at the start, in the middle or at the end, is replaced there and
      the text before and after it is kept. */
  lemma {:induction false} ReplaceSingleOccurrence<T>(p: seq<T>, q: seq<T>, t: seq<T>, r: seq<T>)
    requires |q| > 0
    requires forall j :: MatchAt(p + q + t, q, j) ==> j == |p|
    ensures ReplaceAll(p + q + t, q, r) == p + r + t
  {
    var s := p + q + t;
    ConcatParts(p, q, t);
    MatchAtSlice(s, q, |p|);
    forall j: nat | j < |p| ensures !MatchAt(s, q, j) { }
    ReplaceAllFirstMatch(s, q, r, |p|);
    forall j: nat ensures !MatchAt(t, q, j) {
      MatchAtSuffix(s, q, |p| + |q|, j);
    }
    ReplaceAllWithoutMatches(t, q, r);
  }

  lemma {:induction false} ConcatParts<T>(p: seq<T>, q: seq<T>, t: seq<T>)
    ensures (p + q + t)[..|p|] == p
    ensures (p + q + t)[|p|..|p| + |q|] == q
    ensures (p + q + t)[|p| + |q|..] == t
  {
  }

  /** The text in front of the first occurrence is never touched. */
  lemma {:induction false} ReplaceAllKeepsPrefix<T>(s: seq<T>, q: seq<T>, r: seq<T>, k: nat)
    requires k <= |s|
    requires forall j: nat :: j < k ==> !MatchAt(s, q, j)
    ensures k <= |ReplaceAll(s, q, r)| && ReplaceAll(s, q, r)[..k] == s[..k]
  {
    var first := FindFrom(s, q, 0);
    if first.None? {
      if |q| > 0 {
        ReplaceAllWithoutMatches(s, q, r);
      }
    } else {
      var i := first.value;
      ReplaceAllFirstMatch(s, q, r, i);
      assert s[..i][..k] == s[..k];
    }
  }

  /** Text that does not contain the query's first element is copied as it is. */
  lemma {:induction false} ReplaceAllCopiesPrefix<T>(p: seq<T>, rest: seq<T>, q: seq<T>, r: seq<T>)
    requires |q| > 0 && q[0] !in p
    ensures ReplaceAll(p + rest, q, r) == p + ReplaceAll(rest, q, r)
    decreases |p|
  {
    if |p| > 0 {
      var s := p + rest;
      if |s| < |q| {
        ReplaceAllShort(rest, q, r);
      } else {
        assert s[0] == p[0] != q[0];
        assert !MatchAt(s, q, 0);
        ReplaceAllSkipsNonMatch(s, q, r);
        assert s[1..] == p[1..] + rest;
        ReplaceAllCopiesPrefix(p[1..], rest, q, r);
        assert [s[0]] + p[1..] == p;
      }
    } else {
      assert p + rest == rest;
    }
  }

  lemma {:induction false} ReplaceAllShort<T>(s: seq<T>, q: seq<T>, r: seq<T>)
    requires |s| < |q|
    ensures ReplaceAll(s, q, r) == s
  {
  }

  /** A text that starts with the query starts, once replaced, with the replacement. */
  lemma {:induction false} ReplaceAllStartsWithQuery<T>(q: seq<T>, rest: seq<T>, r: seq<T>)
    requires |q| > 0
    ensures ReplaceAll(q + rest, q, r) == r + ReplaceAll(rest, q, r)
  {
    var s := q + rest;
    assert s[..|q|] == q && s[|q|..] == rest;
    MatchAtSlice(s, q, 0);
    assert s[0..|q|] == s[..|q|];
    ReplaceAllAtMatch(s, q, r);
  }

  /** Without a bounding range, the whole text is searched. */
  lemma {:induction false} ReplaceWithinWholeText<T>(s: seq<T>, q: seq<T>, r: seq<T>)
    ensures ReplaceWithin(s, q, r, NSRange(0, |s|)) == ReplaceAll(s, q, r)
  {
    assert s[0..|s|] == s;
    assert s[..0] == [] && s[|s|..] == [];
  }

  /** Text outside the bounding range is kept, whatever occurs there. */
  lemma {:induction false} ReplaceWithinKeepsOutside<T>(s: seq<T>, q: seq<T>, r: seq<T>, within: NSRange)
    requires within.EndLocation() <= |s|
    ensures var t := ReplaceWithin(s, q, r, within);
      && |t| >= within.location + |s| - within.EndLocation()
      && t[..within.location] == s[..within.location]
      && t[|t| - (|s| - within.EndLocation())..] == s[within.EndLocation()..]
  {
  }

  /** When no occurrence lies entirely inside the bounding range, nothing changes, even if the
      query occurs outside it or straddles its edges. */
  lemma {:induction false} ReplaceWithinNoInnerMatch<T>(s: seq<T>, q: seq<T>, r: seq<T>, within: NSRange)
    requires within.EndLocation() <= |s|
    requires forall j :: within.location <= j && j + |q| <= within.EndLocation() ==> !MatchAt(s, q, j)
    ensures ReplaceWithin(s, q, r, within) == s
  {
    var lo, hi := within.location, within.EndLocation();
    forall j: nat ensures !MatchAt(s[lo..hi], q, j) {
      MatchAtWindow(s, q, lo, hi, j);
    }
    ReplaceAllWithoutMatches(s[lo..hi], q, r);
    assert s[..lo] + s[lo..hi] + s[hi..] == s;
  }

  /** The in-place engine: search the bounding range for the leftmost occurrence, replace it,
      then search again right after the inserted replacement, moving the end of the range by
      the change in length. An empty query is never found, so it changes nothing. */
  method ReplaceOccurrencesIn<T(==)>(s: seq<T>, q: seq<T>, r: seq<T>, within: NSRange) returns (t: seq<T>)
    requires within.EndLocation() <= |s|
    ensures t == ReplaceWithin(s, q, r, within)
  {
    t := s;
    var pos: nat, end: nat := within.location, within.EndLocation();
    while true
      invariant pos <= end <= |t|
      invariant Pending(t, q, r, pos, end) == ReplaceWithin(s, q, r, within)
      decreases end - pos
    {
      var found := FindFrom(t[..end], q, pos);
      if found.None? {
        NothingLeftToReplace(t, q, r, pos, end);
        return;
      }
      var i := found.value;
      var u := t[..i] + r + t[i + |q|..];
      ReplaceStep(t, q, r, pos, end, i, u);
      t, pos, end := u, i + |r|, end - |q| + |r|;
    }
  }

  /** The outcome the engine is heading for when `t[pos..end]` is still to be searched. */
  function Pending<T(==)>(t: seq<T>, q: seq<T>, r: seq<T>, pos: nat, end: nat): seq<T>
    requires pos <= end <= |t|
  {
    t[..pos] + ReplaceAll(t[pos..end], q, r) + t[end..]
  }

  /** When the search of `t[pos..end]` finds nothing, what is left to do is nothing. */
  lemma {:induction false} NothingLeftToReplace<T>(t: seq<T>, q: seq<T>, r: seq<T>, pos: nat, end: nat)
    requires pos <= end <= |t| && FindFrom(t[..end], q, pos).None?
    ensures Pending(t, q, r, pos, end) == t
  {
    if |q| > 0 {
      forall j: nat ensures !MatchAt(t[pos..end], q, j) {
        MatchAtWindow(t, q, pos, end, j);
        MatchAtPrefix(t, q, end, pos + j);
      }
      ReplaceAllWithoutMatches(t[pos..end], q, r);
    }
    assert t[..pos] + t[pos..end] + t[end..] == t;
  }

  /** One edit of the engine keeps the outcome it is heading for: the occurrence found at `i`
      is the first one the reference scan of `t[pos..end]` replaces. */
  lemma {:induction false} ReplaceStep<T>(t: seq<T>, q: seq<T>, r: seq<T>, pos: nat, end: nat, i: nat, u: seq<T>)
    requires pos <= end <= |t| && FindFrom(t[..end], q, pos) == Some(i)
    requires u == t[..i] + r + t[i + |q|..]
    ensures |q| > 0 && pos <= i && i + |q| <= end && end - |q| + |r| <= |u|
    ensures Pending(u, q, r, i + |r|, end - |q| + |r|) == Pending(t, q, r, pos, end)
  {
    FirstInWindow(t, q, r, pos, end, i);
    PendingAfterEdit(t, u, q, r, pos, end, i, ReplaceAll(t[i + |q|..end], q, r));
  }

  /** The outcome is kept by replacing `t[i..i + |q|]` by `r`, as long as the reference scan of
      the window replaces that span first and then turns the rest of the window into `y`. */
  lemma {:induction false} PendingAfterEdit<T>(t: seq<T>, u: seq<T>, q: seq<T>, r: seq<T>, pos: nat, end: nat, i: nat, y: seq<T>)
    requires pos <= i && i + |q| <= end <= |t| && u == t[..i] + r + t[i + |q|..]
    requires ReplaceAll(t[i + |q|..end], q, r) == y
    requires ReplaceAll(t[pos..end], q, r) == t[pos..i] + r + y
    ensures end - |q| + |r| <= |u|
    ensures Pending(u, q, r, i + |r|, end - |q| + |r|) == Pending(t, q, r, pos, end)
  {
    var x := ReplaceAll(t[pos..end], q, r);
    EditKeepsOutcome(t, u, r, i, |q|, pos, end, x, y);
    PendingIs(t, q, r, pos, end, x);
    PendingIs(u, q, r, i + |r|, end - |q| + |r|, y);
  }

  /** `Pending` in terms of what the window turns into. */
  lemma {:induction false} PendingIs<T>(t: seq<T>, q: seq<T>, r: seq<T>, pos: nat, end: nat, x: seq<T>)
    requires pos <= end <= |t| && ReplaceAll(t[pos..end], q, r) == x
    ensures Pending(t, q, r, pos, end) == t[..pos] + x + t[end..]
  {
  }

  /** Replacing `t[i..i + n]` by `r` in the text: whatever `y` the rest of the window turns
      into, the pieces around it line up. */
  lemma {:induction false} EditKeepsOutcome<T>(t: seq<T>, u: seq<T>, r: seq<T>, i: nat, n: nat, pos: nat, end: nat, x: seq<T>, y: seq<T>)
    requires pos <= i && i + n <= end <= |t| && u == t[..i] + r + t[i + n..]
    requires x == t[pos..i] + r + y
    ensures |u| == |t| - n + |r|
    ensures u[i + |r|..end - n + |r|] == t[i + n..end]
    ensures u[..i + |r|] + y + u[end - n + |r|..] == t[..pos] + x + t[end..]
  {
    assert u[..i + |r|] == t[..pos] + t[pos..i] + r;
    assert u[end - n + |r|..] == t[end..];
  }

  /** The reference scan of a window, when the leftmost occurrence in it is at `i`. */
  lemma {:induction false} FirstInWindow<T>(t: seq<T>, q: seq<T>, r: seq<T>, pos: nat, end: nat, i: nat)
    requires pos <= end <= |t| && FindFrom(t[..end], q, pos) == Some(i)
    ensures pos <= i && i + |q| <= end
    ensures ReplaceAll(t[pos..end], q, r) == t[pos..i] + r + ReplaceAll(t[i + |q|..end], q, r)
  {
    var w := t[..end];
    ReplaceAllFromFirst(w, q, r, pos, i);
    PrefixSlices(t, end, pos, i, |q|);
  }

  lemma {:induction false} PrefixSlices<T>(t: seq<T>, end: nat, pos: nat, i: nat, n: nat)
    requires pos <= i && i + n <= end <= |t|
    ensures t[..end][pos..] == t[pos..end]
    ensures t[..end][pos..i] == t[pos..i]
    ensures t[..end][i + n..] == t[i + n..end]
  {
  }
}
