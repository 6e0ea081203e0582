/**
 Conversions between UTF-16 offsets (what `NSString` and `NSRange` speak) and
 character positions in a Swift `String`, as the String range-conversion
 extension provides them. A "native" `NSRange` counts characters; a UTF-16
 `NSRange` counts code units. A `CharRange` is a `Range<String.Index>`, written
 as the two character indices it spans.
 */
module RangeConversion {
  import opened Wrappers
  import opened Text

  datatype NSRange = NSRange(location: nat, length: nat) {
    /** `NSRange.endLocation`: one past the last position covered. */
    function EndLocation(): nat { location + length }
  }

  /** A `Range<String.Index>`: character indices `lower ..< upper`. */
  datatype CharRange = CharRange(lower: nat, upper: nat)

  /** Why a UTF-16 range has no counterpart in characters. */
  datatype ConversionError = OutOfBounds | MisalignedOffset

  predicate ValidRange(s: Text, r: NSRange) {
    r.EndLocation() <= |s|
  }

  predicate ValidCharRange(s: Text, cr: CharRange) {
    cr.lower <= cr.upper <= |s|
  }

  /** `String.indexFromLocation`: the character index whose boundary sits at UTF-16
      offset `location`, or none when that offset is past the end or falls strictly
      inside a character. */
  function IndexFromLocation(s: Text, location: nat): (r: Option<nat>)
    ensures r.Some? ==> r.value <= |s| && Offset(s, r.value) == location
    ensures r.None? ==> forall k :: 0 <= k <= |s| ==> Offset(s, k) != location
  {
    BoundaryFrom(s, location, 0)
  }

  /** Walks the character boundaries from index `i` on, one character at a time, until it
      reaches `location` or passes it. */
  function BoundaryFrom(s: Text, location: nat, i: nat): (r: Option<nat>)
    requires i <= |s| && Offset(s, i) <= location
    ensures r.Some? ==> i <= r.value <= |s| && Offset(s, r.value) == location
    ensures r.None? ==> forall k :: i <= k <= |s| ==> Offset(s, k) != location
    decreases |s| - i
  {
    if Offset(s, i) == location then Some(i)
    else if i == |s| then None
    else if Offset(s, i + 1) > location then
      OffsetsAbove(s, i + 1);
      None
    else BoundaryFrom(s, location, i + 1)
  }

  /** A UTF-16 offset is a boundary exactly when it is the offset of some character index,
      and then that index is what `IndexFromLocation` returns. */
  lemma {:induction false} IndexFromLocationOfOffset(s: Text, k: nat)
    requires k <= |s|
    ensures IndexFromLocation(s, Offset(s, k)) == Some(k)
  {
    var r := IndexFromLocation(s, Offset(s, k));
    OffsetInjective(s, r.value, k);
  }

  /** `String.location(before:)`: the UTF-16 offset one whole character earlier, or none
      at the start of the text or when `location` is not a character boundary. */
  function LocationBefore(s: Text, location: nat): (r: Option<nat>)
    ensures r.Some? ==> r.value < location && IndexFromLocation(s, r.value).Some?
    ensures r.Some? ==> IndexFromLocation(s, location).Some?
  {
    match IndexFromLocation(s, location)
    case None => None
    case Some(i) =>
      if i == 0 then None
      else
        OffsetStrictlyIncreasing(s, i - 1, i);
        IndexFromLocationOfOffset(s, i - 1);
        Some(Offset(s, i - 1))
  }

  /** `String.location(after:)`: the UTF-16 offset one whole character later, or none at
      the end of the text or when `location` is not a character boundary. */
  function LocationAfter(s: Text, location: nat): (r: Option<nat>)
    ensures r.Some? ==> location < r.value <= Utf16Length(s) && IndexFromLocation(s, r.value).Some?
    ensures r.Some? ==> IndexFromLocation(s, location).Some?
  {
    match IndexFromLocation(s, location)
    case None => None
    case Some(i) =>
      if i == |s| then None
      else
        OffsetStrictlyIncreasing(s, i, i + 1);
        OffsetBounded(s, i + 1);
        IndexFromLocationOfOffset(s, i + 1);
        Some(Offset(s, i + 1))
  }

  /** `String.range(from:)`: the character range an `NSRange` in characters denotes. */
  function RangeFrom(s: Text, r: NSRange): (cr: CharRange)
    requires ValidRange(s, r)
    ensures ValidCharRange(s, cr)
    ensures cr.lower == r.location && cr.upper - cr.lower == r.length
  {
    CharRange(r.location, r.location + r.length)
  }

  /** `String.nsRange(from:)`: the `NSRange` in characters of a character range. */
  function NSRangeFrom(s: Text, cr: CharRange): (r: NSRange)
    requires ValidCharRange(s, cr)
    ensures ValidRange(s, r)
    ensures r.location == cr.lower && r.length == cr.upper - cr.lower
  {
    NSRange(cr.lower, cr.upper - cr.lower)
  }

  /** `range(from:)` and `nsRange(from:)` are inverse bijections between the native ranges
      and the character ranges within a text. */
  lemma {:induction false} RangeFromNSRangeFromInverse(s: Text, r: NSRange, cr: CharRange)
    requires ValidRange(s, r) && ValidCharRange(s, cr)
    ensures RangeFrom(s, r) == cr <==> NSRangeFrom(s, cr) == r
    ensures NSRangeFrom(s, RangeFrom(s, r)) == r && RangeFrom(s, NSRangeFrom(s, cr)) == cr
  {
  }

  /** The characters a character range covers: `string[range]`. */
  function Substring(s: Text, cr: CharRange): (t: Text)
    requires ValidCharRange(s, cr)
    ensures |t| == cr.upper - cr.lower
  {
    s[cr.lower..cr.upper]
  }

  /** `String.nsRange(fromUTF16NSRange:)`: both ends of a UTF-16 range mapped to character
      positions. Fails with `OutOfBounds` past the text's end and with `MisalignedOffset`
      when an end falls inside a character. */
  function NSRangeFromUtf16(s: Text, u: NSRange): (r: Result<NSRange, ConversionError>)
    ensures r.Success? ==> ValidRange(s, r.value)
    ensures r.Success? ==>
              Offset(s, r.value.location) == u.location && Offset(s, r.value.EndLocation()) == u.EndLocation()
    ensures r == Failure(OutOfBounds) <==> u.EndLocation() > Utf16Length(s)
  {
    if u.EndLocation() > Utf16Length(s) then Failure(OutOfBounds)
    else
      var lower := IndexFromLocation(s, u.location);
      var upper := IndexFromLocation(s, u.EndLocation());
      if lower.None? || upper.None? then Failure(MisalignedOffset)
      else
        OffsetOrderReflected(s, lower.value, upper.value);
        Success(NSRange(lower.value, upper.value - lower.value))
  }

  /** The UTF-16 range of a native range: the inverse of `NSRangeFromUtf16` on the ranges
      it accepts, used to state its round trips. */
  function Utf16NSRange(s: Text, r: NSRange): (u: NSRange)
    requires ValidRange(s, r)
    ensures u.location == Offset(s, r.location) && u.EndLocation() == Offset(s, r.EndLocation())
    ensures u.EndLocation() <= Utf16Length(s)
    ensures u.length >= r.length
  {
    OffsetMonotone(s, r.location, r.EndLocation());
    OffsetBounded(s, r.EndLocation());
    WidthAtLeastCount(s, r.location, r.EndLocation());
    NSRange(Offset(s, r.location), Offset(s, r.EndLocation()) - Offset(s, r.location))
  }

  /** Every character spans at least one code unit, so `n` characters span at least `n` units. */
  lemma {:induction false} WidthAtLeastCount(s: Text, i: nat, j: nat)
    requires i <= j <= |s|
    ensures Offset(s, j) - Offset(s, i) >= j - i
    decreases j - i
  {
    if i < j {
      OffsetStep(s, j - 1);
      WidthAtLeastCount(s, i, j - 1);
    }
  }

  /** `String.endOfStringNSRange`: the empty range just past the last character. */
  function EndOfStringNSRange(s: Text): (r: NSRange)
    ensures ValidRange(s, r) && r.length == 0
    ensures Substring(s, CharRange(0, r.location)) == s
    ensures Utf16NSRange(s, r) == NSRange(Utf16Length(s), 0)
  {
    NSRange(|s|, 0)
  }

  /** Stepping back from the boundary in front of character `i` lands on the boundary in
      front of character `i - 1`, exactly one character width earlier. */
  lemma {:induction false} LocationBeforeSteps(s: Text, i: nat)
    requires 0 < i <= |s|
    ensures LocationBefore(s, Offset(s, i)) == Some(Offset(s, i) - Width(s[i - 1]))
    ensures LocationBefore(s, Offset(s, i)) == Some(Offset(s, i - 1))
  {
    IndexFromLocationOfOffset(s, i);
    OffsetStep(s, i - 1);
  }

  /** Stepping forward from the boundary in front of character `i` passes over exactly that
      character. */
  lemma {:induction false} LocationAfterSteps(s: Text, i: nat)
    requires i < |s|
    ensures LocationAfter(s, Offset(s, i)) == Some(Offset(s, i) + Width(s[i]))
    ensures LocationAfter(s, Offset(s, i)) == Some(Offset(s, i + 1))
  {
    IndexFromLocationOfOffset(s, i);
    OffsetStep(s, i);
  }

  /** There is nothing before the start, and nothing either side of an offset that is not a
      character boundary. */
  lemma {:induction false} LocationNeighboursUndefined(s: Text, location: nat)
    ensures LocationBefore(s, location).None? <==>
              location == 0 || IndexFromLocation(s, location).None?
    ensures LocationAfter(s, location).None? <==>
              location == Utf16Length(s) || IndexFromLocation(s, location).None?
  {
    if IndexFromLocation(s, location) == Some(0) {
      assert s[..0] == [];
    }
    if location == Utf16Length(s) {
      IndexFromLocationOfOffset(s, |s|);
    }
  }

  /** `location(after:)` and `location(before:)` undo each other. */
  lemma {:induction false} LocationBeforeAfterInverse(s: Text, a: nat, b: nat)
    ensures LocationAfter(s, a) == Some(b) <==> LocationBefore(s, b) == Some(a)
  {
    if LocationAfter(s, a) == Some(b) {
      var i := IndexFromLocation(s, a).value;
      LocationBeforeSteps(s, i + 1);
    }
    if LocationBefore(s, b) == Some(a) {
      var j := IndexFromLocation(s, b).value;
      LocationAfterSteps(s, j - 1);
    }
  }

  /** Round trip through UTF-16: a native range converted to UTF-16 and back is unchanged. */
  lemma {:induction false} Utf16RoundTrip(s: Text, r: NSRange)
    requires ValidRange(s, r)
    ensures NSRangeFromUtf16(s, Utf16NSRange(s, r)) == Success(r)
  {
    IndexFromLocationOfOffset(s, r.location);
    IndexFromLocationOfOffset(s, r.EndLocation());
    OffsetBounded(s, r.EndLocation());
  }

  /** The other round trip: a UTF-16 range that converts at all converts to the native range
      whose UTF-16 range it is, and going through `range(from:)` and `nsRange(from:)` gives
      that native range back. */
  lemma {:induction false} NSRangeFromUtf16RoundTrip(s: Text, u: NSRange)
    ensures NSRangeFromUtf16(s, u).Success? ==>
      var r := NSRangeFromUtf16(s, u).value;
      Utf16NSRange(s, r) == u && NSRangeFrom(s, RangeFrom(s, r)) == r
  {
    match NSRangeFromUtf16(s, u)
    case Failure(_) =>
    case Success(r) =>
      var v := Utf16NSRange(s, r);
      assert v.location == u.location && v.EndLocation() == u.EndLocation();
  }

  /** A UTF-16 range whose ends are both character boundaries converts to the native range
      between those boundaries. */
  lemma {:induction false} AlignedUtf16RangeConverts(s: Text, u: NSRange, i: nat, j: nat)
    requires i <= j <= |s|
    requires Offset(s, i) == u.location && Offset(s, j) == u.EndLocation()
    ensures NSRangeFromUtf16(s, u) == Success(NSRange(i, j - i))
  {
    IndexFromLocationOfOffset(s, i);
    IndexFromLocationOfOffset(s, j);
    OffsetMonotone(s, j, |s|);
  }

  /** A UTF-16 range within the text but with an end strictly inside a character is refused
      as misaligned, never rounded to a nearby boundary. */
  lemma {:induction false} MisalignedUtf16RangeFails(s: Text, u: NSRange)
    requires u.EndLocation() <= Utf16Length(s)
    requires !IsBoundary(s, u.location) || !IsBoundary(s, u.EndLocation())
    ensures NSRangeFromUtf16(s, u) == Failure(MisalignedOffset)
  {
    if !IsBoundary(s, u.location) {
      assert IndexFromLocation(s, u.location).None?;
    } else {
      assert IndexFromLocation(s, u.EndLocation()).None?;
    }
  }

  /** The UTF-16 range of a substring, wherever wider characters sit around it, converts to
      the native range of that substring, and slicing the text with it yields the substring. */
  lemma {:induction false} SubstringCapture(p: Text, w: Text, q: Text)
    ensures NSRangeFromUtf16(p + w + q, NSRange(Utf16Length(p), Utf16Length(w)))
            == Success(NSRange(|p|, |w|))
    ensures Substring(p + w + q, RangeFrom(p + w + q, NSRange(|p|, |w|))) == w
  {
    var s := p + w + q;
    assert s == p + (w + q);
    OffsetAfterPrefix(p, w + q);
    assert s == (p + w) + q;
    OffsetAfterPrefix(p + w, q);
    Utf16LengthConcat(p, w);
    AlignedUtf16RangeConverts(s, NSRange(Utf16Length(p), Utf16Length(w)), |p|, |p| + |w|);
    assert s[|p|..|p| + |w|] == w;
  }

  /** The UTF-16 offset at which some text starts maps to the character index whose prefix is
      exactly the text in front of it. */
  lemma {:induction false} IndexFromLocationPrefix(p: Text, q: Text)
    ensures IndexFromLocation(p + q, Utf16Length(p)) == Some(|p|)
    ensures (p + q)[..|p|] == p
  {
    OffsetAfterPrefix(p, q);
    IndexFromLocationOfOffset(p + q, |p|);
  }
}
