/**
 The conversions on the texts the behaviour of the String range-conversion extension is
 illustrated with. The flag 🇮🇳 is one character of two scalars, four UTF-16 units wide;
 🌍 and 🌎 are one scalar each, two units wide.
 */
module RangeConversionExamples {
  import opened Wrappers
  import opened Text
  import opened RangeConversion

  const Flag: Character := Grapheme("🇮🇳")
  const Globe: Character := Grapheme("🌎")
  const Earth: Character := Grapheme("🌍")

  lemma FlagWidth()
    ensures Width(Flag) == 4 && Width(Globe) == 2 && Width(Earth) == 2
  {
    assert "🇮🇳"[1..] == "🇳";
    assert "🌎"[1..] == "";
    assert "🌍"[1..] == "";
  }

  lemma CharsUtf16Length(t: string)
    requires forall i :: 0 <= i < |t| ==> t[i] as int < 0x1_0000
    ensures Utf16Length(Chars(t)) == |t|
  {
    var s := Chars(t);
    forall k | 0 <= k < |s| ensures Width(s[k]) == 1 {
      assert s[k].scalars == [t[k]];
      assert s[k].scalars[1..] == [];
    }
    WidthsOfOne(s, |s|);
  }

  lemma {:induction false} WidthsOfOne(s: Text, i: nat)
    requires i <= |s|
    requires forall k :: 0 <= k < |s| ==> Width(s[k]) == 1
    ensures Offset(s, i) == i
  {
    if i > 0 {
      WidthsOfOne(s, i - 1);
    }
  }

  /** In "Hello 🇮🇳 World 🌎!" the globe's UTF-16 range, 17 units in and 2 wide, converts to
      the single character at index 14, and slicing with it captures the globe. */
  lemma GlobeAfterFlagExample()
    ensures var s := Chars("Hello ") + [Flag] + Chars(" World ") + [Globe] + Chars("!");
      && NSRangeFromUtf16(s, NSRange(17, 2)) == Success(NSRange(14, 1))
      && Substring(s, RangeFrom(s, NSRange(14, 1))) == [Globe]
  {
    FrontOfGlobe();
    GlobeLength();
    SubstringCapture(Chars("Hello ") + [Flag] + Chars(" World "), [Globe], Chars("!"));
  }

  lemma FrontOfGlobe()
    ensures Utf16Length(Chars("Hello ") + [Flag] + Chars(" World ")) == 17
  {
    FlagLength();
    CharsUtf16Length("Hello ");
    CharsUtf16Length(" World ");
    Utf16LengthConcat(Chars("Hello "), [Flag]);
    Utf16LengthConcat(Chars("Hello ") + [Flag], Chars(" World "));
  }

  lemma GlobeLength()
    ensures Utf16Length([Globe]) == 2
  {
    FlagWidth();
    assert Offset([Globe], 1) == Offset([Globe], 0) + Width(Globe);
  }

  lemma FlagLength()
    ensures Utf16Length([Flag]) == 4
  {
    FlagWidth();
    assert Offset([Flag], 1) == Offset([Flag], 0) + Width(Flag);
  }

  /** A UTF-16 range starting two units into the flag falls inside a character and is
      refused. */
  lemma InsideFlagExample()
    ensures NSRangeFromUtf16(Chars("Hello ") + [Flag] + Chars("!"), NSRange(8, 2)) == Failure(MisalignedOffset)
  {
    var s := Chars("Hello ") + [Flag] + Chars("!");
    FlagWidth();
    CharsUtf16Length("Hello ");
    OffsetAfterPrefix(Chars("Hello "), [Flag] + Chars("!"));
    assert s == Chars("Hello ") + ([Flag] + Chars("!"));
    OffsetStep(s, 6);
    assert s[6] == Flag;
    forall k | 0 <= k <= |s| ensures Offset(s, k) != 8 {
      if k <= 6 {
        OffsetMonotone(s, k, 6);
      } else {
        OffsetMonotone(s, 7, k);
      }
    }
    CharsUtf16Length("!");
    Utf16LengthConcat(Chars("Hello ") + [Flag], Chars("!"));
    Utf16LengthConcat(Chars("Hello "), [Flag]);
    FlagLength();
    MisalignedUtf16RangeFails(s, NSRange(8, 2));
  }

  /** In "Hello 🌍!" the location one character before the end of 🌍 (UTF-16 offset 8) is
      offset 6, whose index has exactly "Hello " in front of it. */
  lemma LocationBeforeEarthExample()
    ensures var s := Chars("Hello ") + [Earth] + Chars("!");
      && LocationBefore(s, 8) == Some(6)
      && IndexFromLocation(s, 6) == Some(6)
      && s[..6] == Chars("Hello ")
  {
    var s := Chars("Hello ") + [Earth] + Chars("!");
    EarthOffsets();
    LocationBeforeSteps(s, 7);
    assert s == Chars("Hello ") + ([Earth] + Chars("!"));
    IndexFromLocationPrefix(Chars("Hello "), [Earth] + Chars("!"));
  }

  lemma EarthOffsets()
    ensures var s := Chars("Hello ") + [Earth] + Chars("!");
      |s| == 8 && Offset(s, 6) == 6 && Offset(s, 7) == 8
  {
    var p := Chars("Hello ");
    var s := p + [Earth] + Chars("!");
    FlagWidth();
    CharsUtf16Length("Hello ");
    assert s == p + ([Earth] + Chars("!"));
    OffsetAfterPrefix(p, [Earth] + Chars("!"));
    OffsetStep(s, 6);
    assert s[6] == Earth;
  }

  /** On the empty text there is no location before or after offset 0. */
  lemma EmptyTextNeighboursExample()
    ensures LocationBefore([], 0).None? && LocationAfter([], 0).None?
  {
    LocationNeighboursUndefined([], 0);
  }

  /** The end-of-string range of a 24-character text starts at 24 and is empty. */
  lemma EndOfStringExample()
    ensures EndOfStringNSRange(Chars("Some random content here")) == NSRange(24, 0)
  {
  }

  /** In "Hello World!" the native range of "World", (6, 5), captures exactly "World". */
  lemma CaptureWorldExample()
    ensures var s := Chars("Hello ") + Chars("World") + Chars("!");
      Substring(s, RangeFrom(s, NSRange(6, 5))) == Chars("World")
  {
    SubstringCapture(Chars("Hello "), Chars("World"), Chars("!"));
  }

  /** In "Hello World!" the location one character before "World" (offset 6) is offset 5,
      whose index has exactly "Hello" in front of it. */
  lemma LocationBeforeWorldExample()
    ensures var s := Chars("Hello") + (Chars(" ") + Chars("World!"));
      && LocationBefore(s, 6) == Some(5)
      && IndexFromLocation(s, 5) == Some(5)
      && s[..5] == Chars("Hello")
  {
    var s := Chars("Hello") + (Chars(" ") + Chars("World!"));
    WorldOffsets();
    LocationBeforeSteps(s, 6);
    IndexFromLocationPrefix(Chars("Hello"), Chars(" ") + Chars("World!"));
  }

  lemma WorldOffsets()
    ensures var s := Chars("Hello") + (Chars(" ") + Chars("World!"));
      |s| == 12 && Offset(s, 5) == 5 && Offset(s, 6) == 6
  {
    var p, sp, w := Chars("Hello"), Chars(" "), Chars("World!");
    var s := p + (sp + w);
    CharsUtf16Length("Hello");
    CharsUtf16Length(" ");
    OffsetAfterPrefix(p, sp + w);
    assert s == (p + sp) + w;
    Utf16LengthConcat(p, sp);
    OffsetAfterPrefix(p + sp, w);
  }

  /** In "Hello 🇮🇳 🌍!" the UTF-16 start of 🌍, offset 11, is character index 8, with
      exactly "Hello 🇮🇳 " in front of it. */
  lemma LocationBehindFlagExample()
    ensures var s := Chars("Hello ") + [Flag] + Chars(" ") + ([Earth] + Chars("!"));
      && IndexFromLocation(s, 11) == Some(8)
      && s[..8] == Chars("Hello ") + [Flag] + Chars(" ")
  {
    var p := Chars("Hello ") + [Flag] + Chars(" ");
    FlagLength();
    CharsUtf16Length("Hello ");
    CharsUtf16Length(" ");
    Utf16LengthConcat(Chars("Hello "), [Flag]);
    Utf16LengthConcat(Chars("Hello ") + [Flag], Chars(" "));
    IndexFromLocationPrefix(p, [Earth] + Chars("!"));
  }

  /** In "Hello 🌎!" the UTF-16 range of 🌎, (6, 2), converts to native (6, 1), and taking
      that to a character range and back gives (6, 1) again. */
  lemma GlobeRoundTripExample()
    ensures var s := Chars("Hello ") + [Globe] + Chars("!");
      && NSRangeFromUtf16(s, NSRange(6, 2)) == Success(NSRange(6, 1))
      && NSRangeFrom(s, RangeFrom(s, NSRange(6, 1))) == NSRange(6, 1)
  {
    CharsUtf16Length("Hello ");
    GlobeLength();
    SubstringCapture(Chars("Hello "), [Globe], Chars("!"));
    NSRangeFromUtf16RoundTrip(Chars("Hello ") + [Globe] + Chars("!"), NSRange(6, 2));
  }
}
