/**
 A Swift `String` seen as a sequence of `Character`s (extended grapheme clusters),
 each made of one or more Unicode scalars and each occupying a whole number of
 UTF-16 code units. Everything about offsets is bookkeeping over prefix sums of
 those widths.
 */
module Text {

  /** UTF-16 code units needed for one Unicode scalar: a surrogate pair above the BMP. */
  function ScalarUnits(c: char): (n: nat)
    ensures n == 1 || n == 2
  {
    if c as int >= 0x1_0000 then 2 else 1
  }

  /** UTF-16 code units of a sequence of scalars; never less than one per scalar. */
  function ScalarsUnits(cs: string): (n: nat)
    ensures |cs| <= n <= 2 * |cs|
  {
    if |cs| == 0 then 0 else ScalarUnits(cs[0]) + ScalarsUnits(cs[1..])
  }

  datatype Grapheme = Grapheme(scalars: string)

  /** A user-perceived character: a non-empty cluster of scalars. */
  type Character = g: Grapheme | |g.scalars| > 0 witness Grapheme("a")

  /** UTF-16 width of a character: at least one code unit. */
  function Width(c: Character): (w: nat)
    ensures w >= 1
  {
    ScalarsUnits(c.scalars)
  }

  type Text = seq<Character>

  /** A text in which every scalar is a character of its own. */
  function Chars(t: string): (s: Text)
    ensures |s| == |t|
    ensures forall i :: 0 <= i < |t| ==> s[i].scalars == [t[i]]
  {
    seq(|t|, i requires 0 <= i < |t| => Grapheme([t[i]]))
  }

  /** UTF-16 offset of the boundary in front of character index `i`: the widths of the
      characters before it, summed. */
  function Offset(s: Text, i: nat): (n: nat)
    requires i <= |s|
    ensures n >= i
  {
    if i == 0 then 0 else Offset(s, i - 1) + Width(s[i - 1])
  }

  /** A UTF-16 offset that falls between two characters (or at either end of the text). */
  ghost predicate IsBoundary(s: Text, location: nat) {
    exists k :: 0 <= k <= |s| && Offset(s, k) == location
  }

  /** Length of the text in UTF-16 code units (`NSString.length`). */
  function Utf16Length(s: Text): nat {
    Offset(s, |s|)
  }

  /** Stepping over character `i` moves the UTF-16 offset by exactly its width. */
  lemma OffsetStep(s: Text, i: nat)
    requires i < |s|
    ensures Offset(s, i + 1) == Offset(s, i) + Width(s[i])
  {
  }

  /** The offset of a boundary depends only on the characters in front of it. */
  lemma {:induction false} OffsetAgrees(s: Text, t: Text, i: nat)
    requires i <= |s| && i <= |t| && s[..i] == t[..i]
    ensures Offset(s, i) == Offset(t, i)
  {
    if i > 0 {
      assert s[i - 1] == s[..i][i - 1] == t[..i][i - 1] == t[i - 1];
      assert s[..i - 1] == s[..i][..i - 1] == t[..i][..i - 1] == t[..i - 1];
      OffsetAgrees(s, t, i - 1);
    }
  }

  /** Behind a prefix `p`, offsets are those of the rest shifted by `p`'s UTF-16 length. */
  lemma {:induction false} OffsetShift(p: Text, q: Text, i: nat)
    requires i <= |q|
    ensures Offset(p + q, |p| + i) == Utf16Length(p) + Offset(q, i)
  {
    if i == 0 {
      assert (p + q)[..|p|] == p[..|p|];
      OffsetAgrees(p + q, p, |p|);
    } else {
      OffsetShift(p, q, i - 1);
      assert (p + q)[|p| + i - 1] == q[i - 1];
    }
  }

  lemma Utf16LengthConcat(a: Text, b: Text)
    ensures Utf16Length(a + b) == Utf16Length(a) + Utf16Length(b)
  {
    OffsetShift(a, b, |b|);
  }

  /** The boundary after a prefix lies at the prefix's UTF-16 length. */
  lemma OffsetAfterPrefix(p: Text, q: Text)
    ensures Offset(p + q, |p|) == Utf16Length(p)
  {
    OffsetShift(p, q, 0);
  }

  /** Character boundaries sit at strictly increasing UTF-16 offsets. */
  lemma {:induction false} OffsetStrictlyIncreasing(s: Text, i: nat, j: nat)
    requires i < j <= |s|
    ensures Offset(s, i) < Offset(s, j)
    decreases j - i
  {
    OffsetStep(s, j - 1);
    if i < j - 1 {
      OffsetStrictlyIncreasing(s, i, j - 1);
    }
  }

  /** Two character boundaries at the same UTF-16 offset are the same boundary. */
  lemma OffsetInjective(s: Text, i: nat, j: nat)
    requires i <= |s| && j <= |s|
    requires Offset(s, i) == Offset(s, j)
    ensures i == j
  {
    if i < j {
      OffsetStrictlyIncreasing(s, i, j);
    } else if j < i {
      OffsetStrictlyIncreasing(s, j, i);
    }
  }

  /** Boundaries appear in the order of their UTF-16 offsets. */
  lemma OffsetOrderReflected(s: Text, i: nat, j: nat)
    requires i <= |s| && j <= |s|
    requires Offset(s, i) <= Offset(s, j)
    ensures i <= j
  {
    if j < i {
      OffsetStrictlyIncreasing(s, j, i);
    }
  }

  lemma OffsetMonotone(s: Text, i: nat, j: nat)
    requires i <= j <= |s|
    ensures Offset(s, i) <= Offset(s, j)
  {
    if i < j {
      OffsetStrictlyIncreasing(s, i, j);
    }
  }

  lemma OffsetsAbove(s: Text, i: nat)
    requires i <= |s|
    ensures forall k :: i <= k <= |s| ==> Offset(s, i) <= Offset(s, k)
  {
    forall k | i <= k <= |s| ensures Offset(s, i) <= Offset(s, k) {
      OffsetMonotone(s, i, k);
    }
  }

  lemma OffsetBounded(s: Text, i: nat)
    requires i <= |s|
    ensures Offset(s, i) <= Utf16Length(s)
  {
    OffsetMonotone(s, i, |s|);
  }
}
