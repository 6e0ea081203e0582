/**
 The replacements the behaviour of `replaceOcurrences` is illustrated with, on plain
 strings whose every element is one Unicode scalar. Inputs are written as the
 concatenation of the pieces the scan goes through.
 */
module ReplaceExamples {
  import opened Occurrences
  import opened ReplaceOccurrences
  import opened RangeConversion

  /** A text without the query's first element is not touched. */
  lemma Untouched(s: string, q: string, r: string)
    requires |q| > 0 && q[0] !in s
    ensures ReplaceAll(s, q, r) == s
  {
    ReplaceAllCopiesPrefix(s, [], q, r);
    assert s + [] == s;
  }

  /** One occurrence between two pieces the query's first element is not in. */
  lemma ReplaceBetween(w: string, q: string, t: string, r: string)
    requires |q| > 0 && q[0] !in w && q[0] !in t
    ensures ReplaceAll(w + (q + t), q, r) == w + (r + t)
  {
    Untouched(t, q, r);
    ReplaceAllStartsWithQuery(q, t, r);
    ReplaceAllCopiesPrefix(w, q + t, q, r);
  }

  /** A query that does not occur changes nothing. */
  lemma AbsentQueryExample()
    ensures ReplaceAll("Hello 🌎 World!", "🍎", "Ahoi!") == "Hello 🌎 World!"
  {
    Untouched("Hello 🌎 World!", "🍎", "Ahoi!");
  }

  /** The empty query changes nothing. */
  lemma EmptyQueryExample()
    ensures ReplaceAll("Hello 🌎 World!", "", "Ahoi!") == "Hello 🌎 World!"
  {
  }

  /** A single occurrence in the middle is removed. */
  lemma SingleOccurrenceInMiddleExample()
    ensures ReplaceAll("Hello " + ("🌎 " + "World!"), "🌎 ", "") == "Hello " + "World!"
  {
    ReplaceBetween("Hello ", "🌎 ", "World!", "");
  }

  /** A single occurrence at the start is removed. */
  lemma SingleOccurrenceAtStartExample()
    ensures ReplaceAll("Hello " + "🌎 World!", "Hello ", "") == "🌎 World!"
  {
    Untouched("🌎 World!", "Hello ", "");
    ReplaceAllStartsWithQuery("Hello ", "🌎 World!", "");
  }

  /** A single occurrence at the end is removed, although its first element, a space, also
      starts the text in front of it. */
  lemma SingleOccurrenceAtEndExample()
    ensures ReplaceAll("Hello" + (" 🌎" + " World!"), " World!", "") == "Hello" + " 🌎"
  {
    var q := " World!";
    var t := " 🌎" + q;
    assert ReplaceAll(t, q, "") == " 🌎" by {
      ReplaceAllStartsWithQuery(q, "", "");
      ReplaceAllCopiesPrefix("🌎", q, q, "");
      assert t[1] != q[1];
      MatchAtSlice(t, q, 0);
      assert t[..|q|] != q;
      assert t[0..|q|] == t[..|q|];
      ReplaceAllSkipsNonMatch(t, q, "");
      assert t[1..] == "🌎" + q;
    }
    ReplaceAllCopiesPrefix("Hello", t, q, "");
  }

  /** Every occurrence, left to right. */
  lemma SeveralOccurrencesExample()
    ensures ReplaceAll("Hello " + ("🌎, " + ("Hello " + ("World! " + ("Hello " + "There!")))), "Hello ", "")
      == "🌎, " + ("World! " + "There!")
  {
    var q := "Hello ";
    ReplaceBetween("World! ", q, "There!", "");
    ReplaceAllStartsWithQuery(q, "World! " + (q + "There!"), "");
    ReplaceAllCopiesPrefix("🌎, ", q + ("World! " + (q + "There!")), q, "");
    ReplaceAllStartsWithQuery(q, "🌎, " + (q + ("World! " + (q + "There!"))), "");
  }

  /** Adjacent occurrences of a query wider than one UTF-16 unit. */
  lemma AdjacentOccurrencesExample()
    ensures ReplaceAll("🌎" + ("🍎" + ("🍎" + ("😬" + ("🍎" + "🌎")))), "🍎", "💚") == "🌎💚💚😬💚🌎"
  {
    var q, r := "🍎", "💚";
    Untouched("🌎", q, r);
    ReplaceAllStartsWithQuery(q, "🌎", r);
    ReplaceAllCopiesPrefix("😬", q + "🌎", q, r);
    ReplaceAllStartsWithQuery(q, "😬" + (q + "🌎"), r);
    ReplaceAllStartsWithQuery(q, q + ("😬" + (q + "🌎")), r);
    ReplaceAllCopiesPrefix("🌎", q + (q + ("😬" + (q + "🌎"))), q, r);
  }

  /** A bounding range that ends right after the one occurrence it holds. */
  lemma ReplaceLastWithin(a: string, m: string, q: string, b: string, r: string)
    requires |q| > 0 && q[0] !in m
    ensures ReplaceWithin(a + (m + (q + b)), q, r, NSRange(|a|, |m| + |q|)) == a + (m + (r + b))
  {
    var s := a + (m + (q + b));
    assert s[..|a|] == a;
    assert s[|a|..|a| + |m| + |q|] == m + (q + []);
    assert s[|a| + |m| + |q|..] == b;
    ReplaceBetween(m, q, [], r);
    assert m + (r + []) == m + r;
  }

  /** Only the paragraph separator inside the bounding range becomes a line feed; the one
      in front of the range and the one at the end of the string stay. */
  lemma BoundedReplaceExample()
    ensures ReplaceWithin("Hello\U{2029}" + ("Amazing" + ("\U{2029}" + "World\U{2029}")), "\U{2029}", "\n", NSRange(6, 8))
      == "Hello\U{2029}" + ("Amazing" + ("\n" + "World\U{2029}"))
  {
    ReplaceLastWithin("Hello\U{2029}", "Amazing", "\U{2029}", "World\U{2029}", "\n");
  }
}
