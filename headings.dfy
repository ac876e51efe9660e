/**
 * The top-level-heading test `/^#\s/.test(content.trimStart())`.
 */
module Headings {
  import opened Text

  /** After leading whitespace, a '#' followed by one whitespace character. */
  predicate StartsWithHeading(content: string) {
    var t := TrimStart(content);
    |t| >= 2 && t[0] == '#' && IsWhitespace(t[1])
  }

  /** `s` has only whitespace before index `k`, '#' at `k` and whitespace after it. */
  predicate HeadingMarkAt(s: string, k: int) {
    && 0 <= k && k + 1 < |s| && s[k] == '#' && IsWhitespace(s[k + 1])
    && forall i :: 0 <= i < k ==> IsWhitespace(s[i])
  }

  /** The test stated on the untrimmed text, in both directions. */
  lemma HeadingIff(s: string)
    ensures StartsWithHeading(s) <==> exists k :: HeadingMarkAt(s, k)
  {
    var t := TrimStart(s);
    TrimStartSpec(s);
    var m := |s| - |t|;
    if StartsWithHeading(s) {
      assert s[m] == t[0] && s[m + 1] == t[1];
      assert HeadingMarkAt(s, m);
    }
    if exists k :: HeadingMarkAt(s, k) {
      var k :| HeadingMarkAt(s, k);
      TrimStartAt(s, k);
    }
  }

  /** A mark at `k` makes the text headed. */
  lemma HeadedAt(s: string, k: nat)
    requires HeadingMarkAt(s, k)
    ensures StartsWithHeading(s)
  {
    TrimStartAt(s, k);
  }

  /** A text that starts with anything but whitespace or a mark is not headed. */
  lemma UnheadedAt(s: string)
    requires s == [] || (!IsWhitespace(s[0]) && (s[0] != '#' || |s| < 2 || !IsWhitespace(s[1])))
    ensures !StartsWithHeading(s)
  {
    TrimStartAt(s, 0);
  }

  /** Texts the regular expression accepts: any whitespace may follow the '#'. */
  lemma HeadedExamples()
    ensures StartsWithHeading("  #\tx")
    ensures StartsWithHeading("#\nx")
    ensures StartsWithHeading("\n\n# Title")
  {
    HeadedAt("  #\tx", 2);
    HeadedAt("#\nx", 0);
    HeadedAt("\n\n# Title", 2);
  }

  /** Texts it rejects: a second '#', no whitespace after it, or text before it. */
  lemma UnheadedExamples()
    ensures !StartsWithHeading("## x")
    ensures !StartsWithHeading("#x")
    ensures !StartsWithHeading("#")
    ensures !StartsWithHeading("")
    ensures !StartsWithHeading("text # x")
  {
    assert !StartsWithHeading("## x") by { UnheadedAt("## x"); }
    assert !StartsWithHeading("#x") by { UnheadedAt("#x"); }
    assert !StartsWithHeading("#") by { UnheadedAt("#"); }
    assert !StartsWithHeading("") by { UnheadedAt(""); }
    assert !StartsWithHeading("text # x") by { UnheadedAt("text # x"); }
  }
}
