/**
 * `normalizeContent`: a falsy input becomes the empty string; otherwise one
 * leading byte-order mark is removed (`/^\uFEFF/`) and then every CR LF pair
 * is replaced by LF (`/\r\n/g`).
 */
module Normalizer {

  const BOM: char := '\U{FEFF}'

  /** `replace(/^\uFEFF/, "")`: the pattern is anchored and not global. */
  function StripBom(s: string): string {
    if |s| > 0 && s[0] == BOM then s[1..] else s
  }

  /** Exactly one mark goes, however many lead the text. */
  lemma StripBomRemovesOne(t: string)
    ensures StripBom([BOM] + t) == t
  {
  }

  /** Without a mark at position 0 nothing changes, marks further on included. */
  lemma StripBomKeepsUnmarked(s: string)
    requires s == [] || s[0] != BOM
    ensures StripBom(s) == s
  {
  }

  /**
   * `replace(/\r\n/g, "\n")`: the regular-expression engine scans left to
   * right and resumes after each match, so matches never overlap.
   */
  function ReplaceCrlf(s: string): string
    decreases |s|
  {
    if |s| >= 2 && s[0] == '\r' && s[1] == '\n' then "\n" + ReplaceCrlf(s[2..])
    else if s == [] then []
    else [s[0]] + ReplaceCrlf(s[1..])
  }

  /** True when `s` has a CR immediately followed by LF at index `i`. */
  predicate CrlfAt(s: string, i: int) {
    0 <= i && i + 1 < |s| && s[i] == '\r' && s[i + 1] == '\n'
  }

  /**
   * Reference for ReplaceCrlf, character by character: every character is
   * kept except a CR whose successor is LF.
   */
  function DropCrBeforeLf(s: string): string
    decreases |s|
  {
    if s == [] then []
    else (if CrlfAt(s, 0) then [] else [s[0]]) + DropCrBeforeLf(s[1..])
  }

  /** How many CR LF pairs `s` holds (two pairs can never share a character). */
  function CountCrlf(s: string): nat
    decreases |s|
  {
    if s == [] then 0 else (if CrlfAt(s, 0) then 1 else 0) + CountCrlf(s[1..])
  }

  /** How often `c` occurs in `s`. */
  function Occurrences(s: string, c: char): nat
    decreases |s|
  {
    if s == [] then 0 else (if s[0] == c then 1 else 0) + Occurrences(s[1..], c)
  }

  /** The global replacement agrees with the character-by-character reference. */
  lemma {:induction false} ReplaceCrlfIsDropCr(s: string)
    ensures ReplaceCrlf(s) == DropCrBeforeLf(s)
    decreases |s|
  {
    if CrlfAt(s, 0) {
      ReplaceCrlfIsDropCr(s[2..]);
      assert s[1..][1..] == s[2..];
      assert !CrlfAt(s[1..], 0);
      assert DropCrBeforeLf(s[1..]) == "\n" + DropCrBeforeLf(s[2..]);
    } else if s != [] {
      ReplaceCrlfIsDropCr(s[1..]);
    }
  }

  /** One character shorter for every pair replaced. */
  lemma {:induction false} ReplaceCrlfLength(s: string)
    ensures |ReplaceCrlf(s)| == |s| - CountCrlf(s)
    decreases |s|
  {
    if CrlfAt(s, 0) {
      ReplaceCrlfLength(s[2..]);
      assert !CrlfAt(s[1..], 0);
      assert CountCrlf(s[1..]) == CountCrlf(s[2..]);
    } else if s != [] {
      ReplaceCrlfLength(s[1..]);
    }
  }

  /**
   * Only CRs that precede LF are removed: every other character, and every
   * LF, occurs as often afterwards as before.
   */
  lemma {:induction false} ReplaceCrlfOccurrences(s: string, c: char)
    ensures c != '\r' ==> Occurrences(ReplaceCrlf(s), c) == Occurrences(s, c)
    ensures c == '\r' ==> Occurrences(ReplaceCrlf(s), c) == Occurrences(s, c) - CountCrlf(s)
    decreases |s|
  {
    if CrlfAt(s, 0) {
      ReplaceCrlfOccurrences(s[2..], c);
      assert !CrlfAt(s[1..], 0);
      assert s[1..][1..] == s[2..];
      assert ("\n" + ReplaceCrlf(s[2..]))[1..] == ReplaceCrlf(s[2..]);
    } else if s != [] {
      ReplaceCrlfOccurrences(s[1..], c);
      assert ([s[0]] + ReplaceCrlf(s[1..]))[1..] == ReplaceCrlf(s[1..]);
    }
  }

  /** The text is left alone exactly when it holds no CR LF pair. */
  lemma {:induction false} ReplaceCrlfFixedIff(s: string)
    ensures ReplaceCrlf(s) == s <==> CountCrlf(s) == 0
    decreases |s|
  {
    ReplaceCrlfLength(s);
    if CrlfAt(s, 0) {
    } else if s != [] {
      ReplaceCrlfFixedIff(s[1..]);
      assert s == [s[0]] + s[1..];
    }
  }

  /** The replacement is not idempotent: one pass can create a new pair. */
  lemma ReplaceCrlfNotIdempotent()
    ensures ReplaceCrlf("\r\r\n") == "\r\n"
    ensures ReplaceCrlf(ReplaceCrlf("\r\r\n")) == "\n"
  {
    assert ReplaceCrlf("\r\r\n") == "\r" + ReplaceCrlf("\r\n");
    assert ReplaceCrlf("\r\n") == "\n" + ReplaceCrlf("");
  }

  /** `normalizeContent`. */
  function NormalizeContent(s: string): string {
    if s == [] then "" else ReplaceCrlf(StripBom(s))
  }

  /**
   * Normalisation on the character level: one leading mark goes, and every
   * CR that precedes an LF goes; nothing else changes.
   */
  lemma NormalizeContentSpec(s: string)
    ensures s == [] ==> NormalizeContent(s) == []
    ensures s != [] && s[0] == BOM ==> NormalizeContent(s) == DropCrBeforeLf(s[1..])
    ensures (s == [] || s[0] != BOM) ==> NormalizeContent(s) == DropCrBeforeLf(s)
  {
    ReplaceCrlfIsDropCr(StripBom(s));
  }

  /** The two steps happen in this order: a CR LF right after the mark still counts. */
  lemma NormalizeBomThenCrlf()
    ensures NormalizeContent("\U{FEFF}\U{FEFF}x") == "\U{FEFF}x"
    ensures NormalizeContent("\U{FEFF}\r\nx") == "\nx"
    ensures NormalizeContent("a\U{FEFF}b") == "a\U{FEFF}b"
  {
    assert ReplaceCrlf("\U{FEFF}x") == "\U{FEFF}" + ReplaceCrlf("x");
    assert ReplaceCrlf("x") == "x" + ReplaceCrlf("");
    assert ReplaceCrlf("\r\nx") == "\n" + ReplaceCrlf("x");
    assert ReplaceCrlf("a\U{FEFF}b") == "a" + ReplaceCrlf("\U{FEFF}b");
    assert ReplaceCrlf("\U{FEFF}b") == "\U{FEFF}" + ReplaceCrlf("b");
    assert ReplaceCrlf("b") == "b" + ReplaceCrlf("");
  }

  /** A mark anywhere past position 0 survives normalisation. */
  lemma {:induction false} NormalizeKeepsLaterBoms(s: string)
    requires s != []
    ensures Occurrences(NormalizeContent(s), BOM) == Occurrences(s, BOM) - (if s[0] == BOM then 1 else 0)
  {
    ReplaceCrlfOccurrences(StripBom(s), BOM);
    if s[0] == BOM {
      assert s == [s[0]] + s[1..];
    }
  }
}
