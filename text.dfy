/**
 * String primitives the script takes from JavaScript: the whitespace set of
 * `trimStart`, `trimEnd` and the regular-expression class `\s`, ASCII
 * lower-casing, code-point lexicographic order, and '/'-separated paths.
 */
module Text {

  /**
   * ECMAScript's WhiteSpace and LineTerminator characters: tab, LF, VT, FF,
   * CR, space, NBSP, OGHAM SPACE MARK, U+2000..U+200A, LINE SEPARATOR,
   * PARAGRAPH SEPARATOR, NARROW NBSP, MEDIUM MATHEMATICAL SPACE, IDEOGRAPHIC
   * SPACE and the byte-order mark U+FEFF. `trimStart`, `trimEnd` and `\s`
   * all use this one set.
   */
  const Whitespace: set<char> := {
    '\t', '\n', '\U{000B}', '\U{000C}', '\r', ' ', '\U{00A0}', '\U{1680}',
    '\U{2000}', '\U{2001}', '\U{2002}', '\U{2003}', '\U{2004}', '\U{2005}',
    '\U{2006}', '\U{2007}', '\U{2008}', '\U{2009}', '\U{200A}',
    '\U{2028}', '\U{2029}', '\U{202F}', '\U{205F}', '\U{3000}', '\U{FEFF}'
  }

  predicate IsWhitespace(c: char) {
    c in Whitespace
  }

  /** The first index at or after `i` that does not hold whitespace, or |s|. */
  function SkipWhitespace(s: string, i: nat): (k: nat)
    requires i <= |s|
    ensures i <= k <= |s|
    decreases |s| - i
  {
    if i < |s| && IsWhitespace(s[i]) then SkipWhitespace(s, i + 1) else i
  }

  /** SkipWhitespace stops at the first non-whitespace character from `i` on. */
  lemma {:induction false} SkipWhitespaceSpec(s: string, i: nat)
    requires i <= |s|
    ensures forall j :: i <= j < SkipWhitespace(s, i) ==> IsWhitespace(s[j])
    ensures SkipWhitespace(s, i) < |s| ==> !IsWhitespace(s[SkipWhitespace(s, i)])
    decreases |s| - i
  {
    if i < |s| && IsWhitespace(s[i]) {
      SkipWhitespaceSpec(s, i + 1);
    }
  }

  /** The stop is the only index that fits that description. */
  lemma {:induction false} SkipWhitespaceAt(s: string, i: nat, k: nat)
    requires i <= k <= |s|
    requires forall j :: i <= j < k ==> IsWhitespace(s[j])
    requires k < |s| ==> !IsWhitespace(s[k])
    ensures SkipWhitespace(s, i) == k
    decreases k - i
  {
    if i < k {
      SkipWhitespaceAt(s, i + 1, k);
    }
  }

  /** One past the last index before `j` that does not hold whitespace, or 0. */
  function BackWhitespace(s: string, j: nat): (k: nat)
    requires j <= |s|
    ensures k <= j
    decreases j
  {
    if j > 0 && IsWhitespace(s[j - 1]) then BackWhitespace(s, j - 1) else j
  }

  /** BackWhitespace stops just after the last non-whitespace character before `j`. */
  lemma {:induction false} BackWhitespaceSpec(s: string, j: nat)
    requires j <= |s|
    ensures forall i :: BackWhitespace(s, j) <= i < j ==> IsWhitespace(s[i])
    ensures BackWhitespace(s, j) > 0 ==> !IsWhitespace(s[BackWhitespace(s, j) - 1])
    decreases j
  {
    if j > 0 && IsWhitespace(s[j - 1]) {
      BackWhitespaceSpec(s, j - 1);
    }
  }

  /** The stop is the only index that fits that description. */
  lemma {:induction false} BackWhitespaceAt(s: string, j: nat, k: nat)
    requires k <= j <= |s|
    requires forall i :: k <= i < j ==> IsWhitespace(s[i])
    requires k > 0 ==> !IsWhitespace(s[k - 1])
    ensures BackWhitespace(s, j) == k
    decreases j - k
  {
    if k < j {
      BackWhitespaceAt(s, j - 1, k);
    }
  }

  /** `String.prototype.trimStart`. */
  function TrimStart(s: string): string {
    s[SkipWhitespace(s, 0)..]
  }

  /** TrimStart drops the longest all-whitespace prefix and nothing else. */
  lemma TrimStartSpec(s: string)
    ensures |TrimStart(s)| <= |s| && TrimStart(s) == s[|s| - |TrimStart(s)|..]
    ensures forall i :: 0 <= i < |s| - |TrimStart(s)| ==> IsWhitespace(s[i])
    ensures TrimStart(s) != [] ==> !IsWhitespace(TrimStart(s)[0])
  {
    SkipWhitespaceSpec(s, 0);
  }

  /** The cut TrimStart makes is the only one that contract allows. */
  lemma TrimStartAt(s: string, k: nat)
    requires k <= |s|
    requires forall i :: 0 <= i < k ==> IsWhitespace(s[i])
    requires k < |s| ==> !IsWhitespace(s[k])
    ensures TrimStart(s) == s[k..]
  {
    SkipWhitespaceAt(s, 0, k);
  }

  /** `String.prototype.trimEnd`. */
  function TrimEnd(s: string): string {
    s[..BackWhitespace(s, |s|)]
  }

  /** TrimEnd drops the longest all-whitespace suffix and nothing else. */
  lemma TrimEndSpec(s: string)
    ensures TrimEnd(s) <= s
    ensures forall i :: |TrimEnd(s)| <= i < |s| ==> IsWhitespace(s[i])
    ensures TrimEnd(s) != [] ==> !IsWhitespace(TrimEnd(s)[|TrimEnd(s)| - 1])
  {
    BackWhitespaceSpec(s, |s|);
  }

  /** The cut TrimEnd makes is the only one that contract allows. */
  lemma TrimEndAt(s: string, k: nat)
    requires k <= |s|
    requires forall i :: k <= i < |s| ==> IsWhitespace(s[i])
    requires k > 0 ==> !IsWhitespace(s[k - 1])
    ensures TrimEnd(s) == s[..k]
  {
    BackWhitespaceAt(s, |s|, k);
  }

  /** ASCII lower-casing of one character; every other character is kept. */
  function LowerChar(c: char): char {
    if 'A' <= c <= 'Z' then (c as int + 32) as char else c
  }

  function Lower(s: string): string {
    seq(|s|, i requires 0 <= i < |s| => LowerChar(s[i]))
  }

  /** Lexicographic order on code points, a proper prefix sorting first. */
  predicate LexLe(a: string, b: string)
    decreases |a|
  {
    a == [] || (b != [] && (a[0] < b[0] || (a[0] == b[0] && LexLe(a[1..], b[1..]))))
  }

  lemma {:induction false} LexLeReflexive(a: string)
    ensures LexLe(a, a)
    decreases |a|
  {
    if a != [] {
      LexLeReflexive(a[1..]);
    }
  }

  lemma {:induction false} LexLeAntisymmetric(a: string, b: string)
    requires LexLe(a, b) && LexLe(b, a)
    ensures a == b
    decreases |a|
  {
    if a != [] {
      LexLeAntisymmetric(a[1..], b[1..]);
      assert a == [a[0]] + a[1..] && b == [b[0]] + b[1..];
    }
  }

  lemma {:induction false} LexLeTransitive(a: string, b: string, c: string)
    requires LexLe(a, b) && LexLe(b, c)
    ensures LexLe(a, c)
    decreases |a|
  {
    if a != [] && a[0] == b[0] && b[0] == c[0] {
      LexLeTransitive(a[1..], b[1..], c[1..]);
    }
  }

  lemma {:induction false} LexLeTotal(a: string, b: string)
    ensures LexLe(a, b) || LexLe(b, a)
    decreases |a|
  {
    if a != [] && b != [] && a[0] == b[0] {
      LexLeTotal(a[1..], b[1..]);
    }
  }

  /** The index of the last `c` in `s`, or -1 when there is none. */
  function LastIndexOf(s: string, c: char): (r: int)
    ensures -1 <= r < |s|
    ensures r >= 0 ==> s[r] == c
    ensures forall j :: r < j < |s| ==> s[j] != c
    decreases |s|
  {
    if s == [] then -1
    else if s[|s| - 1] == c then |s| - 1
    else LastIndexOf(s[..|s| - 1], c)
  }

  /** The last `c` is the one with no `c` after it. */
  lemma LastIndexOfAt(s: string, c: char, k: int)
    requires -1 <= k < |s| && (k >= 0 ==> s[k] == c)
    requires forall j :: k < j < |s| ==> s[j] != c
    ensures LastIndexOf(s, c) == k
  {
  }

  /** Path components joined by '/', the form every relative path is kept in. */
  function JoinPath(parts: seq<string>): string
    decreases |parts|
  {
    if |parts| == 0 then ""
    else if |parts| == 1 then parts[0]
    else JoinPath(parts[..|parts| - 1]) + "/" + parts[|parts| - 1]
  }

  /** Splits at every '/', the inverse of JoinPath. */
  function SplitPath(s: string): (r: seq<string>)
    ensures |r| >= 1
    decreases |s|
  {
    var k := LastIndexOf(s, '/');
    if k < 0 then [s] else SplitPath(s[..k]) + [s[k + 1..]]
  }

  predicate NoSlash(name: string) {
    forall i :: 0 <= i < |name| ==> name[i] != '/'
  }

  /**
   * A relative path determines its components: joining components that hold
   * no '/' and splitting the result again gives them back.
   */
  lemma {:induction false} SplitJoinPath(parts: seq<string>)
    requires |parts| >= 1
    requires forall i :: 0 <= i < |parts| ==> NoSlash(parts[i])
    ensures SplitPath(JoinPath(parts)) == parts
    decreases |parts|
  {
    var s := JoinPath(parts);
    if |parts| == 1 {
      assert LastIndexOf(s, '/') == -1;
    } else {
      var init, last := parts[..|parts| - 1], parts[|parts| - 1];
      var x := JoinPath(init);
      assert s == x + "/" + last;
      var k := LastIndexOf(s, '/');
      assert s[|x|] == '/';
      assert forall j :: |x| < j < |s| ==> s[j] == last[j - |x| - 1];
      assert k == |x|;
      assert s[..k] == x && s[k + 1..] == last;
      SplitJoinPath(init);
      assert parts == init + [last];
    }
  }
}
