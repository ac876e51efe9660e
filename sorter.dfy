/**
 * `files.sort((a, b) => a.relPath.localeCompare(b.relPath, undefined,
 * { sensitivity: "base" }))`: an in-place stable sort of the discovered
 * entries by relative path, with upper and lower case comparing equal. The
 * locale's collation is replaced by code-point order on the ASCII
 * case-folded path.
 */
module Sorter {
  import opened Text
  import opened Walker

  /** What the comparator looks at. */
  function Key(e: FileEntry): string {
    Lower(e.relPath)
  }

  /** `compare(a, b) <= 0`: `a` may stay before `b`. */
  predicate Le(a: FileEntry, b: FileEntry) {
    LexLe(Key(a), Key(b))
  }

  /** The comparator is a total preorder whose ties are exactly equal keys. */
  lemma LeTotalPreorder(a: FileEntry, b: FileEntry, c: FileEntry)
    ensures Le(a, a)
    ensures Le(a, b) || Le(b, a)
    ensures Le(a, b) && Le(b, c) ==> Le(a, c)
    ensures Le(a, b) && Le(b, a) <==> Key(a) == Key(b)
  {
    LexLeReflexive(Key(a));
    LexLeTotal(Key(a), Key(b));
    if Le(a, b) && Le(b, c) {
      LexLeTransitive(Key(a), Key(b), Key(c));
    }
    if Le(a, b) && Le(b, a) {
      LexLeAntisymmetric(Key(a), Key(b));
    }
  }

  /** Case is folded: these two paths tie. */
  lemma CaseFoldedTie()
    ensures Key(FileEntry(["A.md"], "A.md")) == Key(FileEntry(["a.md"], "a.md"))
  {
    assert Lower("A.md") == "a.md";
    assert Lower("a.md") == "a.md";
  }

  /**
   * Two entries that tie keep the order they were discovered in, so the
   * output order does depend on the listing order when two paths differ
   * only in case.
   */
  lemma TiesKeepDiscoveryOrder(x: FileEntry, y: FileEntry)
    requires Key(x) == Key(y)
    ensures SortEntries([x, y]) == [x, y]
    ensures SortEntries([y, x]) == [y, x]
  {
    LexLeReflexive(Key(x));
    assert Le(x, y) && Le(y, x);
    TieOnTop(x, y);
    TieOnTop(y, x);
  }

  /** Sorting `[a, b]` when `a` may stay before `b`. */
  lemma TieOnTop(a: FileEntry, b: FileEntry)
    requires Le(a, b)
    ensures SortEntries([a, b]) == [a, b]
  {
    var none: seq<FileEntry> := [];
    assert [a, b][..1] == [a] && [a][..0] == none;
    assert SortEntries([a]) == Insert(none, a) == [a];
    assert SortEntries([a, b]) == Insert([a], b);
  }

  predicate Sorted(s: seq<FileEntry>) {
    forall i, j :: 0 <= i < j < |s| ==> Le(s[i], s[j])
  }

  /** The entries of `s` with key `k`, in their order in `s`. */
  function WithKey(s: seq<FileEntry>, k: string): seq<FileEntry>
    decreases |s|
  {
    if s == [] then []
    else WithKey(s[..|s| - 1], k) + (if Key(s[|s| - 1]) == k then [s[|s| - 1]] else [])
  }

  /**
   * Stability: every class of entries that compare equal keeps its relative
   * order.
   */
  ghost predicate StableFrom(t: seq<FileEntry>, s: seq<FileEntry>) {
    forall k :: WithKey(t, k) == WithKey(s, k)
  }

  /**
   * Inserts `x` into `s` after every entry that does not compare greater,
   * the step of a stable insertion sort.
   */
  function Insert(s: seq<FileEntry>, x: FileEntry): seq<FileEntry>
    decreases |s|
  {
    if s == [] || Le(s[|s| - 1], x) then s + [x]
    else Insert(s[..|s| - 1], x) + [s[|s| - 1]]
  }

  /** The order `files.sort` produces. */
  function SortEntries(s: seq<FileEntry>): seq<FileEntry>
    decreases |s|
  {
    if s == [] then [] else Insert(SortEntries(s[..|s| - 1]), s[|s| - 1])
  }

  lemma {:induction false} InsertPermutation(s: seq<FileEntry>, x: FileEntry)
    ensures multiset(Insert(s, x)) == multiset(s) + multiset{x}
    decreases |s|
  {
    if s != [] && !Le(s[|s| - 1], x) {
      InsertPermutation(s[..|s| - 1], x);
      assert s == s[..|s| - 1] + [s[|s| - 1]];
    }
  }

  /** Appending an entry that every earlier one precedes keeps the order. */
  lemma SortedSnoc(s: seq<FileEntry>, x: FileEntry)
    requires Sorted(s)
    requires forall y :: y in s ==> Le(y, x)
    ensures Sorted(s + [x])
  {
    var t := s + [x];
    forall i, j | 0 <= i < j < |t|
      ensures Le(t[i], t[j])
    {
      if j == |s| {
        assert t[i] in s;
      } else {
        assert t[i] == s[i] && t[j] == s[j];
      }
    }
  }

  lemma {:induction false} InsertSorted(s: seq<FileEntry>, x: FileEntry)
    requires Sorted(s)
    ensures Sorted(Insert(s, x))
    decreases |s|
  {
    if s == [] {
    } else if Le(s[|s| - 1], x) {
      var last := s[|s| - 1];
      forall y | y in s
        ensures Le(y, x)
      {
        var i :| 0 <= i < |s| && s[i] == y;
        LeTotalPreorder(y, last, x);
      }
      SortedSnoc(s, x);
    } else {
      var init, last := s[..|s| - 1], s[|s| - 1];
      assert Sorted(init);
      InsertSorted(init, x);
      InsertPermutation(init, x);
      forall y | y in Insert(init, x)
        ensures Le(y, last)
      {
        assert y in multiset(Insert(init, x));
        if y == x {
          LeTotalPreorder(x, last, x);
        } else {
          assert y in multiset(init);
          var i :| 0 <= i < |init| && init[i] == y;
          assert s[i] == y;
        }
      }
      SortedSnoc(Insert(init, x), last);
    }
  }

  lemma WithKeySnoc(s: seq<FileEntry>, y: FileEntry, k: string)
    ensures WithKey(s + [y], k) == WithKey(s, k) + (if Key(y) == k then [y] else [])
  {
    assert (s + [y])[..|s|] == s;
  }

  lemma {:induction false} InsertStable(s: seq<FileEntry>, x: FileEntry, k: string)
    ensures WithKey(Insert(s, x), k) == WithKey(s, k) + (if Key(x) == k then [x] else [])
    decreases |s|
  {
    if s == [] || Le(s[|s| - 1], x) {
      WithKeySnoc(s, x, k);
    } else {
      var init, last := s[..|s| - 1], s[|s| - 1];
      assert Insert(s, x) == Insert(init, x) + [last];
      assert s == init + [last];
      InsertStable(init, x, k);
      WithKeySnoc(Insert(init, x), last, k);
      WithKeySnoc(init, last, k);
      LeTotalPreorder(last, x, x);
      assert Key(last) != Key(x);
    }
  }

  /** The sort returns a permutation of its input. */
  lemma {:induction false} SortPermutation(s: seq<FileEntry>)
    ensures multiset(SortEntries(s)) == multiset(s)
    decreases |s|
  {
    if s != [] {
      SortPermutation(s[..|s| - 1]);
      InsertPermutation(SortEntries(s[..|s| - 1]), s[|s| - 1]);
      assert s == s[..|s| - 1] + [s[|s| - 1]];
    }
  }

  /** The sort returns its input ordered by the comparator. */
  lemma {:induction false} SortSorted(s: seq<FileEntry>)
    ensures Sorted(SortEntries(s))
    decreases |s|
  {
    if s != [] {
      SortSorted(s[..|s| - 1]);
      InsertSorted(SortEntries(s[..|s| - 1]), s[|s| - 1]);
    }
  }

  /** The sort is stable: entries that compare equal keep their discovery order. */
  lemma {:induction false} SortStable(s: seq<FileEntry>)
    ensures StableFrom(SortEntries(s), s)
    decreases |s|
  {
    if s != [] {
      var init, last := s[..|s| - 1], s[|s| - 1];
      SortStable(init);
      forall k
        ensures WithKey(SortEntries(s), k) == WithKey(s, k)
      {
        InsertStable(SortEntries(init), last, k);
      }
    }
  }

  lemma {:induction false} WithKeyMembers(s: seq<FileEntry>, k: string, y: FileEntry)
    ensures y in WithKey(s, k) <==> y in s && Key(y) == k
    decreases |s|
  {
    if s != [] {
      WithKeyMembers(s[..|s| - 1], k, y);
      assert s == s[..|s| - 1] + [s[|s| - 1]];
    }
  }

  lemma LastHasKey(c: seq<FileEntry>)
    ensures c != [] ==> WithKey(c, Key(c[|c| - 1])) != []
  {
  }

  /**
   * Two sorted sequences whose ties appear in the same order are equal: the
   * comparator and stability leave no freedom.
   */
  lemma {:induction false} SortedUnique(a: seq<FileEntry>, b: seq<FileEntry>)
    requires Sorted(a) && Sorted(b)
    requires StableFrom(a, b)
    ensures a == b
    decreases |a| + |b|
  {
    LastHasKey(a);
    LastHasKey(b);
    if a == [] || b == [] {
      return;
    }
    var a', b' := a[..|a| - 1], b[..|b| - 1];
    LastKeysAgree(a, b);
    StableDropLast(a, b);
    assert a == a' + [a[|a| - 1]] && b == b' + [b[|b| - 1]];
    assert Sorted(a') && Sorted(b');
    SortedUnique(a', b');
  }

  /** The last entries of two such sequences compare equal: each precedes the other. */
  lemma LastKeysAgree(a: seq<FileEntry>, b: seq<FileEntry>)
    requires Sorted(a) && Sorted(b) && a != [] && b != []
    requires StableFrom(a, b)
    ensures Key(a[|a| - 1]) == Key(b[|b| - 1])
  {
    var x, y := a[|a| - 1], b[|b| - 1];
    WithKeyMembers(a, Key(x), x);
    assert WithKey(a, Key(x)) == WithKey(b, Key(x));
    WithKeyMembers(b, Key(x), x);
    SortedLast(b, x);
    WithKeyMembers(b, Key(y), y);
    assert WithKey(a, Key(y)) == WithKey(b, Key(y));
    WithKeyMembers(a, Key(y), y);
    SortedLast(a, y);
    LexLeAntisymmetric(Key(x), Key(y));
  }

  /** With equally keyed last entries, those entries agree and so do the rests. */
  lemma StableDropLast(a: seq<FileEntry>, b: seq<FileEntry>)
    requires a != [] && b != [] && Key(a[|a| - 1]) == Key(b[|b| - 1])
    requires StableFrom(a, b)
    ensures a[|a| - 1] == b[|b| - 1]
    ensures StableFrom(a[..|a| - 1], b[..|b| - 1])
  {
    var a', x := a[..|a| - 1], a[|a| - 1];
    var b', y := b[..|b| - 1], b[|b| - 1];
    assert a == a' + [x] && b == b' + [y];
    WithKeySnoc(a', x, Key(x));
    WithKeySnoc(b', y, Key(x));
    assert WithKey(a, Key(x)) == WithKey(b, Key(x));
    SnocCancel(WithKey(a', Key(x)), x, WithKey(b', Key(x)), y);
    forall k
      ensures WithKey(a', k) == WithKey(b', k)
    {
      WithKeySnoc(a', x, k);
      WithKeySnoc(b', y, k);
      assert WithKey(a, k) == WithKey(b, k);
      SnocCancelOpt(WithKey(a', k), WithKey(b', k), if Key(x) == k then [x] else []);
    }
  }

  lemma SortedLast(s: seq<FileEntry>, z: FileEntry)
    requires Sorted(s) && z in s
    ensures Le(z, s[|s| - 1])
  {
    var i :| 0 <= i < |s| && s[i] == z;
    LeTotalPreorder(z, z, z);
  }

  lemma SnocCancel<T>(p: seq<T>, x: T, q: seq<T>, y: T)
    requires p + [x] == q + [y]
    ensures p == q && x == y
  {
    assert (p + [x])[..|p|] == p && (q + [y])[..|q|] == q;
    assert (p + [x])[|p|] == x && (q + [y])[|q|] == y;
  }

  lemma SnocCancelOpt<T>(p: seq<T>, q: seq<T>, t: seq<T>)
    requires p + t == q + t
    ensures p == q
  {
    assert (p + t)[..|p|] == p && (q + t)[..|q|] == q;
  }

  /**
   * The result does not depend on the sorting algorithm: any sorted
   * rearrangement that keeps ties in discovery order is SortEntries.
   */
  lemma AnyStableSortAgrees(s: seq<FileEntry>, t: seq<FileEntry>)
    requires Sorted(t) && StableFrom(t, s)
    ensures t == SortEntries(s)
  {
    SortSorted(s);
    SortStable(s);
    SortedUnique(t, SortEntries(s));
  }

  /**
   * Discovery order matters only among entries that compare equal: inputs
   * that list each class of ties in the same order sort identically.
   */
  lemma SortIgnoresDiscoveryOrder(s: seq<FileEntry>, t: seq<FileEntry>)
    requires StableFrom(s, t)
    ensures SortEntries(s) == SortEntries(t)
  {
    SortSorted(t);
    SortStable(t);
    SortStable(s);
    SortSorted(s);
    SortedUnique(SortEntries(s), SortEntries(t));
  }

  /**
   * The in-place `files.sort`: a stable insertion sort of the array, whose
   * result is SortEntries of the old contents.
   */
  method SortInPlace(a: array<FileEntry>)
    modifies a
    ensures a[..] == SortEntries(old(a[..]))
  {
    ghost var orig := a[..];
    var i := 0;
    while i < a.Length
      invariant 0 <= i <= a.Length
      invariant a[..i] == SortEntries(orig[..i])
      invariant a[i..] == orig[i..]
    {
      assert orig[..i + 1][..i] == orig[..i] && orig[i] == a[i];
      InsertAt(a, i);
      i := i + 1;
    }
    assert orig[..a.Length] == orig;
  }

  /**
   * One pass of the insertion sort: `a[i]` moves left past every entry of
   * `a[..i]` that compares greater.
   */
  method InsertAt(a: array<FileEntry>, i: nat)
    requires i < a.Length
    modifies a
    ensures a[..i + 1] == Insert(old(a[..i]), old(a[i]))
    ensures a[i + 1..] == old(a[i + 1..])
  {
    var x := a[i];
    ghost var sorted := a[..i];
    var j := i;
    while j > 0 && !Le(a[j - 1], x)
      invariant 0 <= j <= i
      invariant a[..j] == sorted[..j]
      invariant a[j + 1..i + 1] == sorted[j..]
      invariant forall k :: j <= k < i ==> !Le(sorted[k], x)
      invariant a[i + 1..] == old(a[i + 1..])
    {
      ghost var before := a[..];
      a[j] := a[j - 1];
      ShiftRight(before, a[..], sorted, j, i);
      j := j - 1;
    }
    InsertionPoint(sorted, x, j);
    ghost var before := a[..];
    a[j] := x;
    Place(before, a[..], sorted, x, j, i);
  }

  /**
   * Insert puts `x` right after the last entry that is not greater than it:
   * every entry from `j` on compares greater, the one before `j` does not.
   */
  lemma {:induction false} InsertionPoint(s: seq<FileEntry>, x: FileEntry, j: nat)
    requires j <= |s| && (j == 0 || Le(s[j - 1], x))
    requires forall k :: j <= k < |s| ==> !Le(s[k], x)
    ensures Insert(s, x) == s[..j] + [x] + s[j..]
    decreases |s|
  {
    if j < |s| {
      var init := s[..|s| - 1];
      assert init[..j] == s[..j];
      InsertionPoint(init, x, j);
      assert s[j..] == init[j..] + [s[|s| - 1]];
    } else {
      assert s[..j] == s;
    }
  }

  /** Copying the entry before the gap into it moves the gap one step left. */
  lemma ShiftRight(before: seq<FileEntry>, after: seq<FileEntry>, sorted: seq<FileEntry>, j: nat, i: nat)
    requires 0 < j <= i < |before| == |after| && |sorted| == i
    requires before[..j] == sorted[..j] && before[j + 1..i + 1] == sorted[j..]
    requires after == before[j := before[j - 1]]
    ensures after[..j - 1] == sorted[..j - 1] && after[j..i + 1] == sorted[j - 1..]
    ensures after[i + 1..] == before[i + 1..]
  {
    assert sorted[..j][..j - 1] == sorted[..j - 1];
    assert sorted[j - 1..] == [sorted[j - 1]] + sorted[j..];
    assert after[j..i + 1] == [after[j]] + after[j + 1..i + 1];
  }

  /** Writing `x` into the gap leaves the prefix sorted with `x` inserted. */
  lemma Place(before: seq<FileEntry>, after: seq<FileEntry>, sorted: seq<FileEntry>, x: FileEntry, j: nat, i: nat)
    requires j <= i < |before| == |after| && |sorted| == i
    requires before[..j] == sorted[..j] && before[j + 1..i + 1] == sorted[j..]
    requires after == before[j := x]
    ensures after[..i + 1] == sorted[..j] + [x] + sorted[j..]
    ensures after[i + 1..] == before[i + 1..]
  {
    assert after[..i + 1] == after[..j] + [x] + after[j + 1..i + 1];
  }
}
