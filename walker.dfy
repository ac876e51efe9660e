/**
 * `getMarkdownFiles`: a depth-first walk of the input directory that pushes
 * one entry per accepted file onto a single shared list. The file system is
 * an abstract tree whose children are in listing order; `Other` stands for
 * every entry `readdir` reports as neither a directory nor a regular file
 * (symbolic links included).
 */
module Walker {
  import opened Text

  datatype Node = Dir(name: string, children: seq<Node>) | File(name: string) | Other(name: string)

  /**
   * A discovered file. `path` holds its components below the scan root and
   * stands for the absolute path (the root's own location is host-specific);
   * `relPath` is the '/'-joined relative path computed at discovery.
   */
  datatype FileEntry = FileEntry(path: seq<string>, relPath: string)

  /** The accepted extensions, compared after lower-casing. */
  const Extensions: set<string> := {".md", ".markdown", ".mdx"}

  /** Directory names whose subtrees are never entered. */
  const IgnoredDirs: set<string> := {"node_modules", ".git", ".github", ".next", "dist", "build", ".cache"}

  /**
   * Node's POSIX `path.extname` on a single path component: from the last
   * '.' to the end, or "" when there is no '.', when the only '.' before the
   * end is the first character, or for "..".
   */
  function Extname(name: string): (ext: string)
    ensures ext == [] || (ext[0] == '.' && |ext| < |name| && ext == name[|name| - |ext|..])
    ensures forall i :: 1 <= i < |ext| ==> ext[i] != '.'
    ensures ext != [] ==> LastIndexOf(name, '.') == |name| - |ext|
  {
    var d := LastIndexOf(name, '.');
    if d <= 0 then ""
    else if d == |name| - 1 && d == 1 && name[0] == '.' then ""
    else name[d..]
  }

  /**
   * When a name has an extension: exactly when its last '.' is past the first
   * character and the name is not "..", and then the extension runs from
   * that '.' to the end.
   */
  lemma ExtnameFound(name: string)
    ensures Extname(name) != [] <==> LastIndexOf(name, '.') > 0 && name != ".."
    ensures Extname(name) != [] ==> Extname(name) == name[LastIndexOf(name, '.')..]
  {
  }

  /** The extension test of the walk. */
  predicate IsMarkdownName(name: string) {
    Lower(Extname(name)) in Extensions
  }

  /** `name[k..]` is an extension: a '.' after the first character, and no '.' after it. */
  predicate ExtensionAt(name: string, k: int) {
    && 0 < k < |name| && name[k] == '.'
    && forall j :: k < j < |name| ==> name[j] != '.'
  }

  /**
   * A name is accepted exactly when it has a '.' past its first character,
   * no later '.', and the text from that '.' on lower-cases to an accepted
   * extension.
   */
  lemma MarkdownNameIff(name: string)
    ensures IsMarkdownName(name) <==>
      exists k :: ExtensionAt(name, k) && Lower(name[k..]) in Extensions
  {
    var ext := Extname(name);
    if IsMarkdownName(name) {
      assert ext != [] by {
        assert Lower([]) == [];
      }
      assert ExtensionAt(name, |name| - |ext|);
    }
    if exists k :: ExtensionAt(name, k) && Lower(name[k..]) in Extensions {
      var k :| ExtensionAt(name, k) && Lower(name[k..]) in Extensions;
      var d := LastIndexOf(name, '.');
      assert d == k;
      assert Lower(name[k..]) != ".";
    }
  }

  /** Upper-case extensions are accepted. */
  lemma AcceptsUpperCase()
    ensures IsMarkdownName("README.MD")
  {
    LastIndexOfAt("README.MD", '.', 6);
    assert Lower(".MD") == ".md";
  }

  /** Mixed case is folded the same way. */
  lemma AcceptsMixedCase()
    ensures IsMarkdownName("page.Mdx")
  {
    LastIndexOfAt("page.Mdx", '.', 4);
    assert Lower(".Mdx") == ".mdx";
  }

  /** A name made only of dots and the extension still has one. */
  lemma AcceptsDoubleDot()
    ensures IsMarkdownName("..md")
  {
    LastIndexOfAt("..md", '.', 1);
    assert Lower(".md") == ".md";
  }

  /** Names it rejects: a leading dot is no extension, and only the last one counts. */
  lemma RejectedNameExamples()
    ensures !IsMarkdownName(".md")
    ensures !IsMarkdownName("md")
    ensures !IsMarkdownName("notes.md.bak")
  {
    assert !IsMarkdownName(".md") by {
      LastIndexOfAt(".md", '.', 0);
      assert Lower("") == "";
    }
    assert !IsMarkdownName("md") by {
      LastIndexOfAt("md", '.', -1);
      assert Lower("") == "";
    }
    assert !IsMarkdownName("notes.md.bak") by {
      LastIndexOfAt("notes.md.bak", '.', 8);
      assert Lower(".bak") == ".bak";
    }
  }

  /**
   * The entries the walk of `children` pushes, in order, for a directory
   * whose components below the root are `prefix`.
   */
  function WalkList(children: seq<Node>, prefix: seq<string>): seq<FileEntry>
    decreases children
  {
    if children == [] then []
    else WalkList(children[..|children| - 1], prefix) + WalkNode(children[|children| - 1], prefix)
  }

  /** The entries that one directory entry contributes. */
  function WalkNode(n: Node, prefix: seq<string>): seq<FileEntry>
    decreases n
  {
    match n
    case Dir(name, children) =>
      if name in IgnoredDirs then [] else WalkList(children, prefix + [name])
    case File(name) =>
      if IsMarkdownName(name) then [FileEntry(prefix + [name], JoinPath(prefix + [name]))] else []
    case Other(_) => []
  }

  /** `getMarkdownFiles(root)`: the root itself is listed, never tested against the ignore set. */
  function MarkdownFiles(root: Node): seq<FileEntry>
    requires root.Dir?
  {
    WalkList(root.children, [])
  }

  /**
   * Reference definition of what is selected: `p` names, below `children`,
   * a regular file with an accepted name reached only through directories
   * whose names are not ignored.
   */
  predicate Selected(children: seq<Node>, p: seq<string>)
    decreases children
  {
    exists i :: 0 <= i < |children| && SelectedBy(children[i], p)
  }

  predicate SelectedBy(n: Node, p: seq<string>)
    decreases n
  {
    match n
    case File(name) => p == [name] && IsMarkdownName(name)
    case Dir(name, children) =>
      name !in IgnoredDirs && |p| >= 2 && p[0] == name && Selected(children, p[1..])
    case Other(_) => false
  }

  /** `e` is an entry for `prefix + q`, with its relative path joined from its components. */
  predicate EntryFor(e: FileEntry, prefix: seq<string>, q: seq<string>) {
    e.path == prefix + q && e.relPath == JoinPath(e.path)
  }

  /** Walking in listing order: the entries of a split listing are concatenated. */
  lemma {:induction false} WalkListAppend(a: seq<Node>, b: seq<Node>, prefix: seq<string>)
    ensures WalkList(a + b, prefix) == WalkList(a, prefix) + WalkList(b, prefix)
    decreases |b|
  {
    if b == [] {
      assert a + b == a;
    } else {
      var b', last := b[..|b| - 1], b[|b| - 1];
      assert a + b == (a + b') + [last] && b == b' + [last];
      WalkListSnoc(a + b', last, prefix);
      WalkListSnoc(b', last, prefix);
      WalkListAppend(a, b', prefix);
    }
  }

  /** One more entry in the listing adds its entries at the end. */
  lemma WalkListSnoc(s: seq<Node>, n: Node, prefix: seq<string>)
    ensures WalkList(s + [n], prefix) == WalkList(s, prefix) + WalkNode(n, prefix)
  {
    assert (s + [n])[..|s|] == s;
  }

  /** One entry node on its own. */
  lemma {:induction false} WalkNodeIff(n: Node, prefix: seq<string>, e: FileEntry)
    ensures e in WalkNode(n, prefix) <==>
      (|e.path| > |prefix| && SelectedBy(n, e.path[|prefix|..]) && EntryFor(e, prefix, e.path[|prefix|..]))
    decreases n
  {
    match n
    case File(name) =>
    case Other(_) =>
    case Dir(name, children) =>
      if name !in IgnoredDirs {
        var prefix' := prefix + [name];
        WalkListIff(children, prefix', e);
        if |e.path| > |prefix| {
          var q := e.path[|prefix|..];
          if |q| >= 2 && q[0] == name {
            assert q[1..] == e.path[|prefix'|..];
            if e.path == prefix + q {
              assert e.path == prefix' + q[1..];
            }
            if e.path == prefix' + e.path[|prefix'|..] {
              assert e.path == prefix + q;
            }
          }
          if |e.path| > |prefix'| && e.path == prefix' + e.path[|prefix'|..] {
            assert q == [name] + e.path[|prefix'|..];
          }
        }
      }
  }

  /**
   * Soundness and completeness of the walk: an entry is produced exactly
   * when it names a selected file, with the relative path joined from its
   * components.
   */
  lemma {:induction false} WalkListIff(children: seq<Node>, prefix: seq<string>, e: FileEntry)
    ensures e in WalkList(children, prefix) <==>
      (|e.path| > |prefix| && Selected(children, e.path[|prefix|..]) && EntryFor(e, prefix, e.path[|prefix|..]))
    decreases children
  {
    if children != [] {
      var init, last := children[..|children| - 1], children[|children| - 1];
      WalkListIff(init, prefix, e);
      WalkNodeIff(last, prefix, e);
      if |e.path| > |prefix| {
        SelectedSplit(children, e.path[|prefix|..]);
      }
    }
  }

  /** A listing selects what its first entries or its last entry select. */
  lemma SelectedSplit(children: seq<Node>, q: seq<string>)
    requires children != []
    ensures Selected(children, q) <==>
      Selected(children[..|children| - 1], q) || SelectedBy(children[|children| - 1], q)
  {
    var init := children[..|children| - 1];
    if Selected(children, q) {
      var i :| 0 <= i < |children| && SelectedBy(children[i], q);
      assert i < |init| ==> children[i] == init[i];
    }
    if Selected(init, q) {
      var i :| 0 <= i < |init| && SelectedBy(init[i], q);
      assert children[i] == init[i];
    }
  }

  /**
   * What every selected path satisfies: its last component is an accepted
   * file name and none of the directories above it, below the root, is in
   * the ignore set.
   */
  lemma {:induction false} SelectedFacts(children: seq<Node>, p: seq<string>)
    requires Selected(children, p)
    ensures |p| >= 1 && IsMarkdownName(p[|p| - 1])
    ensures forall j :: 0 <= j < |p| - 1 ==> p[j] !in IgnoredDirs
    decreases children
  {
    var i :| 0 <= i < |children| && SelectedBy(children[i], p);
    var n := children[i];
    if n.Dir? {
      SelectedFacts(n.children, p[1..]);
      assert forall j :: 1 <= j < |p| ==> p[j] == p[1..][j - 1];
    }
  }

  /** Every entry of the walk names a selected file, with its relative path joined from its components. */
  lemma EntrySelected(root: Node, e: FileEntry)
    requires root.Dir?
    requires e in MarkdownFiles(root)
    ensures Selected(root.children, e.path)
    ensures e.relPath == JoinPath(e.path)
  {
    WalkListIff(root.children, [], e);
    var none: seq<string> := [];
    assert e.path[|none|..] == e.path && none + e.path == e.path;
  }

  /** Every entry of the walk, stated on the entry alone. */
  lemma EntryFacts(root: Node, e: FileEntry)
    requires root.Dir?
    requires e in MarkdownFiles(root)
    ensures |e.path| >= 1 && IsMarkdownName(e.path[|e.path| - 1])
    ensures forall j :: 0 <= j < |e.path| - 1 ==> e.path[j] !in IgnoredDirs
  {
    var p := e.path;
    assert Selected(root.children, p) by {
      EntrySelected(root, e);
    }
    SelectedFacts(root.children, p);
  }

  /** Every selected file of the tree is found, with its joined relative path. */
  lemma SelectedFound(root: Node, p: seq<string>)
    requires root.Dir?
    requires Selected(root.children, p)
    ensures FileEntry(p, JoinPath(p)) in MarkdownFiles(root)
  {
    var e := FileEntry(p, JoinPath(p));
    var none: seq<string> := [];
    assert e.path[|none|..] == e.path && none + e.path == e.path;
    WalkListIff(root.children, [], e);
  }

  /** The list `getMarkdownFiles` threads through its recursive calls. */
  class EntryList {
    var items: seq<FileEntry>

    constructor ()
      ensures items == []
    {
      items := [];
    }

    /** `files.push(entry)`. */
    method Push(e: FileEntry)
      modifies this
      ensures items == old(items) + [e]
    {
      items := items + [e];
    }
  }

  /**
   * The recursive body of `getMarkdownFiles(dir, baseDir, files)`: `dir` is
   * the directory node, `prefix` its components below `baseDir`, and every
   * entry found is pushed onto `files`, which is also returned.
   */
  method Descend(dir: Node, prefix: seq<string>, files: EntryList) returns (result: EntryList)
    requires dir.Dir?
    modifies files
    ensures result == files
    ensures files.items == old(files.items) + WalkList(dir.children, prefix)
    decreases dir
  {
    var i := 0;
    while i < |dir.children|
      invariant 0 <= i <= |dir.children|
      invariant files.items == old(files.items) + WalkList(dir.children[..i], prefix)
    {
      var entry := dir.children[i];
      ghost var before := files.items;
      match entry {
        case Dir(name, _) =>
          if name !in IgnoredDirs {
            var _ := Descend(entry, prefix + [name], files);
          } else {
            assert before + [] == before;
          }
        case File(name) =>
          var ext := Lower(Extname(name));
          if ext in Extensions {
            var path := prefix + [name];
            files.Push(FileEntry(path, JoinPath(path)));
          } else {
            assert before + [] == before;
          }
        case Other(_) =>
          assert before + [] == before;
      }
      DescendStep(dir.children, i, prefix, old(files.items), before, files.items);
      i := i + 1;
    }
    assert dir.children[..i] == dir.children;
    result := files;
  }

  /** One entry of the listing: what it pushes extends the walk of the entries before it. */
  lemma DescendStep(children: seq<Node>, i: nat, prefix: seq<string>,
                    start: seq<FileEntry>, before: seq<FileEntry>, after: seq<FileEntry>)
    requires i < |children|
    requires before == start + WalkList(children[..i], prefix)
    requires after == before + WalkNode(children[i], prefix)
    ensures after == start + WalkList(children[..i + 1], prefix)
  {
    assert children[..i + 1][..i] == children[..i];
  }

  /** `getMarkdownFiles(inDir)`: a fresh list, the root as its own base. */
  method GetMarkdownFiles(root: Node) returns (files: seq<FileEntry>)
    requires root.Dir?
    ensures files == MarkdownFiles(root)
  {
    var list := new EntryList();
    var result := Descend(root, [], list);
    files := result.items;
  }
}
