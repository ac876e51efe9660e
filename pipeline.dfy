/**
 * `main` from the input directory on: the check that the input is an
 * accessible directory, the walk, the sort by relative path, and the
 * assembly of the output text.
 */
module Pipeline {
  import opened Wrappers
  import opened Text
  import opened Normalizer
  import opened Headings
  import opened Walker
  import opened Sorter
  import opened Assembler

  /** Why `main` stops with exit status 1 instead of writing the output. */
  datatype Failure =
    | CannotAccess                      // `fs.stat` rejects the input path
    | NotADirectory                     // the input exists but is not a directory
    | Unreadable(path: seq<string>)     // a listed file cannot be read

  /**
   * The text written to the output file, given what `fs.stat` finds at the
   * input path (`None` when it finds nothing) and the files' contents.
   */
  function ConcatMarkdown(input: Option<Node>, fs: FileSystem): Result<string, Failure> {
    match input
    case None => Err(CannotAccess)
    case Some(root) =>
      if !root.Dir? then Err(NotADirectory)
      else
        match Output(SortEntries(MarkdownFiles(root)), fs)
        case Ok(text) => Ok(text)
        case Err(ReadFailed(p)) => Err(Unreadable(p))
  }

  /** `main` as the program runs it: walk, copy into an array, sort in place, assemble. */
  method Run(input: Option<Node>, fs: FileSystem) returns (r: Result<string, Failure>)
    ensures r == ConcatMarkdown(input, fs)
  {
    if input.None? {
      return Err(CannotAccess);
    }
    var root := input.value;
    if !root.Dir? {
      return Err(NotADirectory);
    }
    var found := GetMarkdownFiles(root);
    var files := new FileEntry[|found|](i requires 0 <= i < |found| => found[i]);
    assert files[..] == found;
    SortInPlace(files);
    var out := AssembleOutput(files[..], fs);
    match out
    case Ok(text) => r := Ok(text);
    case Err(ReadFailed(p)) => r := Err(Unreadable(p));
  }

  /** With no Markdown file below the root the output is empty, whatever the file contents. */
  lemma NoFilesEmptyOutput(root: Node, fs: FileSystem)
    requires root.Dir? && MarkdownFiles(root) == []
    ensures ConcatMarkdown(Some(root), fs) == Ok("")
  {
  }

  /** The discovered files in the order `main` reads them. */
  function ReadOrder(root: Node): seq<FileEntry>
    requires root.Dir?
  {
    SortEntries(MarkdownFiles(root))
  }

  /** Reading fails exactly when some discovered file has no contents. */
  lemma FailsIffMissing(root: Node, fs: FileSystem)
    requires root.Dir?
    ensures ConcatMarkdown(Some(root), fs).Err? <==> exists e :: e in MarkdownFiles(root) && e.path !in fs
  {
    var found := MarkdownFiles(root);
    var sorted := ReadOrder(root);
    SortPermutation(found);
    ReadAllFailsIff(sorted, fs);
    if exists e :: e in found && e.path !in fs {
      var e :| e in found && e.path !in fs;
      assert e in multiset(found);
      var i :| 0 <= i < |sorted| && sorted[i] == e;
    }
    if exists i :: 0 <= i < |sorted| && sorted[i].path !in fs {
      var i :| 0 <= i < |sorted| && sorted[i].path !in fs;
      assert sorted[i] in multiset(sorted);
    }
  }

  /**
   * When reading fails, the error names the first file in read order that has
   * no contents; no later file is consulted.
   */
  lemma FailureIsFirstMissing(root: Node, fs: FileSystem, i: nat)
    requires root.Dir?
    requires i < |ReadOrder(root)| && ReadOrder(root)[i].path !in fs
    requires forall j :: 0 <= j < i ==> ReadOrder(root)[j].path in fs
    ensures ConcatMarkdown(Some(root), fs) == Err(Unreadable(ReadOrder(root)[i].path))
  {
    FirstFailure(ReadOrder(root), fs, i);
  }

  /**
   * When every file is read and there is at least one, the output opens with
   * the leading newline and the first block's separator, and ends in the
   * newline after the last body.
   */
  lemma OutputShape(root: Node, fs: FileSystem)
    requires root.Dir? && MarkdownFiles(root) != []
    requires ConcatMarkdown(Some(root), fs).Ok?
    ensures var out := ConcatMarkdown(Some(root), fs).value;
      |out| >= 3 && out[..2] == "\n\n" && out[|out| - 1] == '\n'
  {
    var sorted := ReadOrder(root);
    SortPermutation(MarkdownFiles(root));
    assert |sorted| == |multiset(sorted)| == |multiset(MarkdownFiles(root))| > 0;
    ReadAllFailsIff(sorted, fs);
    var ds := ReadAll(sorted, fs).value;
    ReadAllDocuments(sorted, fs);
    AssembleShape(ds);
  }

  /**
   * The end-to-end example: `b.md` has no heading and gets one; `sub/a.md`
   * starts with its own, loses its CR and its trailing newline; "b.md"
   * sorts before "sub/a.md" since 'b' < 's'.
   */
  lemma Example()
    ensures ConcatMarkdown(
      Some(Dir("docs", [File("b.md"), Dir("sub", [File("a.md")])])),
      map[["b.md"] := "x", ["sub", "a.md"] := "# A\r\n"])
      == Ok("\n\n# b.md\n\nx\n\n# A\n")
  {
    ExampleWalk();
    ExampleSort();
    ExampleRead();
    ExampleAssemble();
  }

  lemma ExampleWalk()
    ensures MarkdownFiles(Dir("docs", [File("b.md"), Dir("sub", [File("a.md")])]))
      == [FileEntry(["b.md"], "b.md"), FileEntry(["sub", "a.md"], "sub/a.md")]
  {
    var fb, sub := File("b.md"), Dir("sub", [File("a.md")]);
    var none: seq<string> := [];
    ExampleWalkFile();
    ExampleWalkSub();
    assert [fb, sub][..1] == [fb] && [fb][..0] == [];
    assert WalkList([], none) == [];
    assert WalkList([fb], none) == [FileEntry(["b.md"], "b.md")];
    assert WalkList([fb, sub], none) == WalkList([fb], none) + WalkNode(sub, none);
  }

  lemma ExampleWalkFile()
    ensures WalkNode(File("b.md"), []) == [FileEntry(["b.md"], "b.md")]
  {
    LastIndexOfAt("b.md", '.', 1);
    assert Lower(".md") == ".md";
    var none: seq<string> := [];
    assert none + ["b.md"] == ["b.md"];
  }

  lemma ExampleWalkSub()
    ensures WalkNode(Dir("sub", [File("a.md")]), []) == [FileEntry(["sub", "a.md"], "sub/a.md")]
  {
    LastIndexOfAt("a.md", '.', 1);
    assert Lower(".md") == ".md";
    var none: seq<string> := [];
    assert [File("a.md")][..0] == [];
    assert none + ["sub"] + ["a.md"] == ["sub", "a.md"];
    assert JoinPath(["sub", "a.md"]) == "sub/a.md" by {
      assert ["sub", "a.md"][..1] == ["sub"];
    }
    assert "sub" !in IgnoredDirs;
  }

  lemma ExampleSort()
    ensures SortEntries([FileEntry(["b.md"], "b.md"), FileEntry(["sub", "a.md"], "sub/a.md")])
      == [FileEntry(["b.md"], "b.md"), FileEntry(["sub", "a.md"], "sub/a.md")]
  {
    var eb := FileEntry(["b.md"], "b.md");
    var ea := FileEntry(["sub", "a.md"], "sub/a.md");
    assert Key(eb) == "b.md" && Key(ea) == "sub/a.md";
    assert Le(eb, ea);
    assert [eb, ea][..1] == [eb] && [eb][..0] == [];
  }

  lemma ExampleRead()
    ensures ReadAll([FileEntry(["b.md"], "b.md"), FileEntry(["sub", "a.md"], "sub/a.md")],
      map[["b.md"] := "x", ["sub", "a.md"] := "# A\r\n"])
      == Ok([Document("b.md", "x"), Document("sub/a.md", "# A\r\n")])
  {
    var eb := FileEntry(["b.md"], "b.md");
    var ea := FileEntry(["sub", "a.md"], "sub/a.md");
    var fs := map[["b.md"] := "x", ["sub", "a.md"] := "# A\r\n"];
    assert ["b.md"] != ["sub", "a.md"];
    assert fs[["b.md"]] == "x" && fs[["sub", "a.md"]] == "# A\r\n";
    assert [eb, ea][..1] == [eb] && [eb][..0] == [];
    var none: seq<Document> := [];
    assert ReadAll([], fs) == Ok(none);
    assert none + [Document("b.md", "x")] == [Document("b.md", "x")];
    assert ReadAll([eb], fs) == Ok([Document("b.md", "x")]);
    assert ReadAll([eb, ea], fs) == Ok([Document("b.md", "x")] + [Document("sub/a.md", "# A\r\n")]);
    assert [Document("b.md", "x")] + [Document("sub/a.md", "# A\r\n")]
      == [Document("b.md", "x"), Document("sub/a.md", "# A\r\n")];
  }

  lemma ExampleContent()
    ensures NormalizeContent("x") == "x"
    ensures NormalizeContent("# A\r\n") == "# A\n"
  {
    assert ReplaceCrlf("x") == "x" + ReplaceCrlf("");
    assert ReplaceCrlf("# A\r\n") == "#" + ReplaceCrlf(" A\r\n");
    assert ReplaceCrlf(" A\r\n") == " " + ReplaceCrlf("A\r\n");
    assert ReplaceCrlf("A\r\n") == "A" + ReplaceCrlf("\r\n");
    assert ReplaceCrlf("\r\n") == "\n" + ReplaceCrlf("");
  }

  lemma ExampleBlocks()
    ensures ToBlock(Document("b.md", "x")) == Block("b.md", false, "x")
    ensures ToBlock(Document("sub/a.md", "# A\r\n")) == Block("sub/a.md", true, "# A")
  {
    ExampleContent();
    ExampleUnheaded();
    ExampleHeaded();
  }

  lemma ExampleUnheaded()
    ensures !StartsWithHeading("x") && TrimEnd("x") == "x"
  {
    assert !IsWhitespace('x');
    UnheadedAt("x");
    TrimEndAt("x", 1);
  }

  lemma ExampleHeaded()
    ensures StartsWithHeading("# A\n") && TrimEnd("# A\n") == "# A"
  {
    var s := "# A\n";
    assert s[0] == '#' && s[1] == ' ' && s[2] == 'A' && s[3] == '\n';
    assert !IsWhitespace('A') && IsWhitespace(' ') && IsWhitespace('\n');
    HeadedAt(s, 0);
    TrimEndAt(s, 3);
    assert s[..3] == "# A";
  }

  lemma ExampleTexts()
    ensures "\n" + BlockTexts([Block("b.md", false, "x"), Block("sub/a.md", true, "# A")])
      == "\n\n# b.md\n\nx\n\n# A\n"
  {
    var bb := Block("b.md", false, "x");
    var ba := Block("sub/a.md", true, "# A");
    assert [bb, ba][1..] == [ba] && [ba][1..] == [];
    assert BlockText(bb) == "\n# b.md\n\nx\n";
    assert BlockText(ba) == "\n# A\n";
  }

  lemma ExampleAssemble()
    ensures Assemble([Document("b.md", "x"), Document("sub/a.md", "# A\r\n")])
      == "\n\n# b.md\n\nx\n\n# A\n"
  {
    var ds := [Document("b.md", "x"), Document("sub/a.md", "# A\r\n")];
    ExampleBlocks();
    BlocksOf(ds);
    assert Blocks(ds) == [Block("b.md", false, "x"), Block("sub/a.md", true, "# A")];
    AssembleIsBlocks(ds);
    ExampleTexts();
  }
}
