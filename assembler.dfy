/**
 * The assembly in `main`: after sorting, an empty list gives the empty
 * output; otherwise a leading newline is pushed onto `parts`, then for each
 * file a newline separator, a synthetic `# <relPath>` heading when the
 * normalised text has no top-level heading, and the text with trailing
 * whitespace removed followed by one newline; the output is `parts.join("")`.
 */
module Assembler {
  import opened Wrappers
  import opened Text
  import opened Normalizer
  import opened Headings
  import opened Walker

  /** A file's relative path and its text as read, before normalisation. */
  datatype Document = Document(relPath: string, raw: string)

  /** The strings `main` pushes onto `parts`, labelled by their role. */
  datatype Fragment = Preamble | Separator | Heading(relPath: string) | Body(text: string)

  function Render(f: Fragment): string {
    match f
    case Preamble => "\n"
    case Separator => "\n"
    case Heading(p) => "# " + p + "\n\n"
    case Body(t) => t + "\n"
  }

  /** `parts.join("")` over rendered fragments. */
  function RenderAll(fs: seq<Fragment>): string
    decreases |fs|
  {
    if fs == [] then "" else RenderAll(fs[..|fs| - 1]) + Render(fs[|fs| - 1])
  }

  /** `parts.join("")` over strings. */
  function Concat(parts: seq<string>): string
    decreases |parts|
  {
    if parts == [] then "" else Concat(parts[..|parts| - 1]) + parts[|parts| - 1]
  }

  /** The normalised text of a document. */
  function Content(d: Document): string {
    NormalizeContent(d.raw)
  }

  /** What the loop decides for one file: its path, whether it is headed, its trimmed text. */
  datatype Block = Block(relPath: string, headed: bool, body: string)

  function ToBlock(d: Document): Block {
    var content := Content(d);
    Block(d.relPath, StartsWithHeading(content), TrimEnd(content))
  }

  function Blocks(ds: seq<Document>): seq<Block>
    decreases |ds|
  {
    if ds == [] then [] else Blocks(ds[..|ds| - 1]) + [ToBlock(ds[|ds| - 1])]
  }

  /** What one loop iteration pushes. */
  function BlockFragments(b: Block): seq<Fragment> {
    [Separator] + (if b.headed then [] else [Heading(b.relPath)]) + [Body(b.body)]
  }

  /** Everything pushed onto `parts` once the loop has visited `bs`. */
  function Fragments(bs: seq<Block>): seq<Fragment>
    decreases |bs|
  {
    if bs == [] then [Preamble] else Fragments(bs[..|bs| - 1]) + BlockFragments(bs[|bs| - 1])
  }

  /** The output string for the sorted, already-read documents. */
  function Assemble(ds: seq<Document>): string {
    if |ds| == 0 then "" else RenderAll(Fragments(Blocks(ds)))
  }

  /**
   * Reference for one file's block, written as plain text: a newline, the
   * synthetic heading only for an unheaded text, then the trimmed text and
   * a newline.
   */
  function BlockText(b: Block): string {
    "\n" + (if b.headed then "" else "# " + b.relPath + "\n\n") + (b.body + "\n")
  }

  /** The blocks of `bs`, first to last. */
  function BlockTexts(bs: seq<Block>): string
    decreases |bs|
  {
    if bs == [] then "" else BlockText(bs[0]) + BlockTexts(bs[1..])
  }

  /** The relative paths that receive a synthetic heading, in output order. */
  function UnheadedPaths(bs: seq<Block>): seq<string>
    decreases |bs|
  {
    if bs == [] then []
    else UnheadedPaths(bs[..|bs| - 1]) + (if bs[|bs| - 1].headed then [] else [bs[|bs| - 1].relPath])
  }

  /** The paths named by the Heading fragments of `fs`, in order. */
  function HeadingPaths(fs: seq<Fragment>): seq<string>
    decreases |fs|
  {
    if fs == [] then []
    else HeadingPaths(fs[..|fs| - 1]) + (if fs[|fs| - 1].Heading? then [fs[|fs| - 1].relPath] else [])
  }

  /** The texts of the Body fragments of `fs`, in order. */
  function Bodies(fs: seq<Fragment>): seq<string>
    decreases |fs|
  {
    if fs == [] then [] else
      Bodies(fs[..|fs| - 1]) + (if fs[|fs| - 1].Body? then [fs[|fs| - 1].text] else [])
  }

  /** How many blocks lack a heading of their own. */
  function CountUnheaded(bs: seq<Block>): nat
    decreases |bs|
  {
    if bs == [] then 0
    else CountUnheaded(bs[..|bs| - 1]) + (if bs[|bs| - 1].headed then 0 else 1)
  }

  /** One block per document, in order, each decided from that document alone. */
  lemma {:induction false} BlocksOf(ds: seq<Document>)
    ensures |Blocks(ds)| == |ds|
    ensures forall i :: 0 <= i < |ds| ==> Blocks(ds)[i] == ToBlock(ds[i])
    decreases |ds|
  {
    if ds != [] {
      var init := ds[..|ds| - 1];
      BlocksOf(init);
      assert forall i :: 0 <= i < |init| ==> ds[i] == init[i];
    }
  }

  /** A block is headed exactly when the normalised text starts with a heading. */
  lemma BlockFacts(d: Document)
    ensures ToBlock(d).headed <==> exists k :: HeadingMarkAt(Content(d), k)
    ensures ToBlock(d).body == TrimEnd(NormalizeContent(d.raw))
    ensures ToBlock(d).relPath == d.relPath
  {
    HeadingIff(Content(d));
  }

  lemma RenderAllSnoc(fs: seq<Fragment>, f: Fragment)
    ensures RenderAll(fs + [f]) == RenderAll(fs) + Render(f)
  {
    assert (fs + [f])[..|fs|] == fs;
  }

  lemma {:induction false} RenderAllAppend(a: seq<Fragment>, b: seq<Fragment>)
    ensures RenderAll(a + b) == RenderAll(a) + RenderAll(b)
    decreases |b|
  {
    if b == [] {
      assert a + b == a;
    } else {
      var b', f := b[..|b| - 1], b[|b| - 1];
      assert (a + b)[..|a + b| - 1] == a + b' && (a + b)[|a + b| - 1] == f;
      RenderAllAppend(a, b');
      Associative(RenderAll(a), RenderAll(b'), Render(f));
    }
  }

  lemma BlockRendersAsText(b: Block)
    ensures RenderAll(BlockFragments(b)) == BlockText(b)
  {
    var body := Body(b.body);
    RenderAllSnoc([], Separator);
    assert [] + [Separator] == [Separator];
    if b.headed {
      assert BlockFragments(b) == [Separator] + [body];
      RenderAllSnoc([Separator], body);
    } else {
      var h := Heading(b.relPath);
      assert BlockFragments(b) == ([Separator] + [h]) + [body];
      RenderAllSnoc([Separator], h);
      RenderAllSnoc([Separator] + [h], body);
    }
  }

  lemma {:induction false} BlockTextsSnoc(bs: seq<Block>, b: Block)
    ensures BlockTexts(bs + [b]) == BlockTexts(bs) + BlockText(b)
    decreases |bs|
  {
    if bs == [] {
      assert [] + [b] == [b];
    } else {
      assert (bs + [b])[1..] == bs[1..] + [b];
      BlockTextsSnoc(bs[1..], b);
    }
  }

  /**
   * The fragments render to the leading newline followed by one block per
   * element, in order, and nothing else.
   */
  lemma {:induction false} FragmentsRender(bs: seq<Block>)
    ensures RenderAll(Fragments(bs)) == "\n" + BlockTexts(bs)
    decreases |bs|
  {
    if bs == [] {
      RenderAllSnoc([], Preamble);
      assert [] + [Preamble] == [Preamble];
    } else {
      var init, last := bs[..|bs| - 1], bs[|bs| - 1];
      assert bs == init + [last];
      var x, y := BlockTexts(init), BlockText(last);
      calc {
        RenderAll(Fragments(bs));
        RenderAll(Fragments(init) + BlockFragments(last));
        { RenderAllAppend(Fragments(init), BlockFragments(last)); }
        RenderAll(Fragments(init)) + RenderAll(BlockFragments(last));
        { FragmentsRender(init); BlockRendersAsText(last); }
        ("\n" + x) + y;
        { Associative("\n", x, y); }
        "\n" + (x + y);
        { BlockTextsSnoc(init, last); }
        "\n" + BlockTexts(bs);
      }
    }
  }

  lemma Associative(x: string, y: string, z: string)
    ensures (x + y) + z == x + (y + z)
  {
  }

  /**
   * The output, stated on the documents: empty for no documents, otherwise
   * "\n" followed by each document's block in order.
   */
  lemma AssembleIsBlocks(ds: seq<Document>)
    ensures Assemble(ds) == if ds == [] then "" else "\n" + BlockTexts(Blocks(ds))
  {
    if ds != [] {
      FragmentsRender(Blocks(ds));
    }
  }

  /** Every block opens and closes with a newline, and so does a run of them. */
  lemma {:induction false} BlockTextsShape(bs: seq<Block>)
    requires bs != []
    ensures |BlockTexts(bs)| >= 2
    ensures BlockTexts(bs)[0] == '\n' && BlockTexts(bs)[|BlockTexts(bs)| - 1] == '\n'
    decreases |bs|
  {
    var t := BlockText(bs[0]);
    assert |t| >= 2 && t[0] == '\n' && t[|t| - 1] == '\n';
    if |bs| > 1 {
      BlockTextsShape(bs[1..]);
    }
  }

  /**
   * The output for at least one document starts with the leading newline and
   * the first separator, and ends with the newline after the last body.
   */
  lemma AssembleShape(ds: seq<Document>)
    requires ds != []
    ensures |Assemble(ds)| >= 3
    ensures Assemble(ds)[..2] == "\n\n" && Assemble(ds)[|Assemble(ds)| - 1] == '\n'
  {
    AssembleIsBlocks(ds);
    BlocksOf(ds);
    BlockTextsShape(Blocks(ds));
  }

  /** A headed file's trimmed text is emitted unchanged, with no heading added. */
  lemma HeadedBlockVerbatim(d: Document)
    requires StartsWithHeading(NormalizeContent(d.raw))
    ensures BlockText(ToBlock(d)) == "\n" + (TrimEnd(NormalizeContent(d.raw)) + "\n")
  {
  }

  /** An unheaded file is introduced by `# <relPath>` and a blank line. */
  lemma UnheadedBlockHeading(d: Document)
    requires !StartsWithHeading(NormalizeContent(d.raw))
    ensures BlockText(ToBlock(d)) == "\n" + ("# " + d.relPath + "\n\n") + (TrimEnd(NormalizeContent(d.raw)) + "\n")
  {
  }

  lemma {:induction false} HeadingPathsAppend(a: seq<Fragment>, b: seq<Fragment>)
    ensures HeadingPaths(a + b) == HeadingPaths(a) + HeadingPaths(b)
    decreases |b|
  {
    if b == [] {
      assert a + b == a;
    } else {
      var b' := b[..|b| - 1];
      assert (a + b)[..|a + b| - 1] == a + b' && (a + b)[|a + b| - 1] == b[|b| - 1];
      HeadingPathsAppend(a, b');
    }
  }

  lemma BlockHeadingPaths(b: Block)
    ensures HeadingPaths(BlockFragments(b)) == if b.headed then [] else [b.relPath]
  {
    var body := Body(b.body);
    assert [] + [Separator] == [Separator];
    if b.headed {
      assert BlockFragments(b) == [Separator] + [body];
      assert ([Separator] + [body])[..1] == [Separator];
    } else {
      var h := Heading(b.relPath);
      assert BlockFragments(b) == ([Separator] + [h]) + [body];
      assert (([Separator] + [h]) + [body])[..2] == [Separator] + [h];
      assert ([Separator] + [h])[..1] == [Separator];
      assert HeadingPaths([Separator]) == [] by {
        assert [Separator][..0] == [];
      }
    }
  }

  /**
   * Synthetic headings go to exactly the unheaded blocks, in order, so
   * there are as many of them as unheaded blocks.
   */
  lemma {:induction false} InjectedHeadings(bs: seq<Block>)
    ensures HeadingPaths(Fragments(bs)) == UnheadedPaths(bs)
    ensures |HeadingPaths(Fragments(bs))| == CountUnheaded(bs)
    decreases |bs|
  {
    if bs != [] {
      var init, last := bs[..|bs| - 1], bs[|bs| - 1];
      InjectedHeadings(init);
      HeadingPathsAppend(Fragments(init), BlockFragments(last));
      BlockHeadingPaths(last);
    } else {
      assert [Preamble][..0] == [];
    }
    UnheadedCount(bs);
  }

  lemma {:induction false} UnheadedCount(bs: seq<Block>)
    ensures |UnheadedPaths(bs)| == CountUnheaded(bs)
    decreases |bs|
  {
    if bs != [] {
      UnheadedCount(bs[..|bs| - 1]);
    }
  }

  lemma {:induction false} BodiesAppend(a: seq<Fragment>, b: seq<Fragment>)
    ensures Bodies(a + b) == Bodies(a) + Bodies(b)
    decreases |b|
  {
    if b == [] {
      assert a + b == a;
    } else {
      var b' := b[..|b| - 1];
      assert (a + b)[..|a + b| - 1] == a + b' && (a + b)[|a + b| - 1] == b[|b| - 1];
      BodiesAppend(a, b');
    }
  }

  lemma BlockBodies(b: Block)
    ensures Bodies(BlockFragments(b)) == [b.body]
  {
    var body := Body(b.body);
    assert [] + [Separator] == [Separator];
    if b.headed {
      assert BlockFragments(b) == [Separator] + [body];
      assert ([Separator] + [body])[..1] == [Separator];
    } else {
      var h := Heading(b.relPath);
      assert BlockFragments(b) == ([Separator] + [h]) + [body];
      assert (([Separator] + [h]) + [body])[..2] == [Separator] + [h];
      assert ([Separator] + [h])[..1] == [Separator];
      assert Bodies([Separator]) == [] by {
        assert [Separator][..0] == [];
      }
    }
  }

  /** One body per block, in order: that block's trimmed text. */
  lemma {:induction false} BodiesInOrder(bs: seq<Block>)
    ensures |Bodies(Fragments(bs))| == |bs|
    ensures forall i :: 0 <= i < |bs| ==> Bodies(Fragments(bs))[i] == bs[i].body
    decreases |bs|
  {
    if bs != [] {
      var init, last := bs[..|bs| - 1], bs[|bs| - 1];
      BodiesInOrder(init);
      BodiesAppend(Fragments(init), BlockFragments(last));
      BlockBodies(last);
      assert forall i :: 0 <= i < |init| ==> bs[i] == init[i];
    } else {
      assert [Preamble][..0] == [];
    }
  }

  /** File contents by path components below the scan root. */
  type FileSystem = map<seq<string>, string>

  /** `fs.readFile` rejects: the file at `path` could not be read. */
  datatype ReadError = ReadFailed(path: seq<string>)

  /** Reads the files in order; the first unreadable one aborts. */
  function ReadAll(files: seq<FileEntry>, fs: FileSystem): Result<seq<Document>, ReadError>
    decreases |files|
  {
    if files == [] then Ok([])
    else
      var f := files[|files| - 1];
      match ReadAll(files[..|files| - 1], fs)
      case Err(e) => Err(e)
      case Ok(ds) => if f.path in fs then Ok(ds + [Document(f.relPath, fs[f.path])]) else Err(ReadFailed(f.path))
  }

  /** The whole of `main` after sorting: the empty case skips every read. */
  function Output(files: seq<FileEntry>, fs: FileSystem): Result<string, ReadError> {
    if |files| == 0 then Ok("")
    else
      match ReadAll(files, fs)
      case Err(e) => Err(e)
      case Ok(ds) => Ok(Assemble(ds))
  }

  /** Once a prefix of the files fails to read, the whole read fails the same way. */
  lemma {:induction false} ReadAllFailsEarly(files: seq<FileEntry>, fs: FileSystem, n: nat)
    requires n <= |files| && ReadAll(files[..n], fs).Err?
    ensures ReadAll(files, fs) == ReadAll(files[..n], fs)
    decreases |files| - n
  {
    if n < |files| {
      var init := files[..|files| - 1];
      assert init[..n] == files[..n];
      ReadAllFailsEarly(init, fs, n);
    } else {
      assert files[..n] == files;
    }
  }

  /** A successful read yields one document per file, with its path and contents. */
  lemma {:induction false} ReadAllDocuments(files: seq<FileEntry>, fs: FileSystem)
    requires ReadAll(files, fs).Ok?
    ensures |ReadAll(files, fs).value| == |files|
    ensures forall i :: 0 <= i < |files| ==>
      files[i].path in fs && ReadAll(files, fs).value[i] == Document(files[i].relPath, fs[files[i].path])
    decreases |files|
  {
    if files != [] {
      var init := files[..|files| - 1];
      ReadAllDocuments(init, fs);
      assert forall i :: 0 <= i < |init| ==> files[i] == init[i];
    }
  }

  /** Reading fails exactly when some file is missing. */
  lemma {:induction false} ReadAllFailsIff(files: seq<FileEntry>, fs: FileSystem)
    ensures ReadAll(files, fs).Err? <==> exists i :: 0 <= i < |files| && files[i].path !in fs
    decreases |files|
  {
    if files != [] {
      var init := files[..|files| - 1];
      ReadAllFailsIff(init, fs);
      if exists i :: 0 <= i < |init| && init[i].path !in fs {
        var i :| 0 <= i < |init| && init[i].path !in fs;
        assert files[i] == init[i];
      }
      if exists i :: 0 <= i < |files| && files[i].path !in fs {
        var i :| 0 <= i < |files| && files[i].path !in fs;
        assert i < |init| ==> init[i] == files[i];
      }
    }
  }

  /** The failure names the first missing file: every file before it is read. */
  lemma FirstFailure(files: seq<FileEntry>, fs: FileSystem, i: nat)
    requires i < |files| && files[i].path !in fs
    requires forall j :: 0 <= j < i ==> files[j].path in fs
    ensures ReadAll(files, fs) == Err(ReadFailed(files[i].path))
  {
    var pre := files[..i];
    ReadAllFailsIff(pre, fs);
    assert files[..i + 1][..i] == pre;
    ReadAllFailsEarly(files, fs, i + 1);
  }

  lemma ConcatSnoc(parts: seq<string>, p: string)
    ensures Concat(parts + [p]) == Concat(parts) + p
  {
    assert (parts + [p])[..|parts|] == parts;
  }

  /** The loop of `main`: read, normalise, push, and join. */
  method AssembleOutput(files: seq<FileEntry>, fs: FileSystem) returns (r: Result<string, ReadError>)
    ensures r == Output(files, fs)
  {
    if |files| == 0 {
      return Ok("");
    }
    var parts: seq<string> := ["\n"];
    ghost var docs: seq<Document> := [];
    assert Concat(parts) == RenderAll(Fragments(Blocks(docs))) by {
      ConcatSnoc([], "\n");
      RenderAllSnoc([], Preamble);
      assert [] + ["\n"] == parts && [] + [Preamble] == [Preamble];
    }
    var i := 0;
    while i < |files|
      invariant 0 <= i <= |files|
      invariant ReadAll(files[..i], fs) == Ok(docs)
      invariant Concat(parts) == RenderAll(Fragments(Blocks(docs)))
    {
      var f := files[i];
      if f.path !in fs {
        ReadFailsAt(files, fs, i, docs);
        return Err(ReadFailed(f.path));
      }
      var raw := fs[f.path];
      ghost var before := parts;
      parts := PushFile(parts, f.relPath, raw);
      LoopStep(files, fs, i, docs, before, parts);
      docs := docs + [Document(f.relPath, raw)];
      i := i + 1;
    }
    Finish(files, fs, docs, parts);
    r := Ok(Concat(parts));
  }

  /** A file missing on the way makes the whole output that read failure. */
  lemma ReadFailsAt(files: seq<FileEntry>, fs: FileSystem, i: nat, docs: seq<Document>)
    requires i < |files| && ReadAll(files[..i], fs) == Ok(docs) && files[i].path !in fs
    ensures Output(files, fs) == Err(ReadFailed(files[i].path))
  {
    ReadNext(files, fs, i, docs);
    ReadAllFailsEarly(files, fs, i + 1);
  }

  /** After the last file, the joined parts are the output. */
  lemma Finish(files: seq<FileEntry>, fs: FileSystem, docs: seq<Document>, parts: seq<string>)
    requires |files| > 0 && ReadAll(files[..|files|], fs) == Ok(docs)
    requires Concat(parts) == RenderAll(Fragments(Blocks(docs)))
    ensures Output(files, fs) == Ok(Concat(parts))
  {
    assert files[..|files|] == files;
    ReadAllDocuments(files, fs);
  }

  /**
   * The body of the loop once a file is read: normalise it, then push the
   * separator, the heading if it needs one, and the trimmed text.
   */
  method PushFile(parts: seq<string>, relPath: string, raw: string) returns (next: seq<string>)
    ensures Concat(next) == Concat(parts) + BlockText(ToBlock(Document(relPath, raw)))
  {
    var content := NormalizeContent(raw);
    next := parts + ["\n"];
    var startsWithHeading := StartsWithHeading(content);
    if !startsWithHeading {
      next := next + ["# " + relPath + "\n\n"];
    }
    next := next + [TrimEnd(content) + "\n"];
    PushedBlock(parts, next, Block(relPath, startsWithHeading, TrimEnd(content)));
  }

  /** One iteration: the next file is read and its block's strings are pushed. */
  lemma LoopStep(files: seq<FileEntry>, fs: FileSystem, i: nat, docs: seq<Document>,
                 before: seq<string>, parts: seq<string>)
    requires i < |files| && files[i].path in fs
    requires ReadAll(files[..i], fs) == Ok(docs)
    requires Concat(before) == RenderAll(Fragments(Blocks(docs)))
    requires Concat(parts) == Concat(before) + BlockText(ToBlock(Document(files[i].relPath, fs[files[i].path])))
    ensures ReadAll(files[..i + 1], fs) == Ok(docs + [Document(files[i].relPath, fs[files[i].path])])
    ensures Concat(parts) == RenderAll(Fragments(Blocks(docs + [Document(files[i].relPath, fs[files[i].path])])))
  {
    var d := Document(files[i].relPath, fs[files[i].path]);
    ReadNext(files, fs, i, docs);
    NextBlock(docs, d, ToBlock(d));
    RenderAllAppend(Fragments(Blocks(docs)), BlockFragments(ToBlock(d)));
    BlockRendersAsText(ToBlock(d));
  }

  /** The strings one iteration pushes join to the rendering of its block. */
  lemma PushedBlock(before: seq<string>, parts: seq<string>, b: Block)
    requires b.headed ==> parts == before + ["\n"] + [b.body + "\n"]
    requires !b.headed ==> parts == before + ["\n"] + ["# " + b.relPath + "\n\n"] + [b.body + "\n"]
    ensures Concat(parts) == Concat(before) + BlockText(b)
  {
    var x := "\n" + (if b.headed then "" else "# " + b.relPath + "\n\n");
    ConcatSnoc(before, "\n");
    if b.headed {
      ConcatSnoc(before + ["\n"], b.body + "\n");
      assert x == "\n";
    } else {
      ConcatSnoc(before + ["\n"], "# " + b.relPath + "\n\n");
      ConcatSnoc(before + ["\n"] + ["# " + b.relPath + "\n\n"], b.body + "\n");
      Associative(Concat(before), "\n", "# " + b.relPath + "\n\n");
    }
    Associative(Concat(before), x, b.body + "\n");
  }

  /** Reading one more file extends the documents read so far, or fails on it. */
  lemma ReadNext(files: seq<FileEntry>, fs: FileSystem, i: nat, docs: seq<Document>)
    requires i < |files| && ReadAll(files[..i], fs) == Ok(docs)
    ensures ReadAll(files[..i + 1], fs)
      == if files[i].path in fs then Ok(docs + [Document(files[i].relPath, fs[files[i].path])])
         else Err(ReadFailed(files[i].path))
  {
    assert files[..i + 1][..i] == files[..i];
  }

  /** The fragments of one more document extend the old ones by its block. */
  lemma NextBlock(docs: seq<Document>, d: Document, b: Block)
    requires b == ToBlock(d)
    ensures Fragments(Blocks(docs + [d])) == Fragments(Blocks(docs)) + BlockFragments(b)
  {
    assert (docs + [d])[..|docs|] == docs;
    var bs := Blocks(docs);
    assert (bs + [b])[..|bs|] == bs;
  }

}
