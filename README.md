# concat-md in Dafny

A model of `concat-md.js`, a command-line script that concatenates every Markdown file under a
directory into one file. The model covers the script's text pipeline:

- **Walking (`Walker`).** The recursive `getMarkdownFiles` walks a directory tree given as a
  datatype. Children are kept in listing order.
  - Directories in the ignore set are skipped.
  - A regular file is kept when its lower-cased `path.extname` is `.md`, `.markdown` or `.mdx`.
  - The walk is a method that pushes entries onto one shared `EntryList` object. It is proved equal
    to a functional walk `MarkdownFiles`, which is in turn characterised by a reference predicate
    `Selected`.
- **Sorting (`Sorter`).** `files.sort` is a stable in-place insertion sort on an `array`. It is
  proved equal to the functional `SortEntries`. That function is proved to be a sorted, stable
  permutation, and to be the only sequence with those properties.
- **Normalising (`Normalizer`).** `normalizeContent` removes one leading U+FEFF and replaces every
  CR LF by LF.
- **Heading test (`Headings`).** The test `/^#\s/` is applied to the text after `trimStart`.
- **Assembling (`Assembler`).** The `main` loop builds the `parts` array with a leading `"\n"`. For
  each file it then adds:
  - a `"\n"` separator;
  - a synthetic heading `# relPath` and a blank line, only when the file has no heading of its own;
  - the file's text with trailing whitespace trimmed, plus `"\n"`.

  With no files, the output is empty. The loop is a method proved equal to a fold over the
  documents. The text of that fold is proved equal to a per-block reference text.
- **Whole run (`Pipeline`).** The whole run takes two inputs: what `fs.stat` finds at the input
  path, and a map from paths to file contents. It produces the output text or the reason it stops.

`Text` holds the JavaScript string primitives the script relies on: `trimStart`, `trimEnd`, `\s`,
lower-casing, and '/'-joined paths. It also holds `LastIndexOf`, which the model uses to find the
last '.' of a name for `path.extname`. `Wrappers` holds `Result` and `Option`.

Some of the script's behaviour is easy to misread:

- **The heading test** accepts any whitespace character after the `#`, not only a space: `#\tx`
  and `#\nx` are headed (`Headings.HeadedExamples`).
- **The sort compares the whole relative path.** So `b.md` sorts before `sub/a.md`, because
  `b` < `s` (`Pipeline.Example`).
- **A CR can survive normalisation**, in two cases:
  - a lone CR is kept (`Normalizer.ReplaceCrlfOccurrences`);
  - `"\r\r\n"` becomes `"\r\n"`, because the replacement is not repeated
    (`Normalizer.ReplaceCrlfNotIdempotent`).
- **Traversal order matters for ties.** Paths that differ only in case tie, and keep their
  discovery order (`Sorter.TiesKeepDiscoveryOrder`). The output therefore depends on the listing
  order only within tie classes (`Sorter.SortIgnoresDiscoveryOrder`).

## Model

| member | source | states |
|---|---|---|
| Text.TrimStartSpec | concat-md.js:89 | `trimStart` removes the longest all-whitespace prefix and nothing else: the removed part is whitespace, and what is left starts with a character that is not. |
| Text.TrimStartAt | concat-md.js:89 | Any cut that has whitespace before it and a non-whitespace character at it is exactly where `trimStart` cuts. |
| Text.TrimEndSpec | concat-md.js:94 | `trimEnd` keeps a prefix of the text; the removed suffix is all whitespace, and the kept text ends in a character that is not whitespace. |
| Text.TrimEndAt | concat-md.js:94 | Any cut with only whitespace after it and a non-whitespace character just before it is exactly where `trimEnd` cuts. |
| Text.LastIndexOf | concat-md.js:24 | The result is the index of the last occurrence of the character, or -1 when it does not occur; no later index holds it. |
| Text.SplitJoinPath | concat-md.js:27 | Splitting a '/'-joined relative path at '/' gives back its components, so `relPath` determines the path below the root. |
| Normalizer.StripBomRemovesOne | concat-md.js:38 | Only one leading U+FEFF is removed, however many follow it. |
| Normalizer.StripBomKeepsUnmarked | concat-md.js:38 | A text that does not start with U+FEFF is unchanged by the anchored replacement. |
| Normalizer.ReplaceCrlfIsDropCr | concat-md.js:38 | The global left-to-right CR LF replacement equals the independent rule "drop every CR whose next character is LF". |
| Normalizer.ReplaceCrlfLength | concat-md.js:38 | The output is shorter than the input by exactly the number of CR LF pairs. |
| Normalizer.ReplaceCrlfOccurrences | concat-md.js:38 | Every character other than CR, LF included, occurs as often after the replacement as before; CR occurs that often minus the number of pairs, so a lone CR is kept. |
| Normalizer.ReplaceCrlfFixedIff | concat-md.js:38 | The replacement leaves a text unchanged exactly when it holds no CR LF pair. |
| Normalizer.ReplaceCrlfNotIdempotent | concat-md.js:38 | `"\r\r\n"` becomes `"\r\n"` and, replaced again, `"\n"`: one pass can leave a CR LF pair behind. |
| Normalizer.NormalizeContentSpec | concat-md.js:35-39 | Empty input gives `""`. Otherwise the result is the text, minus one leading U+FEFF, with every CR that precedes an LF dropped. |
| Normalizer.NormalizeBomThenCrlf | concat-md.js:38 | Examples: two leading marks leave one; a CR LF right after the mark is still replaced; a mark inside the text is kept. |
| Normalizer.NormalizeKeepsLaterBoms | concat-md.js:37-38 | The number of U+FEFF characters drops by one when the text starts with one, and otherwise stays the same. |
| Headings.HeadingIff | concat-md.js:89 | A text is headed exactly when some index has only whitespace before it, a '#' at it and a whitespace character just after it. |
| Headings.HeadedAt | concat-md.js:89 | Such a mark at any index makes the text headed. |
| Headings.UnheadedAt | concat-md.js:89 | An empty text, or one that starts with a character other than whitespace and not with `#` plus whitespace, is not headed. |
| Headings.HeadedExamples | concat-md.js:89 | `"  #\tx"`, `"#\nx"` and `"\n\n# Title"` are headed. |
| Headings.UnheadedExamples | concat-md.js:89 | `"## x"`, `"#x"`, `"#"`, `""` and `"text # x"` are not headed. |
| Walker.Extname | concat-md.js:24 | The extension is empty, or it starts at the last '.', which is not the name's first character, and runs to the end of the name. |
| Walker.ExtnameFound | concat-md.js:24 | A name has an extension exactly when its last '.' is past the first character and the name is not `..`; the extension is then the name from that '.' to the end. |
| Walker.MarkdownNameIff | concat-md.js:13-25 | A name is accepted exactly when some '.' past the first character has no '.' after it and lower-cases, with the rest of the name, to `.md`, `.markdown` or `.mdx`. |
| Walker.AcceptsUpperCase | concat-md.js:24-25 | `README.MD` is accepted. |
| Walker.AcceptsMixedCase | concat-md.js:24-25 | `page.Mdx` is accepted. |
| Walker.AcceptsDoubleDot | concat-md.js:24-25 | `..md` is accepted: its last '.' is not its first character. |
| Walker.RejectedNameExamples | concat-md.js:24-25 | `.md`, `md` and `notes.md.bak` are rejected. |
| Walker.WalkListAppend | concat-md.js:18-31 | The walk is depth-first in listing order: the entries for two runs of children are those of the first run followed by those of the second. |
| Walker.WalkListSnoc | concat-md.js:18-31 | One more entry at the end of a listing adds its own entries at the end of the walk. |
| Walker.WalkNodeIff | concat-md.js:20-29 | An entry comes from a node exactly when the node selects its path and its `relPath` is that path joined by '/'. |
| Walker.WalkListIff | concat-md.js:18-31 | The same for a directory's children, through `Selected`. |
| Walker.SelectedFacts | concat-md.js:20-25 | A selected path ends in an accepted file name, and no directory on the way below the root is in the ignore set. |
| Walker.EntrySelected | concat-md.js:16-33 | Every entry returned is selected, and its `relPath` is its components joined by '/'. |
| Walker.EntryFacts | concat-md.js:13-25 | Every entry returned has an accepted extension, and no ignored directory strictly between the root and the file. |
| Walker.SelectedFound | concat-md.js:16-33 | Conversely, every selected path is returned, with its joined `relPath`. |
| Walker.EntryList.constructor | concat-md.js:16 | The shared list starts empty. |
| Walker.EntryList.Push | concat-md.js:28 | `push` appends one entry, at the end. |
| Walker.Descend | concat-md.js:16-33 | The recursive walk appends to the shared list exactly the entries of the functional walk, in order. |
| Walker.GetMarkdownFiles | concat-md.js:16-33 | The walk started at the root returns `MarkdownFiles(root)`; the root's own name is never tested. |
| Sorter.LeTotalPreorder | concat-md.js:68 | The comparator is reflexive, total and transitive, and two entries tie exactly when their case-folded paths are equal. |
| Sorter.CaseFoldedTie | concat-md.js:68 | `A.md` and `a.md` compare equal. |
| Sorter.TiesKeepDiscoveryOrder | concat-md.js:68 | Two entries that tie, for example `A.md` and `a.md` (`Sorter.CaseFoldedTie`), sorted on their own, come out in the order they went in, whichever order that is. The general fact for any input is `Sorter.SortStable`. |
| Sorter.TieOnTop | concat-md.js:68 | Two entries that are already in the comparator's order are left as they are. |
| Sorter.InsertPermutation | concat-md.js:68 | One insertion step adds exactly the inserted entry. |
| Sorter.InsertSorted | concat-md.js:68 | Inserting into a sorted sequence keeps it sorted. |
| Sorter.InsertStable | concat-md.js:68 | Inserting keeps the order within each tie class, with the new entry last in its class. |
| Sorter.SortPermutation | concat-md.js:68 | The sort returns a permutation of its input. |
| Sorter.SortSorted | concat-md.js:68 | The sort's output is ordered by the comparator. |
| Sorter.SortStable | concat-md.js:68 | Entries that compare equal keep their discovery order. |
| Sorter.WithKeyMembers | concat-md.js:68 | An entry is in a tie class exactly when it is in the sequence and has that key. |
| Sorter.SortedUnique | concat-md.js:68 | Two sorted sequences with the same tie classes, in the same order, are equal. |
| Sorter.AnyStableSortAgrees | concat-md.js:68 | Any sorted, stable rearrangement of the input is the sort's output, so the insertion sort stands for the engine's stable sort. |
| Sorter.SortIgnoresDiscoveryOrder | concat-md.js:68 | Inputs with the same tie classes in the same order sort to the same output, whatever the order between classes. |
| Sorter.SortInPlace | concat-md.js:68 | Sorting the array in place leaves `SortEntries` of its old contents. |
| Sorter.InsertAt | concat-md.js:68 | One pass inserts `a[i]` into the sorted prefix `a[..i]` and leaves the rest of the array alone. |
| Assembler.BlocksOf | concat-md.js:80-95 | There is one block per document, in order, and block `i` is built from document `i`. |
| Assembler.BlockFacts | concat-md.js:82-94 | A block is headed exactly when its normalised text has a heading mark; its body is the normalised text with trailing whitespace trimmed; it keeps the document's `relPath`. |
| Assembler.BlockRendersAsText | concat-md.js:86-94 | The parts one file contributes join to the reference block: `"\n"`, the synthetic heading only when unheaded, then the body and `"\n"`. |
| Assembler.FragmentsRender | concat-md.js:76-95 | The joined parts are `"\n"` followed by each block's reference text, in order. |
| Assembler.AssembleIsBlocks | concat-md.js:70-95 | The output is `""` for no documents, and otherwise `"\n"` followed by the blocks in order. Nothing else is emitted. |
| Assembler.BlockTextsShape | concat-md.js:86-94 | A non-empty run of blocks starts and ends with a newline. |
| Assembler.AssembleShape | concat-md.js:78-94 | The output for at least one document starts with `"\n\n"` and ends with `"\n"`. |
| Assembler.HeadedBlockVerbatim | concat-md.js:89-94 | A headed file's trimmed text follows its separator unchanged, with no heading added. |
| Assembler.UnheadedBlockHeading | concat-md.js:89-94 | An unheaded file's block is the separator, `# relPath` and a blank line, then its trimmed text and `"\n"`. |
| Assembler.InjectedHeadings | concat-md.js:89-92 | The synthetic headings are exactly the unheaded files' paths, in output order, and there are as many as there are unheaded files. |
| Assembler.UnheadedCount | concat-md.js:89-92 | The number of unheaded paths equals the number of unheaded blocks. |
| Assembler.BodiesInOrder | concat-md.js:94 | The bodies emitted are the blocks' trimmed texts, one per file, in order. |
| Assembler.ReadAllFailsEarly | concat-md.js:80-81 | Once a read fails, the later files do not matter. |
| Assembler.ReadAllDocuments | concat-md.js:80-81 | A successful read gives one document per file, carrying its `relPath` and its contents. |
| Assembler.ReadAllFailsIff | concat-md.js:81 | Reading fails exactly when some file has no contents. |
| Assembler.FirstFailure | concat-md.js:81 | The failure names the first file without contents. |
| Assembler.PushFile | concat-md.js:82-94 | The parts one file pushes join to its reference block text. |
| Assembler.AssembleOutput | concat-md.js:70-95 | The loop returns `Ok("")` for no files, the error of the first unreadable file, or `Ok` of the assembled text. |
| Pipeline.Run | concat-md.js:53-95 | The run stops with "cannot access" when `fs.stat` finds nothing, and with "not a directory" when it finds something else. Otherwise it walks, sorts in place and assembles, with the first read failure as its error. |
| Pipeline.NoFilesEmptyOutput | concat-md.js:70-74 | With no Markdown files the output is `""`, whatever the file contents. |
| Pipeline.FailsIffMissing | concat-md.js:80-81 | The run fails after the walk exactly when some discovered file has no contents. |
| Pipeline.FailureIsFirstMissing | concat-md.js:68-81 | The error names the first file, in sorted order, without contents. |
| Pipeline.OutputShape | concat-md.js:76-95 | A successful run with at least one file produces text that starts with `"\n\n"` and ends with `"\n"`. |
| Pipeline.Example | concat-md.js:16-95 | Example: for `docs/b.md` = `"x"` and `docs/sub/a.md` = `"# A\r\n"` the output is `"\n\n# b.md\n\nx\n\n# A\n"`. `b.md` comes first and gets a heading; `sub/a.md` keeps its own, loses its CR and loses its trailing newline. |

## Left out

- File-system I/O is not modelled. `fs.readdir` becomes the `Node` tree, and `fs.stat` becomes an
  `Option<Node>` input. `fs.readFile` becomes a map from path components to text, and a missing key
  is a read failure. `fs.mkdir` and `fs.writeFile` are replaced by the returned text.
- Errors from `readdir` during the walk are not modelled: every tree can be listed.
- The command line is not modelled: `process.argv` and the usage check, `path.resolve`, `console`
  output, exit codes and the top-level `catch`. The three reasons the run stops are modelled as
  `Failure` values.
- `async`/`await` is modelled as sequential code: nothing in the script runs concurrently.
- The commented-out parts pushes in the source are not code, and so are not modelled.
- Sorter.Key: `localeCompare` with `sensitivity: "base"` uses the ICU collation of the host locale.
  The model compares ASCII-lower-cased paths by code point instead. Accents and non-ASCII case are
  not folded, and punctuation is not weighted as a collation would weight it.
- Sorter.SortInPlace: the engine's own sort (TimSort in V8) is replaced by a stable insertion sort.
  `Sorter.AnyStableSortAgrees` shows that every stable sort under the same comparator gives the
  same result.
- Text.Lower: `toLowerCase` is modelled on ASCII letters only.
- Text.Whitespace: the set is ECMAScript's WhiteSpace and LineTerminator characters. Any other
  Unicode space separator that a newer Unicode version adds is not included.
- Strings are sequences of code points. JavaScript's UTF-16 code units (surrogate pairs) and the
  UTF-8 decoding of `readFile` are not modelled.
- Walker.Extname: file names are single path components with no '/'. `path.sep` and Windows paths
  are not modelled, so `relPath` is the components of the path below the root joined by '/'.
- A symbolic link reported by `readdir` is neither a file nor a directory. Such links are `Other`
  nodes and are dropped; following links is not modelled.
- Normalizer.NormalizeContent: only the empty string stands for a falsy input. `undefined` and
  `null` cannot reach it, since `readFile` with an encoding always returns a string.
