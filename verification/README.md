# epub2audio in Dafny

epub2audio turns an EPUB book into one MP3 file per chapter by feeding the
chapters' text to a speech synthesizer. This project models the part of it
that decides *what* is said and *where* it goes:

- **Opening the book** (`Epub`): the `mimetype` check, the container's first
  root file, and the package document's title, creator, manifest and spine.
  It also covers resolving the spine against the manifest, error by error.
- **Preprocessing a chapter** (`Chunker`, `TextFilters`):
  - the tree visit that produces enter / text / exit events;
  - the chunking visitor that cuts the text at breaking elements and speaks
    images through their `alt` text;
  - the eleven regular-expression rules of the text normaliser, with
    `str.strip()` and `str.lower()` around them.
- **Asking for help** (`ErrorHandlers`): the skip, edit and ask handlers that
  decide what happens to text the synthesizer rejects.
- **Converting** (`Converter`):
  - which spine entries are chapters;
  - the book directory name;
  - the retry loop around the synthesizer;
  - which chunk files a chapter is assembled from, with silence between them;
  - the chapter file name and the ID3 track, title, artist and album tags.
- **Shared pieces** (`Common`, `Strings`, `Paths`, `Markup`, `Wrappers`):
  `first` and `intersperse`, decimal formatting, the POSIX `pathlib`
  operations the code relies on, and an `lxml`-like element tree with the
  two XPath shapes used (`//t` and `//p/t`).

The outside world is passed in as values:

- The zip archive is a map from entry names to parsed documents, plus the
  `mimetype` bytes.
- The synthesizer is a predicate `synth: string -> bool`: does synthesizing
  this text succeed?
- The console is the list of lines `input()` would return.
- The editor is the list of outcomes of the editor runs still to come.
- The temporary directory's name is the parameter `tempName`. Each chapter
  gets a fresh `TemporaryDirectory` with the prefix `.epub2audio-tmp-` and a
  random suffix; `tempName` stands for that whole name, and every chapter of
  the model uses the same one.

Behaviours of the code that the model reproduces:

- The normaliser strips the text *before* applying its rules, not after.
  So its output can begin or end with a space, and it is not idempotent:
  `"&"` becomes `" and "`, which becomes `"and"` (`FilterTextNotIdempotent`).
- The single-quote rule's look-behind class is written `[a-zA-Z0-0]`. An
  apostrophe after the digits 1-9 is therefore removed (`ApostropheAfterDigit`).
- Text after the last breaking element of a body is never handed to the
  sink, so it is dropped (`TrailingTextIsDropped`).
- The `item` and `itemref` queries search the whole package document, not
  only inside the `manifest` and `spine` elements.

## Model

| member | source | states |
|---|---|---|
| Common.First | epub2audio/common.py:8-9 | `first` is None exactly on an empty sequence, and otherwise the first element |
| Common.IntersperseShape | epub2audio/common.py:15-27 | `intersperse` puts the separator between consecutive items: length 2n-1, items at even positions in order, separators at odd ones, first and last item kept, exactly n-1 extra separators |
| Strings.ZeroPadRoundTrip | epub2audio/converter.py:98 | A zero-padded decimal (`{n:06}`) reads back as the number it was written from |
| Strings.ParseDecimalOfDecimal | epub2audio/converter.py:158 | A number written in decimal reads back as itself |
| Paths.NormalizeIdempotent | epub2audio/epub.py:121 | `str(Path(p))` is already normal, keeps p's anchor and components, and is absolute exactly when p is |
| Paths.ParentComponents | epub2audio/epub.py:122 | `Path.parent` removes exactly the last component, keeps the anchor, and yields a normal path |
| Paths.JoinPathComponents | epub2audio/converter.py:52-55 | Joining a relative name to a directory appends its components and keeps the directory's anchor |
| Markup.FindAll | epub2audio/epub.py:146-148 | `//tag` returns exactly the elements with that tag, in document order, as a subsequence of the document, each as often as it occurs there |
| Markup.FindChildrenOf | epub2audio/epub.py:110-115 | `//parent/tag` returns exactly the `tag` elements whose parent is a `parent` element, in document order, each as often as it occurs in the document under such a parent |
| Epub.VerifyMimetype | epub2audio/epub.py:124-127 | The book passes exactly when the `mimetype` entry holds `application/epub+zip`; a missing entry and other contents give different errors |
| Epub.ReadContainer | epub2audio/epub.py:107-122 | A missing container entry, a missing root file and a missing `full-path` are errors; otherwise the first root file's path and its parent directory are returned |
| Epub.RootDirIsParentOfRootFile | epub2audio/epub.py:121-122 | The root directory's components are the root file's components without the last one |
| Epub.ItemProblem | epub2audio/epub.py:72-80 | An item is accepted exactly when it has `id`, `href` and `media-type`; the first missing one, in that order, is the one reported |
| Epub.ParseManifest | epub2audio/epub.py:67-87 | The manifest parses exactly when every item is well formed, and its keys are exactly the items' ids |
| Epub.ManifestReportsFirstProblem | epub2audio/epub.py:69-80 | A failed manifest reports the problem of the first malformed item, and every item before it is well formed |
| Epub.ManifestKeepsLastItem | epub2audio/epub.py:82-86 | Each id maps to the item built from the last manifest entry that carries that id |
| Epub.DuplicateIdKeepsLast | epub2audio/epub.py:82-86 | With two items sharing an id, the second one wins |
| Epub.ParseLinear | epub2audio/epub.py:97-103 | `linear` is true when absent, `true` or `yes`; false for `false` or `no`; anything else is an error |
| Epub.LinearIsCaseSensitive | epub2audio/epub.py:98-103 | `True`, `YES` and the empty string are rejected, and no attribute means linear |
| Epub.ItemRefOf | epub2audio/epub.py:94-104 | An `itemref` without `idref` is an error; otherwise it yields its `idref` and parsed `linear` flag, or the `linear` error |
| Epub.ParseSpine | epub2audio/epub.py:89-105 | The spine parses exactly when every `itemref` does, keeps their order and count, and on failure reports the first failing `itemref`'s error |
| Epub.FirstText | epub2audio/epub.py:132-145 | The title or creator is the first match's text, and None when nothing matches or it has no text |
| Epub.ParsePackageDocument | epub2audio/epub.py:129-163 | No manifest and no spine are distinct errors, in that order; the document parses exactly when both exist and manifest and spine parse; a manifest or spine error is passed on as the document's error; the parsed document holds the parsed manifest and spine, and title and creator come from the first `dc:title` and `dc:creator` under `metadata` |
| Epub.Open | epub2audio/epub.py:61-65 | Opening checks the mimetype, then the container, then the package document; each error is the first failing stage's, a package document missing from the archive is a missing-entry error, and an opened book holds the archive, the root file's path and directory, and the parsed package document |
| Epub.Walk | epub2audio/epub.py:165-170 | Iterating the spine yields resolved entries in order until the first `idref` missing from the manifest, and then raises for that `idref` |
| Epub.WalkSpine | epub2audio/epub.py:165-170 | The same, for a package document's own spine and manifest |
| Epub.Spine | epub2audio/epub.py:165-170 | Collecting the spine succeeds exactly when every `idref` is in the manifest, giving every entry resolved in order; otherwise it fails on the first missing one |
| TextFilters.Strip | epub2audio/preprocess.py:162 | `str.strip()` yields a slice of the input cut only through whitespace, and it neither starts nor ends with whitespace |
| TextFilters.FilterText | epub2audio/preprocess.py:161-165 | `_filter_text`: strip, the eleven rules in order, then lower-case; its output has no upper-case ASCII letter. Its full behaviour is stated by `FilterTextOutput`, `PlainTextIsFixed` and `FilterTextNotIdempotent` |
| TextFilters.ExpandAbbreviation | epub2audio/preprocess.py:16-17 | Rules 1 and 2: the output holds only characters of the input and of the expansion; what it produces is stated by `AbbreviationAtWordStartExpands`, `AbbreviationInsideWordKept`, `WordKept` and `ExpandAbbreviationWithoutDot` |
| TextFilters.ReplaceChar | epub2audio/preprocess.py:19-21 | Rules 3 and 4: the output holds only characters of the input and of the replacement, and none of the replaced character; `ReplaceCharSplits`, `ReplaceCharAppend` and `ReplaceCharAbsent` state what it produces |
| TextFilters.RemoveUnflanked | epub2audio/preprocess.py:27-29 | Rules 7 and 8: the output holds only characters of the input, and a first character other than the target is kept; `RemoveUnflankedKeepsOthers`, `HyphenRuleFlanks` and `RemoveUnflankedKeepsFlanked` state what it removes and keeps |
| TextFilters.CollapseRuns | epub2audio/preprocess.py:23-25 | Rules 5, 6 and 10: members of the class in the output are the replacement, no two are adjacent, and nothing else is inserted; `CollapseRunsSplits` and `CollapseRunsOfRun` place the replacement where its run stood, and `CollapseRunsCountsRuns` counts one per run |
| TextFilters.CollapseRunsAppend | epub2audio/preprocess.py:23-25 | Collapsing text made of two pieces collapses each piece, the second knowing only whether the first ended inside a run |
| TextFilters.CollapseRunsSplits | epub2audio/preprocess.py:23-25 | A character outside the class stays in place, with the text on either side collapsed separately |
| TextFilters.CollapseRunsOfRun | epub2audio/preprocess.py:23-25 | A run on its own becomes exactly one replacement character, or nothing when it continues a run |
| TextFilters.CollapseRunsCountsRuns | epub2audio/preprocess.py:23-25 | The replacement character occurs once for every maximal run of class members, and no more often |
| TextFilters.PunctuationRunBecomesPeriod | epub2audio/preprocess.py:23 | `!?` between two letters becomes a single period |
| TextFilters.AbbreviationAtWordStartExpands | epub2audio/preprocess.py:16-17 | At a word start, the two letters in either case, a period and whitespace become the expansion, and the whitespace is kept |
| TextFilters.AbbreviationInsideWordKept | epub2audio/preprocess.py:16-17 | After a word character nothing is expanded |
| TextFilters.WordKept | epub2audio/preprocess.py:16-17 | A word that follows a word character, or does not begin with the abbreviation's first letter, is copied unchanged |
| TextFilters.CapitalisedChapterExpands | epub2audio/preprocess.py:16 | `Ch. 2` becomes `chapter 2` |
| TextFilters.ChapterInsideWordKept | epub2audio/preprocess.py:16 | `such. x` is left alone |
| TextFilters.ChapterWithoutSpaceKept | epub2audio/preprocess.py:16 | `ch.2`, without whitespace after the period, is left alone |
| TextFilters.ExpandAbbreviationWithoutDot | epub2audio/preprocess.py:16-17 | Text without a period is left alone by the abbreviation rules |
| TextFilters.ReplaceCharAbsent | epub2audio/preprocess.py:19-21 | Text without the character is left alone by its replacement rule |
| TextFilters.ReplaceCharAppend | epub2audio/preprocess.py:19-21 | The `&` and `%` rules work character by character, so they distribute over concatenation |
| TextFilters.ReplaceCharSplits | epub2audio/preprocess.py:19-21 | Each occurrence of the character becomes exactly the replacement text, the text around it being replaced independently |
| TextFilters.CollapseRunsKeepsOthers | epub2audio/preprocess.py:23-25 | Collapsing runs leaves every character outside the class in place and in order |
| TextFilters.RemoveUnflankedKeepsOthers | epub2audio/preprocess.py:27-29 | The hyphen and quote rules delete only the target character |
| TextFilters.RemoveUnflankedAppend | epub2audio/preprocess.py:27-29 | After a piece that does not end in the target, the rest is handled knowing only whether that piece's last character is in the look-behind class |
| TextFilters.RemoveUnflankedKeepsFlanked | epub2audio/preprocess.py:27-29 | A target with a look-behind character before it and a look-ahead character after it is kept, and the text on either side is handled separately |
| TextFilters.HyphenInWordKept | epub2audio/preprocess.py:27 | `a-b` keeps its hyphen |
| TextFilters.HyphenRuleFlanks | epub2audio/preprocess.py:27 | After the hyphen rule, every remaining hyphen stands between two ASCII letters or digits |
| TextFilters.RemoveBrackets | epub2audio/preprocess.py:31 | The bracket rule leaves none of `()[]{}"“”‘’*~_` and inserts nothing |
| TextFilters.BlankToEmpty | epub2audio/preprocess.py:35 | A string of whitespace becomes empty, and any other string is unchanged |
| TextFilters.NoAmpersandOrPercent | epub2audio/preprocess.py:19-21 | No `&` and no `%` survive the two replacement rules |
| TextFilters.FilterTextOutput | epub2audio/preprocess.py:14-36 | Normalised text has no `&`, `%`, `!?:;…`, brackets or quotes, no two adjacent whitespace characters, no hyphen outside a word, and no upper-case ASCII letter |
| TextFilters.PlainTextIsFixed | epub2audio/preprocess.py:161-165 | Lower-case words separated by single spaces come out of the normaliser unchanged |
| TextFilters.FilterTextNotIdempotent | epub2audio/preprocess.py:161-165 | Stripping before the rules makes normalising twice differ from normalising once |
| TextFilters.ApostropheAfterDigit | epub2audio/preprocess.py:29 | An apostrophe after `1` is removed, while after `0` or a letter it is kept |
| TextFilters.SmartQuotesRemoved | epub2audio/preprocess.py:31 | A typographic apostrophe is deleted by the bracket rule, not kept as part of the word |
| Chunker.GetChildren | epub2audio/preprocess.py:57-64 | Every element node among the children is one of the element's own children |
| Chunker.VisitIsDocumentOrder | epub2audio/preprocess.py:57-85 | The visit reports enter, the text, each child's events followed by its tail, then exit: document order |
| Chunker.VisitNodesAppend | epub2audio/preprocess.py:83-84 | Visiting two runs of children one after the other is visiting them together |
| Chunker.ImageText | epub2audio/preprocess.py:102-107 | An image is spoken as its non-empty `alt` text, and otherwise as a fixed phrase; never empty |
| Chunker.MaybeEmitFlushes | epub2audio/preprocess.py:115-119 | A breaking tag empties the accumulator and hands the sink the accumulator when it is non-empty; any other tag changes nothing |
| Chunker.Step | epub2audio/preprocess.py:98-119 | One `ChunkingVisitor` callback: chunks already handed to the sink stay, and no empty chunk is added; `StepConserves`, `StepBoundaries` and `ImageIsOwnChunk` state what it adds |
| Chunker.Run | epub2audio/preprocess.py:112-119 | The visitor over a whole event stream: chunks already handed to the sink stay; `RunConserves` and `RunSinksNoEmpty` state what it adds |
| Chunker.StepConserves | epub2audio/preprocess.py:98-119 | One event loses no text: emitted chunks plus the accumulator grow by exactly that event's text |
| Chunker.StepBoundaries | epub2audio/preprocess.py:98-119 | Breaking tags start a new chunk on entry and on exit; other tags and text only append |
| Chunker.StepSinksNoEmpty | epub2audio/preprocess.py:116-119 | The sink never receives an empty chunk, and chunks already emitted are kept |
| Chunker.RunConserves | epub2audio/preprocess.py:112-119 | Over any event stream, the emitted chunks plus what is left in the accumulator are all the text, in order |
| Chunker.RunSinksNoEmpty | epub2audio/preprocess.py:116-119 | Over any event stream, only non-empty chunks are emitted, and earlier ones are never changed |
| Chunker.ImageIsOwnChunk | epub2audio/preprocess.py:98-110 | An image closes the pending chunk and becomes a chunk of its own |
| Chunker.RawChunks | epub2audio/preprocess.py:149-154 | The chunks the visitor hands to the sink for a body, none of them empty; `RawChunksDropTrailingText` relates them to the body's text |
| Chunker.RawChunksDropTrailingText | epub2audio/preprocess.py:154 | The body's chunks plus the text left after the last break are exactly its text in document order |
| Chunker.TrailingTextIsDropped | epub2audio/preprocess.py:154 | Tail text after the last breaking element is not emitted |
| Chunker.NormalizedChunks | epub2audio/preprocess.py:149-152 | The kept chunks are the non-empty normalised chunks, in order, each as often as it occurs among them |
| Chunker.Process | epub2audio/preprocess.py:135-159 | Processing fails exactly when there is no `body`; the chunks are the first body's normalised non-empty chunks, and the title is the first `title` element's raw text |
| ErrorHandlers.SkipHandle | epub2audio/error.py:21-24 | The skip handler always skips and consumes nothing |
| ErrorHandlers.EditHandle | epub2audio/error.py:27-37 | The edit handler fails exactly when the editor fails; otherwise it returns the saved text, or the original text when the file is left alone |
| ErrorHandlers.EditNeverSkips | epub2audio/error.py:31-37 | The edit handler never answers "skip" |
| ErrorHandlers.AskHandleChoice | epub2audio/error.py:40-47 | The ask handler consumes the lines up to the first `s` or `e` in either case, and skips or edits accordingly; without such a line it raises `EOFError` |
| ErrorHandlers.AskRepromptsUntilSkip | epub2audio/error.py:43-45 | `skip`, an empty line and ` s` are asked again, and `S` skips |
| ErrorHandlers.AskRepromptsUntilEdit | epub2audio/error.py:43-47 | `edit` is asked again and `E` edits |
| ErrorHandlers.AskWithoutChoiceRaises | epub2audio/error.py:42-43 | A console that closes before an accepted answer raises |
| ErrorHandlers.AskHandleShrinks | epub2audio/error.py:42-47 | Every answer of the ask handler uses up at least one console line |
| ErrorHandlers.Handle | epub2audio/converter.py:139 | The configured handler answers with its own behaviour; an answer never adds interaction, and an answer with replacement text always uses some up, so the retry loop cannot go on forever |
| Converter.SanitizeDirName | epub2audio/converter.py:19 | Only ASCII letters, digits, `'`, `"`, `-`, `_` and space remain; every such character is kept, in order, as often as it occurs |
| Converter.SanitizeDirNameFixedPoints | epub2audio/converter.py:19 | A name is unchanged exactly when all its characters are allowed; sanitising is idempotent and works piece by piece |
| Converter.BookDirectoryName | epub2audio/converter.py:178-185 | `_book_directory_name`: only allowed directory-name characters; `BookDirectoryNameSource` says where the name comes from |
| Converter.BookDirectoryNameSource | epub2audio/converter.py:178-185 | The directory is named after the title when there is one, and after the input file's stem otherwise |
| Common.FilterCounts | epub2audio/converter.py:57 | A list comprehension with a condition keeps every element that passes as often as it occurs and drops the others |
| Converter.Chapters | epub2audio/converter.py:57 | The chapters are exactly the spine entries that are chapters, in spine order, each as often as it occurs in the spine |
| Converter.IsChapter | epub2audio/converter.py:188-193 | `_is_chapter`, whose cases `IsChapterCases` states |
| Converter.IsChapterCases | epub2audio/converter.py:188-193 | Non-linear entries and the navigation document are never chapters; any other linear entry is a chapter exactly when it is XHTML, whatever its other `properties` |
| Converter.FileNamesRoundTrip | epub2audio/converter.py:98 | A chunk file name and a chapter file name read back as their number, with six and four digits while the number fits |
| Converter.ChapterFileNamesDiffer | epub2audio/converter.py:120 | Different chapter numbers give different file names |
| Converter.ChapterPathsDiffer | epub2audio/converter.py:120 | Different chapters of a book are written to different paths |
| Converter.TrackText | epub2audio/converter.py:155-159 | The `TRCK` frame text: at least three characters, all digits except the `/`; `TrackTextRoundTrip` says it reads back as the chapter number and count |
| Converter.TrackTextRoundTrip | epub2audio/converter.py:155-159 | The track frame contains exactly one `/`, with the chapter number before it and the chapter count after it |
| Converter.Synthesize | epub2audio/converter.py:131-143 | Text the synthesizer accepts succeeds at once without consulting the handler, and retrying never adds interaction |
| Converter.SynthesizeWithSkip | epub2audio/converter.py:131-143 | With the skip handler a chunk succeeds exactly when the synthesizer accepts its text |
| Converter.SynthesizeLoop | epub2audio/converter.py:131-143 | The retry loop tries the text and then each replacement in turn; it stops at the first accepted text, at a skip, or at the handler's error |
| Converter.SynthesizeChunks | epub2audio/converter.py:93-102 | The chunk loop of `_convert_chapter`: one outcome per chunk, or the first handler error; `SynthesizeEach`, `SynthesizeChunksWithSkip` and `SuccessNumbersAreSuccessList` state its behaviour |
| Converter.SynthesizeChunksWithSkip | epub2audio/converter.py:93-102 | With the skip handler every chunk is attempted, and each one succeeds exactly when the synthesizer accepts it |
| Converter.SuccessNumbersAreSuccessList | epub2audio/converter.py:93-102 | The numbers collected are increasing, and are exactly the numbers of the chunks that succeeded |
| Converter.SynthesizeEach | epub2audio/converter.py:92-102 | Synthesizing a chapter's chunks fails exactly when a handler fails, with that error, and otherwise collects the numbers of the successful chunks |
| Converter.SegmentsShape | epub2audio/converter.py:110-118 | The first chunk file followed by the interspersed list without its head is the interspersed list: files alternate with silence, first and last are files, and there are n-1 silences |
| Converter.ChapterOutput | epub2audio/converter.py:104-118 | No file is written when no chunk succeeded; otherwise the file joins the chunk files with silence between them |
| Converter.SuccessListEmpty | epub2audio/converter.py:104-106 | No chunk file is collected exactly when no chunk succeeded |
| Converter.ChapterConversion | epub2audio/converter.py:71-129 | A chapter without a body fails, and a handler failure passes through. Otherwise the numbers of the successful chunks are recorded, and a file is written exactly when some chunk succeeded. The file goes to the chapter's path, joins the chunk files with silence, and carries the chapter's track, the document title, the book's creator and the book's title |
| Converter.ConvertChapter | epub2audio/converter.py:71-129 | Converting a chapter step by step gives exactly its `ChapterConversion`, with the same errors, file, chunk numbers and tags |
| Converter.EntryConversion | epub2audio/converter.py:61-69 | A chapter whose document is missing from the archive is an error; otherwise it is that document's conversion with the book's title and creator, and a file written is placed and tagged as that chapter |
| Converter.FilesOfNumbers | epub2audio/converter.py:59-69 | The files written pair up with increasing chapter numbers: the j-th file is the one that chapter produced, and every chapter that produced a file is listed |
| Converter.ChapterRun | epub2audio/converter.py:59-69 | The chapter loop finishes every chapter exactly when nothing fails; when it stops, the next chapter's conversion fails with the error reported |
| Converter.ChapterRunNext | epub2audio/converter.py:59-69 | One turn of the chapter loop stops at the end or at a failing chapter, and otherwise goes on with the chapter's result recorded |
| Converter.ResultsSnoc | epub2audio/converter.py:59-69 | A finished chapter adds its file, if any, under its own number, and the interaction goes on from where it left |
| Converter.ChapterRunSteps | epub2audio/converter.py:59-69 | Every finished chapter k+1 was converted by the step from the interaction the chapters before it left |
| Converter.ChapterRunConverts | epub2audio/converter.py:59-69 | Every finished chapter had its document in the archive and is that document's `ChapterConversion` as chapter k+1 of all chapters |
| Converter.ChapterRunMissingEntry | epub2audio/converter.py:59-69 | A missing archive entry stops the loop with that error |
| Converter.ChapterRunFiles | epub2audio/converter.py:59-69 | The files collected are placed and tagged as their chapters, in increasing chapter order |
| Converter.RunChapters | epub2audio/converter.py:59-69 | The loop over the chapters computes exactly the chapter run: the files and their chapter numbers, the number of chapters finished, the error that stopped it and the interaction left |
| Converter.ConvertChapters | epub2audio/converter.py:59-69 | The chapter loop of `convert` is the chapter run of the archive's documents; it finishes every chapter exactly when nothing fails, a missing entry stops it with that error, and the files carry increasing chapter numbers, each with its own path and tags |
| Converter.Convert | epub2audio/converter.py:49-69 | Nothing is written if the book does not open or its spine does not resolve, and that error is reported. Otherwise the chapters, numbered from 1 among the chapter entries only, go through the chapter run in the directory named after the book, and the files, numbers, error and interaction left are the run's |

## Left out

- Audio: writing wave files, silence generation, concatenation and MP3
  encoding (`audio.py`). These are external programs; a chapter's output is
  modelled as the list of segments it is assembled from.
- The synthesizer itself (`synthesizer.py`), `patches.py` and the command
  line (`app.py`) are not part of this model. The synthesizer is reduced to
  whether it accepts a text.
- Writing ID3 tags with `mutagen`: the model states the frame values, not
  the file format. Absent title, artist and album frames are `None` values.
- Zip reading and XML and HTML parsing: documents arrive already parsed.
  A document that fails to parse, and `html.parse` error recovery, are not
  modelled. Comments and processing instructions are not nodes of the tree.
- XPath beyond `//t`, `//p/t` and `[1]`: `//title[1]` is modelled as the
  first `title` in document order, which is what `first` takes from it.
- Reading the `mimetype` entry is modelled as an optional byte string. A
  missing archive entry is reported as `MissingArchiveEntry`, standing for
  the zip library's `KeyError`.
- Unicode beyond ASCII in the regular expressions and in `lower()`:
  `\b`, `[a-zA-Z0-9]` and lower-casing are ASCII only. `\s` and `strip()`
  use the characters `str.isspace` accepts.
- `Paths`: POSIX `pathlib`'s special handling of a leading `//` is not
  modelled.
- Creating directories, including the `FileExistsError` of a second run into
  the same book directory, and removing the temporary directory.
- Logging and the environment variable that chooses the editor.
- A run of the editor beyond the listed outcomes counts as a failed run
  (`CalledProcessError`), and a console with no more lines as `EOFError`.
