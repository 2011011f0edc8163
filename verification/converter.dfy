/** The decisions of `epub2audio/converter.py`: which spine entries are
    chapters and how they are numbered, what the book directory and the
    output files are called, the synthesize-and-retry loop, which chunk files
    a chapter keeps and how they are joined with silence, and the tags the
    chapter file receives. Audio data, encoding and tag writing are left to
    the outside world: a chapter's output is described by its path, the
    ordered list of segments to concatenate, and its tags. */
module Converter {
  import opened Wrappers
  import opened Common
  import opened Strings
  import opened Paths
  import opened Markup
  import opened Epub
  import opened Chunker
  import opened ErrorHandlers

  // -----------------------------------------------------------------------
  // Book directory name

  /** The characters `DIR_NAME_REGEX` does not delete. */
  predicate IsDirNameChar(c: char) {
    IsAsciiAlnum(c) || c == '\'' || c == '"' || c == '-' || c == '_' || c == ' '
  }

  /** `DIR_NAME_REGEX.sub("", s)`: every other character deleted. */
  function SanitizeDirName(s: string): (r: string)
    ensures forall i :: 0 <= i < |r| ==> IsDirNameChar(r[i])
    ensures forall i :: 0 <= i < |s| && IsDirNameChar(s[i]) ==> s[i] in r
    ensures IsSubsequence(r, s)
    ensures forall c :: multiset(r)[c] == if IsDirNameChar(c) then multiset(s)[c] else 0
  {
    FilterCounts(s, IsDirNameChar);
    Filter(s, IsDirNameChar)
  }

  /** A name is left alone exactly when it has nothing to delete, so
      sanitising twice is sanitising once; and sanitising works piece by
      piece. */
  lemma SanitizeDirNameFixedPoints(s: string, t: string)
    ensures SanitizeDirName(s) == s <==> forall i :: 0 <= i < |s| ==> IsDirNameChar(s[i])
    ensures SanitizeDirName(SanitizeDirName(s)) == SanitizeDirName(s)
    ensures SanitizeDirName(s + t) == SanitizeDirName(s) + SanitizeDirName(t)
  {
    if forall i :: 0 <= i < |s| ==> IsDirNameChar(s[i]) {
      FilterKeepsAll(s, IsDirNameChar);
    }
    FilterIdempotent(s, IsDirNameChar);
    FilterAppend(s, t, IsDirNameChar);
  }

  /** `_book_directory_name`: the title, or the input file's stem when the
      book has no title, sanitised. */
  function BookDirectoryName(title: Option<string>, inputPath: string): (r: string)
    ensures forall i :: 0 <= i < |r| ==> IsDirNameChar(r[i])
  {
    SanitizeDirName(if title.Some? then title.value else Stem(inputPath))
  }

  /** The input path matters only for a book without a title. */
  lemma BookDirectoryNameSource(title: Option<string>, inputPath: string, otherPath: string)
    ensures title.Some? ==> BookDirectoryName(title, inputPath) == BookDirectoryName(title, otherPath)
    ensures title.None? ==> BookDirectoryName(title, inputPath) == BookDirectoryName(Some(Stem(inputPath)), otherPath)
  {
  }

  // -----------------------------------------------------------------------
  // Chapters

  /** `_is_chapter`: a linear XHTML entry that is not the navigation
      document. */
  predicate IsChapter(e: SpineEntry) {
    e.linear && e.item.mediaType == XhtmlMediaType && e.item.properties != Some("nav")
  }

  /** The chapters among the spine entries, in spine order. */
  function Chapters(entries: seq<SpineEntry>): (r: seq<SpineEntry>)
    ensures forall i :: 0 <= i < |r| ==> IsChapter(r[i]) && r[i] in entries
    ensures forall i :: 0 <= i < |entries| && IsChapter(entries[i]) ==> entries[i] in r
    ensures IsSubsequence(r, entries)
    ensures forall e :: multiset(r)[e] == if IsChapter(e) then multiset(entries)[e] else 0
  {
    FilterCounts(entries, IsChapter);
    Filter(entries, IsChapter)
  }

  /** Which entries are chapters depends on the three fields alone: apart
      from the navigation document, a linear XHTML entry is a chapter
      whatever its other `properties`. */
  lemma IsChapterCases(item: Item, linear: bool)
    ensures !linear ==> !IsChapter(SpineEntry(item, linear))
    ensures item.properties != Some("nav") ==>
              (IsChapter(SpineEntry(item, linear)) <==> linear && item.mediaType == "application/xhtml+xml")
    ensures item.properties == Some("nav") ==> !IsChapter(SpineEntry(item, linear))
  {
  }

  // -----------------------------------------------------------------------
  // File names and the track tag

  /** `f"{n:06}.wav"`. */
  function ChunkFileName(n: nat): (r: string)
    ensures |r| >= 10 && r[|r| - 4..] == ".wav" && AllDigits(r[..|r| - 4])
  {
    var d := ZeroPad(n, 6);
    assert (d + ".wav")[..|d|] == d;
    d + ".wav"
  }

  /** `f"{n:04}.mp3"`. */
  function ChapterFileName(n: nat): (r: string)
    ensures |r| >= 8 && r[|r| - 4..] == ".mp3" && AllDigits(r[..|r| - 4])
  {
    var d := ZeroPad(n, 4);
    assert (d + ".mp3")[..|d|] == d;
    d + ".mp3"
  }

  /** Both names read back as their number, so different numbers give
      different names, and numbers below the width give names of fixed
      length. */
  lemma FileNamesRoundTrip(n: nat)
    ensures ParseDecimal(ChunkFileName(n)[..|ChunkFileName(n)| - 4]) == n
    ensures ParseDecimal(ChapterFileName(n)[..|ChapterFileName(n)| - 4]) == n
    ensures n < 1000000 ==> |ChunkFileName(n)| == 10
    ensures n < 10000 ==> |ChapterFileName(n)| == 8
  {
    assert ChunkFileName(n)[..|ChunkFileName(n)| - 4] == ZeroPad(n, 6);
    assert ChapterFileName(n)[..|ChapterFileName(n)| - 4] == ZeroPad(n, 4);
    ZeroPadRoundTrip(n, 6);
    ZeroPadRoundTrip(n, 4);
    if n < 1000000 {
      assert Pow10(6) == 1000000;
      DecimalLength(n, 6);
    }
    if n < 10000 {
      assert Pow10(4) == 10000;
      DecimalLength(n, 4);
    }
  }

  lemma ChapterFileNamesDiffer(n: nat, m: nat)
    requires n != m
    ensures ChapterFileName(n) != ChapterFileName(m)
  {
    FileNamesRoundTrip(n);
    FileNamesRoundTrip(m);
  }

  /** The `TRCK` text `f"{num}/{count}"`. */
  function TrackText(num: nat, count: nat): (r: string)
    ensures |r| >= 3
    ensures forall i :: 0 <= i < |r| ==> IsAsciiDigit(r[i]) || r[i] == '/'
  {
    Decimal(num) + "/" + Decimal(count)
  }

  /** The track text splits at its only `/` into the two numbers. */
  lemma TrackTextRoundTrip(num: nat, count: nat)
    ensures var t := TrackText(num, count);
            var k := |Decimal(num)|;
            && k < |t| && t[k] == '/'
            && (forall j :: 0 <= j < |t| && j != k ==> t[j] != '/')
            && AllDigits(t[..k]) && ParseDecimal(t[..k]) == num
            && AllDigits(t[k + 1..]) && ParseDecimal(t[k + 1..]) == count
  {
    var a, b := Decimal(num), Decimal(count);
    SplitAtSlash(a, b);
    ParseDecimalOfDecimal(num);
    ParseDecimalOfDecimal(count);
  }

  /** Two digit strings joined by `/` split back at the only `/`. */
  lemma SplitAtSlash(a: string, b: string)
    requires AllDigits(a) && AllDigits(b)
    ensures var t := a + "/" + b;
            && |a| < |t| && t[|a|] == '/'
            && (forall j :: 0 <= j < |t| && j != |a| ==> t[j] != '/')
            && t[..|a|] == a && t[|a| + 1..] == b
  {
    var t := a + "/" + b;
    assert t[..|a|] == a;
    assert t[|a| + 1..] == b;
    forall j | 0 <= j < |t| && j != |a|
      ensures t[j] != '/'
    {
      if j < |a| {
        assert t[j] == a[j] && IsAsciiDigit(a[j]);
      } else {
        assert t[j] == b[j - |a| - 1] && IsAsciiDigit(b[j - |a| - 1]);
      }
    }
  }

  // -----------------------------------------------------------------------
  // _synthesize

  /** The outcome of `_synthesize` and the interaction left afterwards. */
  datatype SynthOutcome = SynthOutcome(succeeded: bool, rest: Interaction)

  /** `_synthesize`: try the text; on failure ask the handler, stop with
      False on None, otherwise try again with the replacement. The
      synthesizer is an oracle that accepts or rejects a text. */
  function Synthesize(text: string, synth: string -> bool, handler: HandlerKind, ia: Interaction): (r: Result<SynthOutcome, HandlerError>)
    ensures synth(text) ==> r == Ok(SynthOutcome(true, ia))
    ensures r.Ok? ==> Remaining(r.value.rest) <= Remaining(ia)
    decreases Remaining(ia)
  {
    if synth(text) then Ok(SynthOutcome(true, ia))
    else
      match Handle(handler, text, ia)
      case Err(e) => Err(e)
      case Ok(reply) =>
        match reply.replacement
        case None => Ok(SynthOutcome(false, reply.rest))
        case Some(t) => Synthesize(t, synth, handler, reply.rest)
  }

  /** With the skip handler a chunk is tried once, and nothing is asked. */
  lemma SynthesizeWithSkip(text: string, synth: string -> bool, ia: Interaction)
    ensures Synthesize(text, synth, Skip, ia) == Ok(SynthOutcome(synth(text), ia))
  {
  }

  /** `_synthesize` as the loop it is, recording every text it tried and the
      interaction before each try: each retry uses the handler's replacement
      for the text before it, True comes from an accepted try, False exactly
      when the handler answered None. */
  method SynthesizeLoop(text: string, synth: string -> bool, handler: HandlerKind, ia: Interaction)
    returns (r: Result<SynthOutcome, HandlerError>, attempts: seq<string>, states: seq<Interaction>)
    ensures r == Synthesize(text, synth, handler, ia)
    ensures |attempts| >= 1 && |states| == |attempts|
    ensures attempts[0] == text && states[0] == ia
    ensures forall i :: 0 <= i < |attempts| - 1 ==>
              && !synth(attempts[i])
              && Handle(handler, attempts[i], states[i]) == Ok(Reply(Some(attempts[i + 1]), states[i + 1]))
    ensures r.Ok? && r.value.succeeded ==>
              synth(attempts[|attempts| - 1]) && r.value.rest == states[|states| - 1]
    ensures r.Ok? && !r.value.succeeded ==>
              && !synth(attempts[|attempts| - 1])
              && Handle(handler, attempts[|attempts| - 1], states[|states| - 1]) == Ok(Reply(None, r.value.rest))
    ensures r.Err? ==>
              && !synth(attempts[|attempts| - 1])
              && Handle(handler, attempts[|attempts| - 1], states[|states| - 1]) == Err(r.error)
  {
    var t := text;
    var cur := ia;
    attempts := [text];
    states := [ia];
    while true
      invariant |attempts| >= 1 && |states| == |attempts|
      invariant attempts[0] == text && states[0] == ia
      invariant attempts[|attempts| - 1] == t && states[|states| - 1] == cur
      invariant forall i :: 0 <= i < |attempts| - 1 ==>
                  && !synth(attempts[i])
                  && Handle(handler, attempts[i], states[i]) == Ok(Reply(Some(attempts[i + 1]), states[i + 1]))
      invariant Synthesize(text, synth, handler, ia) == Synthesize(t, synth, handler, cur)
      decreases Remaining(cur)
    {
      if synth(t) {
        r := Ok(SynthOutcome(true, cur));
        return;
      }
      var h := Handle(handler, t, cur);
      if h.Err? {
        r := Err(h.error);
        return;
      }
      if h.value.replacement.None? {
        r := Ok(SynthOutcome(false, h.value.rest));
        return;
      }
      t := h.value.replacement.value;
      cur := h.value.rest;
      attempts := attempts + [t];
      states := states + [cur];
    }
  }

  /** The outcome of `_synthesize` for each chunk in turn, and the
      interaction left afterwards. */
  datatype ChunkOutcomes = ChunkOutcomes(succeeded: seq<bool>, rest: Interaction)

  /** `_synthesize` on each chunk in order; a handler error stops it. */
  function SynthesizeChunks(chunks: seq<string>, synth: string -> bool, handler: HandlerKind, ia: Interaction): (r: Result<ChunkOutcomes, HandlerError>)
    ensures r.Ok? ==> |r.value.succeeded| == |chunks|
  {
    if |chunks| == 0 then Ok(ChunkOutcomes([], ia))
    else
      match Synthesize(chunks[0], synth, handler, ia)
      case Err(e) => Err(e)
      case Ok(o) =>
        match SynthesizeChunks(chunks[1..], synth, handler, o.rest)
        case Err(e) => Err(e)
        case Ok(more) => Ok(ChunkOutcomes([o.succeeded] + more.succeeded, more.rest))
  }

  /** With the skip handler, exactly the chunks the synthesizer accepts
      succeed and nothing is asked. */
  lemma {:induction false} SynthesizeChunksWithSkip(chunks: seq<string>, synth: string -> bool, ia: Interaction)
    ensures SynthesizeChunks(chunks, synth, Skip, ia).Ok?
    ensures SynthesizeChunks(chunks, synth, Skip, ia).value.rest == ia
    ensures forall i :: 0 <= i < |chunks| ==> SynthesizeChunks(chunks, synth, Skip, ia).value.succeeded[i] == synth(chunks[i])
  {
    if |chunks| > 0 {
      SynthesizeWithSkip(chunks[0], synth, ia);
      SynthesizeChunksWithSkip(chunks[1..], synth, ia);
    }
  }

  /** Earlier outcomes put in front of a later result. */
  function Prefixed(flags: seq<bool>, r: Result<ChunkOutcomes, HandlerError>): Result<ChunkOutcomes, HandlerError>
  {
    match r
    case Err(e) => Err(e)
    case Ok(o) => Ok(ChunkOutcomes(flags + o.succeeded, o.rest))
  }

  /** No earlier outcomes change nothing. */
  lemma PrefixedNothing(r: Result<ChunkOutcomes, HandlerError>)
    ensures Prefixed([], r) == r
  {
    if r.Ok? {
      assert [] + r.value.succeeded == r.value.succeeded;
    }
  }

  /** Chunk `i` handled: a handler error ends the whole run; otherwise its
      outcome moves from the later result to the earlier outcomes. */
  lemma PrefixedStep(flags: seq<bool>, chunks: seq<string>, i: nat, synth: string -> bool, handler: HandlerKind, ia: Interaction)
    requires i < |chunks|
    ensures var o := Synthesize(chunks[i], synth, handler, ia);
            && (o.Err? ==> Prefixed(flags, SynthesizeChunks(chunks[i..], synth, handler, ia)) == Err(o.error))
            && (o.Ok? ==> Prefixed(flags, SynthesizeChunks(chunks[i..], synth, handler, ia))
                            == Prefixed(flags + [o.value.succeeded], SynthesizeChunks(chunks[i + 1..], synth, handler, o.value.rest)))
  {
    assert chunks[i..][0] == chunks[i] && chunks[i..][1..] == chunks[i + 1..];
    var o := Synthesize(chunks[i], synth, handler, ia);
    if o.Ok? {
      var more := SynthesizeChunks(chunks[i + 1..], synth, handler, o.value.rest);
      if more.Ok? {
        assert flags + ([o.value.succeeded] + more.value.succeeded) == (flags + [o.value.succeeded]) + more.value.succeeded;
      }
    }
  }

  /** Every chunk handled: the earlier outcomes are all there is. */
  lemma PrefixedDone(flags: seq<bool>, chunks: seq<string>, synth: string -> bool, handler: HandlerKind, ia: Interaction)
    ensures Prefixed(flags, SynthesizeChunks(chunks[|chunks|..], synth, handler, ia)) == Ok(ChunkOutcomes(flags, ia))
  {
    assert chunks[|chunks|..] == [];
    assert flags + [] == flags;
  }

  // -----------------------------------------------------------------------
  // _convert_chapter

  /** What goes into the combined chapter audio, in order. */
  datatype Segment = ChunkFile(path: string) | Silence

  /** The ID3 frames written: `TRCK` always, the others when not None. */
  datatype Tags = Tags(track: string, title: Option<string>, artist: Option<string>, album: Option<string>)

  /** An encoded chapter: where it goes, what it is made of, its tags. */
  datatype OutputFile = OutputFile(path: string, segments: seq<Segment>, tags: Tags)

  /** The exceptions that end a conversion. */
  datatype ConvertError =
    | BookError(bookError: EpubError)
    | ChapterError(chapterError: PreprocessError)
    | HandlerFailed(handlerError: HandlerError)

  /** What a chapter produced: its file, if any, the numbers of the chunks
      that were synthesized, and the interaction left afterwards. */
  datatype ChapterResult = ChapterResult(file: Option<OutputFile>, synthesized: seq<nat>, rest: Interaction)

  /** The chunk files with the given numbers inside `directory`. */
  function ChunkFiles(directory: string, nums: seq<nat>): (r: seq<Segment>)
    ensures |r| == |nums|
    ensures forall i :: 0 <= i < |r| ==> r[i] == ChunkFile(JoinPath(directory, ChunkFileName(nums[i])))
  {
    seq(|nums|, i requires 0 <= i < |nums| => ChunkFile(JoinPath(directory, ChunkFileName(nums[i]))))
  }

  predicate StrictlyIncreasing(xs: seq<nat>) {
    forall i, j :: 0 <= i < j < |xs| ==> xs[i] < xs[j]
  }

  /** Outcome number `n`, counted from 1, is a success. */
  predicate Succeeded(succeeded: seq<bool>, n: int) {
    1 <= n <= |succeeded| && succeeded[n - 1]
  }

  /** The numbers, counted from 1, of the chunks that succeeded. */
  ghost predicate IsSuccessList(nums: seq<nat>, succeeded: seq<bool>) {
    && StrictlyIncreasing(nums)
    && (forall k :: 0 <= k < |nums| ==> Succeeded(succeeded, nums[k]))
    && (forall n :: Succeeded(succeeded, n) ==> n in nums)
  }

  /** The numbers, counted from 1, of the successful outcomes, in order. */
  function SuccessNumbers(succeeded: seq<bool>): seq<nat>
  {
    if |succeeded| == 0 then []
    else
      var earlier := SuccessNumbers(succeeded[..|succeeded| - 1]);
      if succeeded[|succeeded| - 1] then earlier + [|succeeded|] else earlier
  }

  /** The list built outcome by outcome is the success list: increasing,
      and holding exactly the numbers of the outcomes that succeeded. */
  lemma {:induction false} SuccessNumbersAreSuccessList(succeeded: seq<bool>)
    ensures IsSuccessList(SuccessNumbers(succeeded), succeeded)
  {
    if |succeeded| > 0 {
      var earlier, b := succeeded[..|succeeded| - 1], succeeded[|succeeded| - 1];
      assert earlier + [b] == succeeded;
      SuccessNumbersAreSuccessList(earlier);
      SuccessListStep(SuccessNumbers(earlier), earlier, b);
      SuccessNumbersSnoc(earlier, b);
    }
  }

  /** One more outcome: its number joins the list when it succeeded. */
  lemma SuccessListStep(nums: seq<nat>, succeeded: seq<bool>, b: bool)
    requires IsSuccessList(nums, succeeded)
    ensures IsSuccessList(if b then nums + [|succeeded| + 1] else nums, succeeded + [b])
  {
    var flags := succeeded + [b];
    var next := if b then nums + [|succeeded| + 1] else nums;
    forall n
      ensures Succeeded(flags, n) <==> Succeeded(succeeded, n) || (b && n == |flags|)
    {
      if 1 <= n <= |succeeded| {
        assert flags[n - 1] == succeeded[n - 1];
      }
    }
  }

  lemma SuccessNumbersSnoc(succeeded: seq<bool>, b: bool)
    ensures SuccessNumbers(succeeded + [b]) == if b then SuccessNumbers(succeeded) + [|succeeded| + 1] else SuccessNumbers(succeeded)
  {
    assert (succeeded + [b])[..|succeeded|] == succeeded;
  }

  /** The loop of `_convert_chapter` over the chunks: synthesize each in
      turn, collecting the numbers of those that succeeded; a handler error
      ends it. */
  method SynthesizeEach(chunks: seq<string>, synth: string -> bool, handler: HandlerKind, ia: Interaction)
    returns (r: Result<(seq<nat>, Interaction), HandlerError>)
    ensures var outcome := SynthesizeChunks(chunks, synth, handler, ia);
            && (r.Err? <==> outcome.Err?)
            && (r.Err? ==> r.error == outcome.error)
            && (r.Ok? ==> r.value.1 == outcome.value.rest && r.value.0 == SuccessNumbers(outcome.value.succeeded))
  {
    var nums: seq<nat> := [];
    var flags: seq<bool> := [];
    var cur := ia;
    var i := 0;
    ghost var goal := SynthesizeChunks(chunks, synth, handler, ia);
    assert chunks[0..] == chunks;
    PrefixedNothing(goal);
    while i < |chunks|
      invariant 0 <= i <= |chunks| && |flags| == i
      invariant goal == Prefixed(flags, SynthesizeChunks(chunks[i..], synth, handler, cur))
      invariant nums == SuccessNumbers(flags)
    {
      var o := Synthesize(chunks[i], synth, handler, cur);
      PrefixedStep(flags, chunks, i, synth, handler, cur);
      if o.Err? {
        return Err(o.error);
      }
      SuccessNumbersSnoc(flags, o.value.succeeded);
      if o.value.succeeded {
        nums := nums + [i + 1];
      }
      flags := flags + [o.value.succeeded];
      cur := o.value.rest;
      i := i + 1;
    }
    PrefixedDone(flags, chunks, synth, handler, cur);
    r := Ok((nums, cur));
  }

  /** The segments to concatenate: the first file, then the interspersed
      stream without its first element, as `_convert_chapter` passes them.
      That is the interspersed stream itself: k files and k - 1 silences,
      a file first and last. */
  lemma SegmentsShape(files: seq<Segment>)
    requires |files| > 0
    requires forall i :: 0 <= i < |files| ==> files[i].ChunkFile?
    ensures [files[0]] + Intersperse(files, Silence)[1..] == Intersperse(files, Silence)
    ensures |Intersperse(files, Silence)| == 2 * |files| - 1
    ensures Intersperse(files, Silence)[0] == files[0]
    ensures Intersperse(files, Silence)[2 * |files| - 2] == files[|files| - 1]
    ensures multiset(Intersperse(files, Silence))[Silence] == |files| - 1
  {
    IntersperseShape(files, Silence);
    assert Silence !in files;
    assert multiset(files)[Silence] == 0;
  }

  /** The end of `_convert_chapter`: nothing when no chunk file was
      produced, otherwise the chapter file made of the first chunk file
      followed by the interspersed stream without its head. */
  function ChapterOutput(nums: seq<nat>, path: string, tags: Tags, tempDirectory: string): (r: Option<OutputFile>)
    ensures r.None? <==> |nums| == 0
    ensures r.Some? ==> r.value == OutputFile(path, Intersperse(ChunkFiles(tempDirectory, nums), Silence), tags)
  {
    if |nums| == 0 then None
    else
      var files := ChunkFiles(tempDirectory, nums);
      SegmentsShape(files);
      Some(OutputFile(path, [files[0]] + Intersperse(files, Silence)[1..], tags))
  }

  /** A success list is empty exactly when no outcome succeeded. */
  lemma SuccessListEmpty(nums: seq<nat>, succeeded: seq<bool>)
    requires IsSuccessList(nums, succeeded)
    ensures |nums| == 0 <==> true !in succeeded
  {
    if true in succeeded {
      var j :| 0 <= j < |succeeded| && succeeded[j];
      assert Succeeded(succeeded, j + 1);
    }
    if |nums| > 0 {
      assert Succeeded(succeeded, nums[0]);
    }
  }

  /** What `_convert_chapter` produces for one chapter: the preprocessing
      error, the handler error, or the chunk numbers synthesized, the
      interaction left, and the chapter file when at least one chunk was
      synthesized. */
  function ChapterConversion(
    content: Element, chapterNum: nat, chapterCount: nat,
    bookTitle: Option<string>, bookCreator: Option<string>,
    bookDirectory: string, tempDirectory: string,
    synth: string -> bool, handler: HandlerKind, ia: Interaction): (r: Result<ChapterResult, ConvertError>)
    ensures Process(content).Err? ==> r == Err(ChapterError(Process(content).error))
    ensures Process(content).Ok? ==>
              var outcome := SynthesizeChunks(Process(content).value.contentChunks, synth, handler, ia);
              && (r.Err? <==> outcome.Err?)
              && (r.Err? ==> r.error == HandlerFailed(outcome.error))
              && (r.Ok? ==> && r.value.rest == outcome.value.rest
                            && IsSuccessList(r.value.synthesized, outcome.value.succeeded)
                            && (r.value.file.Some? <==> true in outcome.value.succeeded))
    ensures r.Ok? ==> (r.value.file.None? <==> |r.value.synthesized| == 0)
    ensures r.Ok? && r.value.file.Some? ==>
              && r.value.file.value.path == JoinPath(bookDirectory, ChapterFileName(chapterNum))
              && r.value.file.value.segments == Intersperse(ChunkFiles(tempDirectory, r.value.synthesized), Silence)
              && r.value.file.value.tags == Tags(TrackText(chapterNum, chapterCount), Process(content).value.title, bookCreator, bookTitle)
  {
    match Process(content)
    case Err(e) => Err(ChapterError(e))
    case Ok(doc) =>
      match SynthesizeChunks(doc.contentChunks, synth, handler, ia)
      case Err(e) => Err(HandlerFailed(e))
      case Ok(outcome) =>
        var nums := SuccessNumbers(outcome.succeeded);
        SuccessNumbersAreSuccessList(outcome.succeeded);
        SuccessListEmpty(nums, outcome.succeeded);
        var path := JoinPath(bookDirectory, ChapterFileName(chapterNum));
        var tags := Tags(TrackText(chapterNum, chapterCount), doc.title, bookCreator, bookTitle);
        Ok(ChapterResult(ChapterOutput(nums, path, tags, tempDirectory), nums, outcome.rest))
  }

  /** `_convert_chapter`: preprocess the chapter, synthesize each chunk into
      `{n:06}.wav` in the temporary directory, keep the files that were
      produced, join them with a silence between each two, and describe the
      `{chapter:04}.mp3` file with its tags. Nothing is produced when there
      are no chunks or none was synthesized. */
  method ConvertChapter(
    content: Element, chapterNum: nat, chapterCount: nat,
    bookTitle: Option<string>, bookCreator: Option<string>,
    bookDirectory: string, tempDirectory: string,
    synth: string -> bool, handler: HandlerKind, ia: Interaction)
    returns (r: Result<ChapterResult, ConvertError>)
    ensures r == ChapterConversion(content, chapterNum, chapterCount, bookTitle, bookCreator, bookDirectory, tempDirectory, synth, handler, ia)
    ensures Process(content).Err? ==> r == Err(ChapterError(Process(content).error))
    ensures Process(content).Ok? ==>
              var outcome := SynthesizeChunks(Process(content).value.contentChunks, synth, handler, ia);
              && (r.Err? <==> outcome.Err?)
              && (r.Err? ==> r.error == HandlerFailed(outcome.error))
              && (r.Ok? ==> r.value.rest == outcome.value.rest && IsSuccessList(r.value.synthesized, outcome.value.succeeded))
    ensures r.Ok? ==> (r.value.file.None? <==> |r.value.synthesized| == 0)
    ensures r.Ok? && r.value.file.Some? ==>
              && r.value.file.value.path == JoinPath(bookDirectory, ChapterFileName(chapterNum))
              && r.value.file.value.segments == Intersperse(ChunkFiles(tempDirectory, r.value.synthesized), Silence)
              && r.value.file.value.tags == Tags(TrackText(chapterNum, chapterCount), Process(content).value.title, bookCreator, bookTitle)
  {
    ghost var expected := ChapterConversion(content, chapterNum, chapterCount, bookTitle, bookCreator, bookDirectory, tempDirectory, synth, handler, ia);
    var processed := Process(content);
    if processed.Err? {
      return Err(ChapterError(processed.error));
    }
    var doc := processed.value;
    if |doc.contentChunks| == 0 {
      assert expected == Ok(ChapterResult(None, [], ia));
      return Ok(ChapterResult(None, [], ia));
    }
    var each := SynthesizeEach(doc.contentChunks, synth, handler, ia);
    if each.Err? {
      assert expected == Err(HandlerFailed(each.error));
      return Err(HandlerFailed(each.error));
    }
    var (nums, cur) := each.value;
    var path := JoinPath(bookDirectory, ChapterFileName(chapterNum));
    var tags := Tags(TrackText(chapterNum, chapterCount), doc.title, bookCreator, bookTitle);
    assert expected == Ok(ChapterResult(ChapterOutput(nums, path, tags, tempDirectory), nums, cur));
    r := Ok(ChapterResult(ChapterOutput(nums, path, tags, tempDirectory), nums, cur));
  }

  // -----------------------------------------------------------------------
  // convert

  /** The output file of chapter `n` of `count`: its place in the book
      directory and the tags that do not depend on the chapter's contents. */
  predicate IsChapterFile(f: OutputFile, n: nat, count: nat, dir: string, pd: PackageDocument) {
    && f.path == JoinPath(dir, ChapterFileName(n))
    && f.tags.track == TrackText(n, count)
    && f.tags.artist == pd.creator
    && f.tags.album == pd.title
  }

  /** The files written so far, in order, with the chapter numbers they
      carry: increasing numbers from 1 to `bound`, each file placed and
      tagged as its chapter. */
  ghost predicate IsChapterFiles(files: seq<OutputFile>, numbers: seq<nat>, bound: nat, count: nat, dir: string, pd: PackageDocument) {
    && |numbers| == |files|
    && StrictlyIncreasing(numbers)
    && forall k :: 0 <= k < |files| ==> 1 <= numbers[k] <= bound && IsChapterFile(files[k], numbers[k], count, dir, pd)
  }

  /** Chapter `n` of `count` in `convert`: the missing-entry error, or the
      conversion of the entry's document with the book's title and
      creator. */
  function EntryConversion(
    a: Archive, book: EpubFile, entry: SpineEntry, n: nat, count: nat, dir: string, tempDirectory: string,
    synth: string -> bool, handler: HandlerKind, ia: Interaction): (r: Result<ChapterResult, ConvertError>)
    ensures EntryPath(book, entry) !in a.documents ==> r == Err(BookError(MissingArchiveEntry(EntryPath(book, entry))))
    ensures EntryPath(book, entry) in a.documents ==>
              var pd := book.packageDocument;
              r == ChapterConversion(a.documents[EntryPath(book, entry)], n, count, pd.title, pd.creator, dir, tempDirectory, synth, handler, ia)
    ensures r.Ok? && r.value.file.Some? ==> IsChapterFile(r.value.file.value, n, count, dir, book.packageDocument)
  {
    var path := EntryPath(book, entry);
    if path !in a.documents then Err(BookError(MissingArchiveEntry(path)))
    else
      var pd := book.packageDocument;
      ChapterConversion(a.documents[path], n, count, pd.title, pd.creator, dir, tempDirectory, synth, handler, ia)
  }

  /** The results of the chapters converted so far, and the error that
      stopped the loop, if any. */
  datatype Progress = Progress(results: seq<ChapterResult>, failure: Option<ConvertError>)

  /** The interaction left after the given chapters, starting from `ia`. */
  function After(ia: Interaction, results: seq<ChapterResult>): Interaction {
    if |results| == 0 then ia else results[|results| - 1].rest
  }

  /** The chapter files among the results, in chapter order. */
  function FilesOf(results: seq<ChapterResult>): seq<OutputFile>
  {
    if |results| == 0 then []
    else
      var last := results[|results| - 1];
      FilesOf(results[..|results| - 1]) + if last.file.Some? then [last.file.value] else []
  }

  /** The numbers, counted from 1, of the chapters that produced a file. */
  function NumbersOf(results: seq<ChapterResult>): seq<nat>
  {
    if |results| == 0 then []
    else
      var last := results[|results| - 1];
      NumbersOf(results[..|results| - 1]) + if last.file.Some? then [|results|] else []
  }

  /** The files and their numbers pair up: the j-th file is the one chapter
      `numbers[j]` produced, the numbers increase, and every chapter that
      produced a file is listed. */
  lemma {:induction false} FilesOfNumbers(results: seq<ChapterResult>)
    ensures |FilesOf(results)| == |NumbersOf(results)|
    ensures StrictlyIncreasing(NumbersOf(results))
    ensures forall j :: 0 <= j < |FilesOf(results)| ==>
              && 1 <= NumbersOf(results)[j] <= |results|
              && results[NumbersOf(results)[j] - 1].file == Some(FilesOf(results)[j])
    ensures forall k :: 0 <= k < |results| && results[k].file.Some? ==> k + 1 in NumbersOf(results)
  {
    if |results| > 0 {
      var earlier := results[..|results| - 1];
      FilesOfNumbers(earlier);
      forall k | 0 <= k < |earlier|
        ensures results[k] == earlier[k]
      {
      }
    }
  }

  /** How one chapter is converted, given the entry, its number and the
      interaction so far. */
  type ChapterStep = (SpineEntry, nat, Interaction) -> Result<ChapterResult, ConvertError>

  /** The chapter step of `convert`: chapter `n` of `count`, looked up in
      the archive. */
  function EntryStep(
    a: Archive, book: EpubFile, count: nat, dir: string, tempDirectory: string,
    synth: string -> bool, handler: HandlerKind): (r: ChapterStep)
    ensures forall e, n, i :: r(e, n, i) == EntryConversion(a, book, e, n, count, dir, tempDirectory, synth, handler, i)
  {
    (e: SpineEntry, n: nat, i: Interaction) => EntryConversion(a, book, e, n, count, dir, tempDirectory, synth, handler, i)
  }

  /** The loop of `convert` from chapter `|done| + 1` on, `done` holding the
      results of the chapters before it: each chapter is converted with the
      interaction the previous one left, and the first error stops the loop. */
  function ChapterRun(chapters: seq<SpineEntry>, step: ChapterStep, ia: Interaction, done: seq<ChapterResult>): (r: Progress)
    requires |done| <= |chapters|
    ensures |done| <= |r.results| <= |chapters| && r.results[..|done|] == done
    ensures r.failure.None? <==> |r.results| == |chapters|
    ensures r.failure.Some? ==>
              var k := |r.results|;
              step(chapters[k], k + 1, After(ia, r.results)) == Err(r.failure.value)
    decreases |chapters| - |done|
  {
    var k := |done|;
    if k == |chapters| then Progress(done, None)
    else
      match step(chapters[k], k + 1, After(ia, done))
      case Err(e) => Progress(done, Some(e))
      case Ok(cr) =>
        var r := ChapterRun(chapters, step, ia, done + [cr]);
        assert r.results[..k] == (done + [cr])[..k];
        r
  }

  /** One turn of the loop: stop when all chapters are done, record the
      error of a failing chapter, or go on after a successful one. */
  lemma ChapterRunNext(chapters: seq<SpineEntry>, step: ChapterStep, ia: Interaction, done: seq<ChapterResult>)
    requires |done| <= |chapters|
    ensures |done| == |chapters| ==> ChapterRun(chapters, step, ia, done) == Progress(done, None)
    ensures |done| < |chapters| ==>
              var cr := step(chapters[|done|], |done| + 1, After(ia, done));
              && (cr.Err? ==> ChapterRun(chapters, step, ia, done) == Progress(done, Some(cr.error)))
              && (cr.Ok? ==> ChapterRun(chapters, step, ia, done) == ChapterRun(chapters, step, ia, done + [cr.value]))
  {
  }

  /** One more result adds its file, if any, under its chapter number, and
      its interaction is the one left. */
  lemma ResultsSnoc(ia: Interaction, done: seq<ChapterResult>, cr: ChapterResult)
    ensures FilesOf(done + [cr]) == FilesOf(done) + if cr.file.Some? then [cr.file.value] else []
    ensures NumbersOf(done + [cr]) == NumbersOf(done) + if cr.file.Some? then [|done| + 1] else []
    ensures After(ia, done + [cr]) == cr.rest
  {
    assert (done + [cr])[..|done|] == done;
  }

  /** Every chapter the loop finished was converted, as chapter `k + 1`,
      from the interaction the chapters before it left. */
  lemma {:induction false} ChapterRunSteps(chapters: seq<SpineEntry>, step: ChapterStep, ia: Interaction, done: seq<ChapterResult>)
    requires |done| <= |chapters|
    ensures var r := ChapterRun(chapters, step, ia, done);
            forall k :: |done| <= k < |r.results| ==>
              step(chapters[k], k + 1, After(ia, r.results[..k])) == Ok(r.results[k])
    decreases |chapters| - |done|
  {
    ChapterRunNext(chapters, step, ia, done);
    var k := |done|;
    if k < |chapters| && step(chapters[k], k + 1, After(ia, done)).Ok? {
      var cr := step(chapters[k], k + 1, After(ia, done)).value;
      var next := done + [cr];
      ChapterRunSteps(chapters, step, ia, next);
      var r := ChapterRun(chapters, step, ia, next);
      assert ChapterRun(chapters, step, ia, done) == r;
      forall j | k <= j < |r.results|
        ensures step(chapters[j], j + 1, After(ia, r.results[..j])) == Ok(r.results[j])
      {
        if j == k {
          assert r.results[..k + 1] == next;
          assert r.results[k] == cr by {
            assert next[k] == cr;
          }
          assert r.results[..k] == done by {
            assert r.results[..k] == next[..k];
          }
        }
      }
    }
  }

  /** The loop of `convert` stops at a chapter whose entry is missing with
      that error. */
  lemma ChapterRunMissingEntry(
    a: Archive, book: EpubFile, chapters: seq<SpineEntry>, dir: string, tempDirectory: string,
    synth: string -> bool, handler: HandlerKind, ia: Interaction)
    ensures var run := ChapterRun(chapters, EntryStep(a, book, |chapters|, dir, tempDirectory, synth, handler), ia, []);
            var k := |run.results|;
            run.failure.Some? && EntryPath(book, chapters[k]) !in a.documents ==>
              run.failure.value == BookError(MissingArchiveEntry(EntryPath(book, chapters[k])))
  {
  }

  /** The files the loop of `convert` collects are placed and tagged as
      their chapters, in increasing chapter order. */
  lemma ChapterRunFiles(
    a: Archive, book: EpubFile, chapters: seq<SpineEntry>, dir: string, tempDirectory: string,
    synth: string -> bool, handler: HandlerKind, ia: Interaction)
    ensures var run := ChapterRun(chapters, EntryStep(a, book, |chapters|, dir, tempDirectory, synth, handler), ia, []);
            IsChapterFiles(FilesOf(run.results), NumbersOf(run.results), |run.results|, |chapters|, dir, book.packageDocument)
  {
    var step := EntryStep(a, book, |chapters|, dir, tempDirectory, synth, handler);
    var run := ChapterRun(chapters, step, ia, []);
    ChapterRunSteps(chapters, step, ia, []);
    FilesOfNumbers(run.results);
    var files, numbers := FilesOf(run.results), NumbersOf(run.results);
    forall j | 0 <= j < |files|
      ensures IsChapterFile(files[j], numbers[j], |chapters|, dir, book.packageDocument)
    {
      var k := numbers[j] - 1;
      assert step(chapters[k], k + 1, After(ia, run.results[..k])) == Ok(run.results[k]);
    }
  }

  /** Every chapter the loop of `convert` finished had its document in the
      archive and was converted as chapter `k + 1` of all of them, with the
      book's title and creator, from the interaction the chapters before it
      left. */
  lemma ChapterRunConverts(
    a: Archive, book: EpubFile, chapters: seq<SpineEntry>, dir: string, tempDirectory: string,
    synth: string -> bool, handler: HandlerKind, ia: Interaction)
    ensures var run := ChapterRun(chapters, EntryStep(a, book, |chapters|, dir, tempDirectory, synth, handler), ia, []);
            var pd := book.packageDocument;
            forall k :: 0 <= k < |run.results| ==>
              && EntryPath(book, chapters[k]) in a.documents
              && ChapterConversion(a.documents[EntryPath(book, chapters[k])], k + 1, |chapters|, pd.title, pd.creator,
                                   dir, tempDirectory, synth, handler, After(ia, run.results[..k])) == Ok(run.results[k])
  {
    var step := EntryStep(a, book, |chapters|, dir, tempDirectory, synth, handler);
    ChapterRunSteps(chapters, step, ia, []);
  }

  /** The loop of `convert` over the chapters, numbered from 1, each
      converted by `step` from the interaction the previous one left: an
      error stops it, keeping the files already written; a chapter that
      produces nothing leaves a gap in the file numbers. `processed` is the
      number of chapters finished. */
  method RunChapters(chapters: seq<SpineEntry>, step: ChapterStep, ia: Interaction)
    returns (files: seq<OutputFile>, numbers: seq<nat>, processed: nat, failure: Option<ConvertError>, rest: Interaction)
    ensures var run := ChapterRun(chapters, step, ia, []);
            && processed == |run.results| && failure == run.failure
            && files == FilesOf(run.results) && numbers == NumbersOf(run.results)
            && rest == After(ia, run.results)
  {
    files, numbers, processed, failure, rest := [], [], 0, None, ia;
    var i := 0;
    ghost var done: seq<ChapterResult> := [];
    while i < |chapters|
      invariant 0 <= i <= |chapters| && |done| == i
      invariant ChapterRun(chapters, step, ia, []) == ChapterRun(chapters, step, ia, done)
      invariant files == FilesOf(done) && numbers == NumbersOf(done) && rest == After(ia, done)
    {
      var cr := step(chapters[i], i + 1, rest);
      ChapterRunNext(chapters, step, ia, done);
      if cr.Err? {
        failure := Some(cr.error);
        processed := i;
        return;
      }
      if cr.value.file.Some? {
        files := files + [cr.value.file.value];
        numbers := numbers + [i + 1];
      }
      ResultsSnoc(ia, done, cr.value);
      done := done + [cr.value];
      rest := cr.value.rest;
      i := i + 1;
    }
    ChapterRunNext(chapters, step, ia, done);
    processed := i;
  }

  /** The chapter loop of `convert`, each chapter looked up in the archive:
      a missing archive entry stops it with that error. */
  method ConvertChapters(
    a: Archive, book: EpubFile, chapters: seq<SpineEntry>, dir: string, tempDirectory: string,
    synth: string -> bool, handler: HandlerKind, ia: Interaction)
    returns (files: seq<OutputFile>, numbers: seq<nat>, processed: nat, failure: Option<ConvertError>, rest: Interaction)
    ensures var run := ChapterRun(chapters, EntryStep(a, book, |chapters|, dir, tempDirectory, synth, handler), ia, []);
            && processed == |run.results| && failure == run.failure
            && files == FilesOf(run.results) && numbers == NumbersOf(run.results)
            && rest == After(ia, run.results)
    ensures processed <= |chapters|
    ensures failure.None? <==> processed == |chapters|
    ensures failure.Some? && EntryPath(book, chapters[processed]) !in a.documents ==>
              failure.value == BookError(MissingArchiveEntry(EntryPath(book, chapters[processed])))
    ensures IsChapterFiles(files, numbers, processed, |chapters|, dir, book.packageDocument)
  {
    var step := EntryStep(a, book, |chapters|, dir, tempDirectory, synth, handler);
    files, numbers, processed, failure, rest := RunChapters(chapters, step, ia);
    ChapterRunMissingEntry(a, book, chapters, dir, tempDirectory, synth, handler, ia);
    ChapterRunFiles(a, book, chapters, dir, tempDirectory, synth, handler, ia);
  }

  /** `convert`: open the book, name its directory, list the whole spine
      (an unresolvable entry stops everything before the first chapter), keep
      the chapters, and convert them in order as chapter 1, 2, ... of the
      chapter count. The temporary directory inside the book directory gets
      the name `tempName`. */
  method Convert(
    a: Archive, inputPath: string, outputDirectory: string, tempName: string,
    synth: string -> bool, handler: HandlerKind, ia: Interaction)
    returns (files: seq<OutputFile>, numbers: seq<nat>, processed: nat, failure: Option<ConvertError>, rest: Interaction)
    ensures Open(a).Err? ==> files == [] && failure == Some(BookError(Open(a).error)) && rest == ia
    ensures Open(a).Ok? && Spine(Open(a).value.packageDocument).Err? ==>
              files == [] && failure == Some(BookError(Spine(Open(a).value.packageDocument).error)) && rest == ia
    ensures |numbers| == |files|
    ensures StrictlyIncreasing(numbers)
    ensures Open(a).Ok? && Spine(Open(a).value.packageDocument).Ok? ==>
              var book := Open(a).value;
              var pd := book.packageDocument;
              var chapters := Chapters(Spine(pd).value);
              var dir := JoinPath(outputDirectory, BookDirectoryName(pd.title, inputPath));
              && processed <= |chapters|
              && (failure.None? <==> processed == |chapters|)
              && (failure.Some? && EntryPath(book, chapters[processed]) !in a.documents ==>
                    failure.value == BookError(MissingArchiveEntry(EntryPath(book, chapters[processed]))))
              && IsChapterFiles(files, numbers, processed, |chapters|, dir, pd)
    ensures Open(a).Ok? && Spine(Open(a).value.packageDocument).Ok? ==>
              var book := Open(a).value;
              var pd := book.packageDocument;
              var chapters := Chapters(Spine(pd).value);
              var dir := JoinPath(outputDirectory, BookDirectoryName(pd.title, inputPath));
              var run := ChapterRun(chapters, EntryStep(a, book, |chapters|, dir, JoinPath(dir, tempName), synth, handler), ia, []);
              && processed == |run.results| && failure == run.failure
              && files == FilesOf(run.results) && numbers == NumbersOf(run.results)
              && rest == After(ia, run.results)
  {
    var book0 := Open(a);
    if book0.Err? {
      return [], [], 0, Some(BookError(book0.error)), ia;
    }
    var book := book0.value;
    var pd := book.packageDocument;
    var spine := Spine(pd);
    if spine.Err? {
      return [], [], 0, Some(BookError(spine.error)), ia;
    }
    var dir := JoinPath(outputDirectory, BookDirectoryName(pd.title, inputPath));
    files, numbers, processed, failure, rest :=
      ConvertChapters(a, book, Chapters(spine.value), dir, JoinPath(dir, tempName), synth, handler, ia);
  }

  /** Different chapter numbers give different output paths. */
  lemma ChapterPathsDiffer(dir: string, n: nat, m: nat)
    requires n != m
    ensures JoinPath(dir, ChapterFileName(n)) != JoinPath(dir, ChapterFileName(m))
  {
    ChapterFileNamesDiffer(n, m);
    SingleComponent(ChapterFileName(n));
    SingleComponent(ChapterFileName(m));
    JoinPathComponents(dir, ChapterFileName(n));
    JoinPathComponents(dir, ChapterFileName(m));
    var cn := Components(JoinPath(dir, ChapterFileName(n)));
    var cm := Components(JoinPath(dir, ChapterFileName(m)));
    assert cn[|cn| - 1] == ChapterFileName(n);
    assert cm[|cm| - 1] == ChapterFileName(m);
  }

  /** A file name made of digits and a suffix is one relative component. */
  lemma SingleComponent(name: string)
    requires |name| >= 5 && name[|name| - 4..] == ".mp3" && AllDigits(name[..|name| - 4])
    ensures !IsAbsolute(name) && Components(name) == [name]
  {
    assert IsAsciiDigit(name[..|name| - 4][0]);
    forall j | 0 <= j < |name|
      ensures name[j] != '/'
    {
      if j < |name| - 4 {
        assert IsAsciiDigit(name[..|name| - 4][j]);
      } else {
        assert name[j] == ".mp3"[j - (|name| - 4)];
      }
    }
    assert IsComponent(name);
    ComponentsOfJoin([name]);
  }
}
