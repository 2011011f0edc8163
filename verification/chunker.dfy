/** The markup side of `epub2audio/preprocess.py`: the children of an element
    as text and element nodes, the depth-first visit that turns a tree into
    enter / text / exit events, the chunking visitor that cuts the text at
    breaking elements, and `ContentPreprocessor.process`, which ties them to
    the text normaliser. */
module Chunker {
  import opened Wrappers
  import opened Common
  import opened Markup
  import opened TextFilters

  // -----------------------------------------------------------------------
  // get_children and visit

  /** A child as `get_children` yields it: a text node or an element. */
  datatype Node = TextNode(text: string) | ElementNode(element: Element)

  /** What the visitor is told, in order. Only the tag and the attributes of
      an element matter to the chunking visitor. */
  datatype Event =
    | Enter(tag: string, attrs: map<string, string>)
    | Exit(tag: string)
    | Text(text: string)

  function OptionalText(t: Option<string>): seq<Node> {
    if t.Some? then [TextNode(t.value)] else []
  }

  /** Each child followed by its tail, when it has one. */
  function ChildNodes(cs: seq<Element>): (r: seq<Node>)
    ensures forall i :: 0 <= i < |r| && r[i].ElementNode? ==> r[i].element in cs
  {
    if |cs| == 0 then []
    else [ElementNode(cs[0])] + OptionalText(cs[0].tail) + ChildNodes(cs[1..])
  }

  /** `get_children`: the element's text, when it has one, then each child
      followed by that child's tail. */
  function GetChildren(e: Element): (r: seq<Node>)
    ensures forall i :: 0 <= i < |r| && r[i].ElementNode? ==> r[i].element in e.children
  {
    OptionalText(e.text) + ChildNodes(e.children)
  }

  /** `visit` on an element: enter, visit each node `get_children` yields,
      exit. */
  function VisitElement(e: Element): seq<Event>
    decreases e, |GetChildren(e)| + 1
  {
    [Enter(e.tag, e.attrs)] + VisitNodes(GetChildren(e), e) + [Exit(e.tag)]
  }

  /** `visit` on each node in turn; every element node is a child of
      `parent`. */
  function VisitNodes(ns: seq<Node>, parent: Element): seq<Event>
    requires forall i :: 0 <= i < |ns| && ns[i].ElementNode? ==> ns[i].element in parent.children
    decreases parent, |ns|
  {
    if |ns| == 0 then []
    else
      var head := if ns[0].TextNode? then [Text(ns[0].text)]
        else assert ns[0].element in parent.children; VisitElement(ns[0].element);
      head + VisitNodes(ns[1..], parent)
  }

  function OptionalTextEvent(t: Option<string>): seq<Event> {
    if t.Some? then [Text(t.value)] else []
  }

  /** The document-order event stream written out directly: enter, the text,
      each child's whole stream followed by its tail, exit. */
  function Events(e: Element): (r: seq<Event>)
    ensures |r| >= 2 && r[0] == Enter(e.tag, e.attrs) && r[|r| - 1] == Exit(e.tag)
    decreases e, 1
  {
    [Enter(e.tag, e.attrs)] + OptionalTextEvent(e.text) + ChildEvents(e.children) + [Exit(e.tag)]
  }

  function ChildEvents(cs: seq<Element>): seq<Event>
    decreases cs, 0
  {
    if |cs| == 0 then []
    else Events(cs[0]) + OptionalTextEvent(cs[0].tail) + ChildEvents(cs[1..])
  }

  lemma {:induction false} VisitNodesAppend(a: seq<Node>, b: seq<Node>, parent: Element)
    requires forall i :: 0 <= i < |a| && a[i].ElementNode? ==> a[i].element in parent.children
    requires forall i :: 0 <= i < |b| && b[i].ElementNode? ==> b[i].element in parent.children
    ensures VisitNodes(a + b, parent) == VisitNodes(a, parent) + VisitNodes(b, parent)
  {
    if |a| > 0 {
      assert (a + b)[0] == a[0];
      assert (a + b)[1..] == a[1..] + b;
      VisitNodesAppend(a[1..], b, parent);
    } else {
      assert a + b == b;
    }
  }

  /** The visit produces exactly the document-order stream. */
  lemma {:induction false} VisitIsDocumentOrder(e: Element)
    ensures VisitElement(e) == Events(e)
    decreases e, 1
  {
    VisitNodesAppend(OptionalText(e.text), ChildNodes(e.children), e);
    VisitChildNodes(e.children, e);
    VisitOptionalText(e.text, e);
    var inner := OptionalTextEvent(e.text) + ChildEvents(e.children);
    assert VisitNodes(GetChildren(e), e) == inner;
    assert VisitElement(e) == [Enter(e.tag, e.attrs)] + inner + [Exit(e.tag)];
    assert [Enter(e.tag, e.attrs)] + inner + [Exit(e.tag)]
        == [Enter(e.tag, e.attrs)] + OptionalTextEvent(e.text) + ChildEvents(e.children) + [Exit(e.tag)];
  }

  lemma VisitOptionalText(t: Option<string>, parent: Element)
    ensures VisitNodes(OptionalText(t), parent) == OptionalTextEvent(t)
  {
    if t.Some? {
      assert OptionalText(t)[1..] == [];
    }
  }

  lemma {:induction false} VisitChildNodes(cs: seq<Element>, parent: Element)
    requires forall i :: 0 <= i < |cs| ==> cs[i] in parent.children
    ensures VisitNodes(ChildNodes(cs), parent) == ChildEvents(cs)
    decreases cs, 0
  {
    if |cs| > 0 {
      var c := cs[0];
      var head := [ElementNode(c)] + OptionalText(c.tail);
      assert ChildNodes(cs) == head + ChildNodes(cs[1..]);
      VisitNodesAppend(head, ChildNodes(cs[1..]), parent);
      VisitNodesAppend([ElementNode(c)], OptionalText(c.tail), parent);
      VisitIsDocumentOrder(c);
      assert VisitNodes([ElementNode(c)], parent) == VisitElement(c);
      VisitChildNodes(cs[1..], parent);
    }
  }

  // -----------------------------------------------------------------------
  // ChunkingVisitor

  const DefaultBreaking: set<string> :=
    {"h1", "h2", "h3", "h4", "h5", "h6", "p", "blockquote", "ul", "ol", "li", "dl", "dt", "dd", "img"}

  /** The visitor's accumulator and the chunks handed to the sink so far. */
  datatype ChunkState = ChunkState(current: string, sunk: seq<string>)

  const Initial := ChunkState("", [])

  /** The text the visitor appends for an image: its description when `alt`
      is present and not empty. */
  function ImageText(attrs: map<string, string>): (r: string)
    ensures "alt" in attrs && attrs["alt"] != "" ==> r == "Image with description " + attrs["alt"]
    ensures !("alt" in attrs && attrs["alt"] != "") ==> r == "Image without a description"
    ensures r != ""
  {
    match Get(Element("img", attrs, None, [], None), "alt")
    case Some(alt) => if alt != "" then "Image with description " + alt else "Image without a description"
    case None => "Image without a description"
  }

  /** `_maybe_emit_chunk`. */
  function MaybeEmit(st: ChunkState, tag: string, breaking: set<string>): ChunkState
  {
    if tag in breaking then
      ChunkState("", if st.current != "" then st.sunk + [st.current] else st.sunk)
    else st
  }

  /** One visitor callback. */
  function Step(st: ChunkState, ev: Event, breaking: set<string>): (r: ChunkState)
    ensures |st.sunk| <= |r.sunk| && r.sunk[..|st.sunk|] == st.sunk
    ensures NoEmptyChunk(st.sunk) ==> NoEmptyChunk(r.sunk)
  {
    match ev
    case Enter(tag, attrs) =>
      var flushed := MaybeEmit(st, tag, breaking);
      if tag == "img" then flushed.(current := flushed.current + ImageText(attrs)) else flushed
    case Exit(tag) => MaybeEmit(st, tag, breaking)
    case Text(t) => st.(current := st.current + t)
  }

  /** The callbacks of a whole stream, in order. */
  function Run(st: ChunkState, evs: seq<Event>, breaking: set<string>): (r: ChunkState)
    ensures |st.sunk| <= |r.sunk| && r.sunk[..|st.sunk|] == st.sunk
    decreases |evs|
  {
    if |evs| == 0 then st else Run(Step(st, evs[0], breaking), evs[1..], breaking)
  }

  /** The text an event feeds to `text_node`. */
  function TextInput(ev: Event): string {
    match ev
    case Enter(tag, attrs) => if tag == "img" then ImageText(attrs) else ""
    case Exit(_) => ""
    case Text(t) => t
  }

  function TextInputs(evs: seq<Event>): string {
    if |evs| == 0 then "" else TextInput(evs[0]) + TextInputs(evs[1..])
  }

  /** The chunks joined in order. */
  function Concat(ss: seq<string>): string {
    if |ss| == 0 then "" else Concat(ss[..|ss| - 1]) + ss[|ss| - 1]
  }

  lemma ConcatSnoc(ss: seq<string>, s: string)
    ensures Concat(ss + [s]) == Concat(ss) + s
  {
    assert (ss + [s])[..|ss|] == ss;
  }

  predicate NoEmptyChunk(ss: seq<string>) {
    forall i :: 0 <= i < |ss| ==> ss[i] != ""
  }

  /** A breaking tag empties the accumulator, and the sink is handed exactly
      the non-empty accumulator; any other tag changes nothing. */
  lemma MaybeEmitFlushes(st: ChunkState, tag: string, breaking: set<string>)
    ensures tag in breaking ==> MaybeEmit(st, tag, breaking).current == ""
    ensures tag in breaking && st.current != "" ==> MaybeEmit(st, tag, breaking).sunk == st.sunk + [st.current]
    ensures tag in breaking && st.current == "" ==> MaybeEmit(st, tag, breaking).sunk == st.sunk
    ensures tag !in breaking ==> MaybeEmit(st, tag, breaking) == st
  {
  }

  /** Every callback keeps the joined text: what was sunk, then the
      accumulator, is the old text followed by the callback's input. */
  lemma StepConserves(st: ChunkState, ev: Event, breaking: set<string>)
    ensures var st' := Step(st, ev, breaking);
            Concat(st'.sunk) + st'.current == Concat(st.sunk) + st.current + TextInput(ev)
  {
    match ev
    case Enter(tag, attrs) =>
      var flushed := MaybeEmit(st, tag, breaking);
      MaybeEmitConserves(st, tag, breaking);
      if tag == "img" {
        assert Concat(flushed.sunk) + (flushed.current + ImageText(attrs))
            == (Concat(flushed.sunk) + flushed.current) + ImageText(attrs);
      } else {
        assert TextInput(ev) == "";
      }
    case Exit(tag) =>
      MaybeEmitConserves(st, tag, breaking);
    case Text(t) =>
      assert Concat(st.sunk) + (st.current + t) == (Concat(st.sunk) + st.current) + t;
  }

  lemma MaybeEmitConserves(st: ChunkState, tag: string, breaking: set<string>)
    ensures var m := MaybeEmit(st, tag, breaking);
            Concat(m.sunk) + m.current == Concat(st.sunk) + st.current
  {
    if tag in breaking && st.current != "" {
      ConcatSnoc(st.sunk, st.current);
      assert Concat(st.sunk + [st.current]) + "" == Concat(st.sunk + [st.current]);
    } else if tag in breaking {
      assert Concat(st.sunk) + "" == Concat(st.sunk);
    }
  }

  /** The sink is never handed an empty chunk. */
  lemma StepSinksNoEmpty(st: ChunkState, ev: Event, breaking: set<string>)
    requires NoEmptyChunk(st.sunk)
    ensures NoEmptyChunk(Step(st, ev, breaking).sunk)
    ensures |st.sunk| <= |Step(st, ev, breaking).sunk| && Step(st, ev, breaking).sunk[..|st.sunk|] == st.sunk
  {
  }

  /** Only breaking tags flush, on entry (before any image text) and on
      exit; a non-breaking tag adds its text input and sinks nothing. */
  lemma StepBoundaries(st: ChunkState, ev: Event, breaking: set<string>)
    ensures ev.Exit? && ev.tag in breaking ==> Step(st, ev, breaking).current == ""
    ensures ev.Enter? && ev.tag in breaking ==> Step(st, ev, breaking).current == TextInput(ev)
    ensures (ev.Enter? || ev.Exit?) && ev.tag in breaking && st.current != "" ==>
              Step(st, ev, breaking).sunk == st.sunk + [st.current]
    ensures (ev.Enter? || ev.Exit?) && ev.tag !in breaking ==>
              Step(st, ev, breaking) == st.(current := st.current + TextInput(ev))
    ensures ev.Text? ==> Step(st, ev, breaking) == st.(current := st.current + ev.text)
  {
  }

  /** Conservation over a whole stream: the chunks handed to the sink,
      followed by the accumulator, are all text inputs in order. */
  lemma {:induction false} RunConserves(st: ChunkState, evs: seq<Event>, breaking: set<string>)
    ensures var fin := Run(st, evs, breaking);
            Concat(fin.sunk) + fin.current == Concat(st.sunk) + st.current + TextInputs(evs)
    decreases |evs|
  {
    if |evs| > 0 {
      StepConserves(st, evs[0], breaking);
      RunConserves(Step(st, evs[0], breaking), evs[1..], breaking);
    }
  }

  /** Over a whole stream the sink is never handed an empty chunk, and
      earlier chunks are never changed. */
  lemma {:induction false} RunSinksNoEmpty(st: ChunkState, evs: seq<Event>, breaking: set<string>)
    requires NoEmptyChunk(st.sunk)
    ensures NoEmptyChunk(Run(st, evs, breaking).sunk)
    ensures |st.sunk| <= |Run(st, evs, breaking).sunk|
    ensures Run(st, evs, breaking).sunk[..|st.sunk|] == st.sunk
    decreases |evs|
  {
    if |evs| > 0 {
      var st1 := Step(st, evs[0], breaking);
      StepSinksNoEmpty(st, evs[0], breaking);
      RunSinksNoEmpty(st1, evs[1..], breaking);
      var fin := Run(st, evs, breaking);
      assert fin.sunk[..|st.sunk|] == fin.sunk[..|st1.sunk|][..|st.sunk|];
    }
  }

  /** Under the default set an image is its own chunk: entering it flushes
      the text before it, and leaving it hands over the image text alone. */
  lemma ImageIsOwnChunk(st: ChunkState, attrs: map<string, string>)
    ensures var fin := Run(st, [Enter("img", attrs), Exit("img")], DefaultBreaking);
            && fin.current == ""
            && fin.sunk == (if st.current != "" then st.sunk + [st.current] else st.sunk) + [ImageText(attrs)]
  {
    assert "img" in DefaultBreaking;
    var evs := [Enter("img", attrs), Exit("img")];
    var st1 := Step(st, evs[0], DefaultBreaking);
    assert st1.current == ImageText(attrs);
    assert evs[1..] == [Exit("img")];
    assert Run(st, evs, DefaultBreaking) == Run(st1, [Exit("img")], DefaultBreaking);
    assert Run(st1, [Exit("img")], DefaultBreaking) == Step(st1, Exit("img"), DefaultBreaking);
  }

  /** The chunks `visit(body, ChunkingVisitor(sink))` hands to the sink: no
      final flush follows the visit. */
  function RawChunks(body: Element, breaking: set<string>): (r: seq<string>)
    ensures NoEmptyChunk(r)
  {
    RunSinksNoEmpty(Initial, VisitElement(body), breaking);
    Run(Initial, VisitElement(body), breaking).sunk
  }

  /** Text after the last breaking boundary never reaches the sink: the
      raw chunks, joined, are a proper prefix of the body's text whenever the
      accumulator is left non-empty. */
  lemma RawChunksDropTrailingText(body: Element, breaking: set<string>)
    ensures var fin := Run(Initial, VisitElement(body), breaking);
            Concat(RawChunks(body, breaking)) + fin.current == TextInputs(Events(body))
    ensures NoEmptyChunk(RawChunks(body, breaking))
  {
    VisitIsDocumentOrder(body);
    RunConserves(Initial, VisitElement(body), breaking);
    RunSinksNoEmpty(Initial, VisitElement(body), breaking);
  }

  /** `<body><p>a</p>tail</body>`: the paragraph is a chunk, while the tail
      after it is left in the accumulator and never reaches the sink. */
  lemma TrailingTextIsDropped()
    ensures var p := Element("p", map[], Some("a"), [], Some("tail"));
            var body := Element("body", map[], None, [p], None);
            && RawChunks(body, DefaultBreaking) == ["a"]
            && Run(Initial, VisitElement(body), DefaultBreaking).current == "tail"
  {
    var p := Element("p", map[], Some("a"), [], Some("tail"));
    var body := Element("body", map[], None, [p], None);
    VisitIsDocumentOrder(body);
    assert Events(p) == [Enter("p", map[]), Text("a"), Exit("p")];
    assert ChildEvents([p]) == Events(p) + [Text("tail")];
    var evs := [Enter("body", map[]), Enter("p", map[]), Text("a"), Exit("p"), Text("tail"), Exit("body")];
    assert Events(body) == evs;
    assert "p" in DefaultBreaking && "body" !in DefaultBreaking;
    var st1 := Step(Initial, evs[0], DefaultBreaking);
    assert st1 == Initial;
    var st2 := Step(st1, evs[1], DefaultBreaking);
    assert st2 == Initial;
    var st3 := Step(st2, evs[2], DefaultBreaking);
    assert st3 == ChunkState("a", []);
    var st4 := Step(st3, evs[3], DefaultBreaking);
    assert st4 == ChunkState("", ["a"]);
    var st5 := Step(st4, evs[4], DefaultBreaking);
    assert st5 == ChunkState("tail", ["a"]);
    var st6 := Step(st5, evs[5], DefaultBreaking);
    assert st6 == st5;
    assert Run(st6, evs[6..], DefaultBreaking) == st6;
    assert Run(st5, evs[5..], DefaultBreaking) == st6;
    assert Run(st4, evs[4..], DefaultBreaking) == st6;
    assert Run(st3, evs[3..], DefaultBreaking) == st6;
    assert Run(st2, evs[2..], DefaultBreaking) == st6;
    assert Run(st1, evs[1..], DefaultBreaking) == st6;
  }

  // -----------------------------------------------------------------------
  // ContentPreprocessor.process

  datatype Document = Document(title: Option<string>, contentChunks: seq<string>)

  datatype PreprocessError = MissingBody

  /** `_filter_text` applied to each raw chunk, in order. */
  function Normalized(raw: seq<string>): (r: seq<string>)
    ensures |r| == |raw|
  {
    seq(|raw|, i requires 0 <= i < |raw| => FilterText(raw[i]))
  }

  predicate IsNonEmpty(s: string) {
    s != ""
  }

  /** The non-empty strings of `all`, in order, each as often as it occurs. */
  function KeepNonEmpty(all: seq<string>): (r: seq<string>)
    ensures NoEmptyChunk(r)
    ensures IsSubsequence(r, all)
    ensures forall i :: 0 <= i < |all| && all[i] != "" ==> all[i] in r
    ensures forall c :: multiset(r)[c] == if c != "" then multiset(all)[c] else 0
  {
    FilterCounts(all, IsNonEmpty);
    Filter(all, IsNonEmpty)
  }

  /** What the `consume` sink collects: the normalised chunks, with those that
      normalise to "" dropped. */
  function NormalizedChunks(raw: seq<string>): (r: seq<string>)
    ensures NoEmptyChunk(r)
    ensures IsSubsequence(r, Normalized(raw))
    ensures forall i :: 0 <= i < |raw| && FilterText(raw[i]) != "" ==> FilterText(raw[i]) in r
    ensures forall c :: multiset(r)[c] == if c != "" then multiset(Normalized(raw))[c] else 0
  {
    var all := Normalized(raw);
    assert forall i :: 0 <= i < |raw| ==> all[i] == FilterText(raw[i]);
    KeepNonEmpty(all)
  }

  /** `process` on a parsed document: the text of the first `title` element,
      unnormalised (None when there is none or it has no text), and the
      normalised chunks of the first `body` element. */
  function Process(root: Element): (r: Result<Document, PreprocessError>)
    ensures r.Err? <==> |FindAll(root, "body")| == 0
    ensures r.Ok? ==> NoEmptyChunk(r.value.contentChunks)
    ensures r.Ok? ==> r.value.contentChunks == NormalizedChunks(RawChunks(FindAll(root, "body")[0], DefaultBreaking))
    ensures r.Ok? && |FindAll(root, "title")| == 0 ==> r.value.title == None
    ensures r.Ok? && |FindAll(root, "title")| > 0 ==> r.value.title == FindAll(root, "title")[0].text
  {
    var titleText := match First(FindAll(root, "title"))
      case Some(t) => t.text
      case None => None;
    match First(FindAll(root, "body"))
    case None => Err(MissingBody)
    case Some(body) => Ok(Document(titleText, NormalizedChunks(RawChunks(body, DefaultBreaking))))
  }
}
