/** `epub2audio/epub.py`: opening an EPUB container, reading its package
    document (title, creator, manifest, spine) and resolving the spine
    against the manifest. The zip archive is given with its XML entries
    already parsed. */
module Epub {
  import opened Wrappers
  import opened Common
  import opened Markup
  import Paths

  const OpfNamespace := "http://www.idpf.org/2007/opf"
  const DcNamespace := "http://purl.org/dc/elements/1.1/"
  const ContainerNamespace := "urn:oasis:names:tc:opendocument:xmlns:container"

  /** A namespaced tag as `lxml` spells it. */
  function Qualified(namespace: string, local: string): string {
    "{" + namespace + "}" + local
  }

  const MimetypeEntry := "mimetype"
  const ContainerEntry := "META-INF/container.xml"
  const XhtmlMediaType := "application/xhtml+xml"

  /** The bytes of an ASCII string. */
  function AsciiBytes(s: string): (r: seq<bv8>)
    requires forall i :: 0 <= i < |s| ==> s[i] < 128 as char
    ensures |r| == |s|
  {
    seq(|s|, i requires 0 <= i < |s| => (s[i] as int) as bv8)
  }

  const EpubMimetype: seq<bv8> := AsciiBytes("application/epub+zip")

  /** A manifest entry. */
  datatype Item = Item(href: string, mediaType: string, properties: Option<string>)

  /** A spine entry; `linear` defaults to true. */
  datatype ItemRef = ItemRef(idref: string, linear: bool)

  datatype PackageDocument = PackageDocument(
    title: Option<string>,
    creator: Option<string>,
    manifest: map<string, Item>,
    spine: seq<ItemRef>)

  /** The reasons `EPubFile` raises (an `EPubError`, or a `KeyError` from the
      zip file for a missing entry). */
  datatype EpubError =
    | MissingArchiveEntry(name: string)
    | InvalidEpub
    | MissingRootFile
    | MissingRootFilePath
    | MissingManifest
    | MissingSpine
    | MissingAttribute(element: string, attribute: string)
    | InvalidLinear
    | MissingItem(idref: string)

  /** A zip container: the bytes of the `mimetype` entry if there is one, and
      the XML documents stored under their entry names. */
  datatype Archive = Archive(mimetype: Option<seq<bv8>>, documents: map<string, Element>)

  /** An opened book: where the package document lives and what it says. */
  datatype EpubFile = EpubFile(
    archive: Archive,
    rootFilePath: string,
    rootDirPath: string,
    packageDocument: PackageDocument)

  /** A resolved spine entry (`EPubItem`). */
  datatype SpineEntry = SpineEntry(item: Item, linear: bool)

  /** `_verify_mimetype`: the `mimetype` entry must hold exactly
      `application/epub+zip`. */
  function VerifyMimetype(a: Archive): (r: Outcome<EpubError>)
    ensures r.Pass? <==> a.mimetype == Some(EpubMimetype)
    ensures a.mimetype.None? ==> r == Fail(MissingArchiveEntry(MimetypeEntry))
    ensures a.mimetype.Some? && a.mimetype.value != EpubMimetype ==> r == Fail(InvalidEpub)
  {
    match a.mimetype
    case None => Fail(MissingArchiveEntry(MimetypeEntry))
    case Some(bytes) => if bytes == EpubMimetype then Pass else Fail(InvalidEpub)
  }

  /** Where `_read_container` says the package document is. */
  datatype RootLocation = RootLocation(filePath: string, dirPath: string)

  /** The `rootfile` elements of a container document, in document order. */
  function RootFiles(container: Element): seq<Element> {
    FindChildrenOf(container, Qualified(ContainerNamespace, "rootfiles"),
                   Qualified(ContainerNamespace, "rootfile"))
  }

  /** `_read_container`: the first `rootfile`'s `full-path` is the package
      document, and its parent directory is the root of every `href`. */
  function ReadContainer(a: Archive): (r: Result<RootLocation, EpubError>)
    ensures ContainerEntry !in a.documents ==> r == Err(MissingArchiveEntry(ContainerEntry))
    ensures ContainerEntry in a.documents && |RootFiles(a.documents[ContainerEntry])| == 0 ==>
              r == Err(MissingRootFile)
    ensures r.Ok? <==>
              && ContainerEntry in a.documents
              && |RootFiles(a.documents[ContainerEntry])| > 0
              && "full-path" in RootFiles(a.documents[ContainerEntry])[0].attrs
    ensures r.Ok? ==>
              var path := RootFiles(a.documents[ContainerEntry])[0].attrs["full-path"];
              r.value == RootLocation(Paths.Normalize(path), Paths.Parent(path))
  {
    if ContainerEntry !in a.documents then Err(MissingArchiveEntry(ContainerEntry))
    else
      match First(RootFiles(a.documents[ContainerEntry]))
      case None => Err(MissingRootFile)
      case Some(rootFile) =>
        match Get(rootFile, "full-path")
        case None => Err(MissingRootFilePath)
        case Some(path) => Ok(RootLocation(Paths.Normalize(path), Paths.Parent(path)))
  }

  /** The package directory is the package path minus its file name. */
  lemma RootDirIsParentOfRootFile(a: Archive)
    requires ReadContainer(a).Ok?
    ensures var loc := ReadContainer(a).value;
            var cs := Paths.Components(loc.filePath);
            |cs| > 0 ==> Paths.Components(loc.dirPath) == cs[..|cs| - 1]
  {
    var path := RootFiles(a.documents[ContainerEntry])[0].attrs["full-path"];
    Paths.NormalizeIdempotent(path);
    Paths.ParentComponents(path);
  }

  // ---------------------------------------------------------------------
  // Manifest

  /** The first required attribute a manifest `item` lacks, checked in the
      order `id`, `href`, `media-type`. */
  function ItemProblem(e: Element): (r: Option<EpubError>)
    ensures r.None? <==> "id" in e.attrs && "href" in e.attrs && "media-type" in e.attrs
    ensures "id" !in e.attrs ==> r == Some(MissingAttribute("item", "id"))
    ensures "id" in e.attrs && "href" !in e.attrs ==> r == Some(MissingAttribute("item", "href"))
    ensures "id" in e.attrs && "href" in e.attrs && "media-type" !in e.attrs ==>
              r == Some(MissingAttribute("item", "media-type"))
  {
    if "id" !in e.attrs then Some(MissingAttribute("item", "id"))
    else if "href" !in e.attrs then Some(MissingAttribute("item", "href"))
    else if "media-type" !in e.attrs then Some(MissingAttribute("item", "media-type"))
    else None
  }

  function ItemOf(e: Element): Item
    requires ItemProblem(e).None?
  {
    Item(e.attrs["href"], e.attrs["media-type"], Get(e, "properties"))
  }

  predicate AllItemsWellFormed(items: seq<Element>) {
    forall i :: 0 <= i < |items| ==> ItemProblem(items[i]).None?
  }

  /** `items[i]` is the last item with identifier `id`. */
  predicate IsLastWithId(items: seq<Element>, id: string, i: int)
    requires AllItemsWellFormed(items)
  {
    && 0 <= i < |items|
    && items[i].attrs["id"] == id
    && forall j :: i < j < |items| ==> items[j].attrs["id"] != id
  }

  /** `_parse_manifest`: every item, in document order, must carry `id`,
      `href` and `media-type`; the first that does not decides the error. A
      later item with the same `id` replaces an earlier one. */
  function ParseManifest(items: seq<Element>): (r: Result<map<string, Item>, EpubError>)
    ensures r.Ok? <==> AllItemsWellFormed(items)
    ensures r.Ok? ==> r.value.Keys == set i | 0 <= i < |items| :: items[i].attrs["id"]
  {
    if |items| == 0 then Ok(map[])
    else
      var prefix := items[..|items| - 1];
      var last := items[|items| - 1];
      match ParseManifest(prefix)
      case Err(e) => Err(e)
      case Ok(m) =>
        match ItemProblem(last)
        case Some(e) => Err(e)
        case None =>
          assert forall i :: 0 <= i < |prefix| ==> prefix[i] == items[i];
          Ok(m[last.attrs["id"] := ItemOf(last)])
  }

  /** The error reported is that of the first malformed item. */
  lemma {:induction false} ManifestReportsFirstProblem(items: seq<Element>)
    requires ParseManifest(items).Err?
    ensures exists i :: 0 <= i < |items| && ItemProblem(items[i]) == Some(ParseManifest(items).error) &&
              forall j :: 0 <= j < i ==> ItemProblem(items[j]).None?
  {
    var prefix := items[..|items| - 1];
    if ParseManifest(prefix).Err? {
      ManifestReportsFirstProblem(prefix);
      var i :| 0 <= i < |prefix| && ItemProblem(prefix[i]) == Some(ParseManifest(prefix).error) &&
                forall j :: 0 <= j < i ==> ItemProblem(prefix[j]).None?;
      assert forall j :: 0 <= j <= i ==> prefix[j] == items[j];
    } else {
      assert forall j :: 0 <= j < |prefix| ==> prefix[j] == items[j];
      assert ItemProblem(items[|items| - 1]) == Some(ParseManifest(items).error);
    }
  }

  /** Each identifier maps to the item built from the last element that
      carries it. */
  lemma {:induction false} ManifestKeepsLastItem(items: seq<Element>, id: string)
    requires ParseManifest(items).Ok? && id in ParseManifest(items).value
    ensures exists i :: IsLastWithId(items, id, i) && ParseManifest(items).value[id] == ItemOf(items[i])
  {
    var prefix := items[..|items| - 1];
    var last := items[|items| - 1];
    assert ParseManifest(prefix).Ok?;
    assert ItemProblem(last).None?;
    var m := ParseManifest(prefix).value;
    assert ParseManifest(items).value == m[last.attrs["id"] := ItemOf(last)];
    if id == last.attrs["id"] {
      assert IsLastWithId(items, id, |items| - 1);
    } else {
      ManifestKeepsLastItem(prefix, id);
      var i :| IsLastWithId(prefix, id, i) && m[id] == ItemOf(prefix[i]);
      LastWithIdExtends(items, id, i);
    }
  }

  /** An item whose identifier differs does not displace the last one that
      carries `id`. */
  lemma LastWithIdExtends(items: seq<Element>, id: string, i: int)
    requires |items| > 0 && AllItemsWellFormed(items) && AllItemsWellFormed(items[..|items| - 1])
    requires IsLastWithId(items[..|items| - 1], id, i)
    requires items[|items| - 1].attrs["id"] != id
    ensures IsLastWithId(items, id, i) && items[i] == items[..|items| - 1][i]
  {
    var prefix := items[..|items| - 1];
    forall j | i < j < |items|
      ensures items[j].attrs["id"] != id
    {
      if j < |items| - 1 {
        assert items[j] == prefix[j];
      }
    }
  }

  // ---------------------------------------------------------------------
  // Spine

  /** The `linear` attribute: absent, `true` or `yes` is linear; `false` or
      `no` is not; any other spelling, in any case, is rejected. */
  function ParseLinear(v: Option<string>): (r: Result<bool, EpubError>)
    ensures r == Ok(true) <==> v.None? || v == Some("true") || v == Some("yes")
    ensures r == Ok(false) <==> v == Some("false") || v == Some("no")
    ensures r.Err? ==> r.error == InvalidLinear
  {
    match v
    case None => Ok(true)
    case Some(s) =>
      if s == "true" || s == "yes" then Ok(true)
      else if s == "false" || s == "no" then Ok(false)
      else Err(InvalidLinear)
  }

  /** One `itemref`: the required `idref` and the parsed `linear` flag. */
  function ItemRefOf(e: Element): (r: Result<ItemRef, EpubError>)
    ensures "idref" !in e.attrs ==> r == Err(MissingAttribute("itemref", "idref"))
    ensures r.Ok? <==> "idref" in e.attrs && ParseLinear(Get(e, "linear")).Ok?
    ensures r.Ok? ==> r.value == ItemRef(e.attrs["idref"], ParseLinear(Get(e, "linear")).value)
    ensures "idref" in e.attrs && ParseLinear(Get(e, "linear")).Err? ==> r == Err(ParseLinear(Get(e, "linear")).error)
  {
    match Get(e, "idref")
    case None => Err(MissingAttribute("itemref", "idref"))
    case Some(idref) =>
      match ParseLinear(Get(e, "linear"))
      case Err(err) => Err(err)
      case Ok(linear) => Ok(ItemRef(idref, linear))
  }

  /** `_parse_spine`: one entry per `itemref`, in document order; the first
      bad `itemref` decides the error. */
  function ParseSpine(itemrefs: seq<Element>): (r: Result<seq<ItemRef>, EpubError>)
    ensures r.Ok? <==> forall i :: 0 <= i < |itemrefs| ==> ItemRefOf(itemrefs[i]).Ok?
    ensures r.Ok? ==> |r.value| == |itemrefs|
    ensures r.Ok? ==> forall i :: 0 <= i < |itemrefs| ==> Ok(r.value[i]) == ItemRefOf(itemrefs[i])
    ensures r.Err? ==>
              exists i :: 0 <= i < |itemrefs| && ItemRefOf(itemrefs[i]) == Err(r.error) &&
                forall j :: 0 <= j < i ==> ItemRefOf(itemrefs[j]).Ok?
  {
    if |itemrefs| == 0 then Ok([])
    else
      var prefix := itemrefs[..|itemrefs| - 1];
      assert forall i :: 0 <= i < |prefix| ==> prefix[i] == itemrefs[i];
      match ParseSpine(prefix)
      case Err(e) => Err(e)
      case Ok(refs) =>
        match ItemRefOf(itemrefs[|itemrefs| - 1])
        case Err(e) => Err(e)
        case Ok(ref) =>
          assert forall i :: 0 <= i < |refs| ==> (refs + [ref])[i] == refs[i];
          Ok(refs + [ref])
  }

  // ---------------------------------------------------------------------
  // Package document

  /** The text of the first element of a query result, if there is one and
      it has text. */
  function FirstText(es: seq<Element>): (r: Option<string>)
    ensures r.Some? <==> |es| > 0 && es[0].text.Some?
    ensures r.Some? ==> r == es[0].text
  {
    match First(es)
    case None => None
    case Some(e) => e.text
  }

  function Titles(root: Element): seq<Element> {
    FindChildrenOf(root, Qualified(OpfNamespace, "metadata"), Qualified(DcNamespace, "title"))
  }

  function Creators(root: Element): seq<Element> {
    FindChildrenOf(root, Qualified(OpfNamespace, "metadata"), Qualified(DcNamespace, "creator"))
  }

  /** `_read_package_document` on the parsed package document. The `item`
      and `itemref` queries search the whole document, not only inside the
      manifest and spine elements. */
  function ParsePackageDocument(root: Element): (r: Result<PackageDocument, EpubError>)
    ensures |FindAll(root, Qualified(OpfNamespace, "manifest"))| == 0 ==> r == Err(MissingManifest)
    ensures (&& |FindAll(root, Qualified(OpfNamespace, "manifest"))| > 0
             && ParseManifest(FindAll(root, Qualified(OpfNamespace, "item"))).Ok?
             && |FindAll(root, Qualified(OpfNamespace, "spine"))| == 0) ==> r == Err(MissingSpine)
    ensures r.Ok? <==>
              && |FindAll(root, Qualified(OpfNamespace, "manifest"))| > 0
              && |FindAll(root, Qualified(OpfNamespace, "spine"))| > 0
              && ParseManifest(FindAll(root, Qualified(OpfNamespace, "item"))).Ok?
              && ParseSpine(FindAll(root, Qualified(OpfNamespace, "itemref"))).Ok?
    ensures (&& |FindAll(root, Qualified(OpfNamespace, "manifest"))| > 0
             && ParseManifest(FindAll(root, Qualified(OpfNamespace, "item"))).Err?) ==>
              r == Err(ParseManifest(FindAll(root, Qualified(OpfNamespace, "item"))).error)
    ensures (&& |FindAll(root, Qualified(OpfNamespace, "manifest"))| > 0
             && ParseManifest(FindAll(root, Qualified(OpfNamespace, "item"))).Ok?
             && |FindAll(root, Qualified(OpfNamespace, "spine"))| > 0
             && ParseSpine(FindAll(root, Qualified(OpfNamespace, "itemref"))).Err?) ==>
              r == Err(ParseSpine(FindAll(root, Qualified(OpfNamespace, "itemref"))).error)
    ensures r.Ok? ==> r.value.title == FirstText(Titles(root))
    ensures r.Ok? ==> r.value.creator == FirstText(Creators(root))
    ensures r.Ok? ==> r.value.manifest == ParseManifest(FindAll(root, Qualified(OpfNamespace, "item"))).value
    ensures r.Ok? ==> r.value.spine == ParseSpine(FindAll(root, Qualified(OpfNamespace, "itemref"))).value
  {
    var title := FirstText(Titles(root));
    var creator := FirstText(Creators(root));
    if |FindAll(root, Qualified(OpfNamespace, "manifest"))| == 0 then Err(MissingManifest)
    else
      match ParseManifest(FindAll(root, Qualified(OpfNamespace, "item")))
      case Err(e) => Err(e)
      case Ok(manifest) =>
        if |FindAll(root, Qualified(OpfNamespace, "spine"))| == 0 then Err(MissingSpine)
        else
          match ParseSpine(FindAll(root, Qualified(OpfNamespace, "itemref")))
          case Err(e) => Err(e)
          case Ok(spine) => Ok(PackageDocument(title, creator, manifest, spine))
  }

  /** `EPubFile(path)`: check the marker, find the package document, read it. */
  function Open(a: Archive): (r: Result<EpubFile, EpubError>)
    ensures VerifyMimetype(a).Fail? ==> r == Err(VerifyMimetype(a).error)
    ensures VerifyMimetype(a).Pass? && ReadContainer(a).Err? ==> r == Err(ReadContainer(a).error)
    ensures r.Ok? <==>
              && VerifyMimetype(a).Pass?
              && ReadContainer(a).Ok?
              && ReadContainer(a).value.filePath in a.documents
              && ParsePackageDocument(a.documents[ReadContainer(a).value.filePath]).Ok?
    ensures r.Ok? ==> a.mimetype == Some(EpubMimetype)
    ensures (&& VerifyMimetype(a).Pass? && ReadContainer(a).Ok?
             && ReadContainer(a).value.filePath !in a.documents) ==>
              r == Err(MissingArchiveEntry(ReadContainer(a).value.filePath))
    ensures (&& VerifyMimetype(a).Pass? && ReadContainer(a).Ok?
             && ReadContainer(a).value.filePath in a.documents
             && ParsePackageDocument(a.documents[ReadContainer(a).value.filePath]).Err?) ==>
              r == Err(ParsePackageDocument(a.documents[ReadContainer(a).value.filePath]).error)
    ensures r.Ok? ==>
              var loc := ReadContainer(a).value;
              r.value == EpubFile(a, loc.filePath, loc.dirPath, ParsePackageDocument(a.documents[loc.filePath]).value)
  {
    match VerifyMimetype(a)
    case Fail(e) => Err(e)
    case Pass =>
      match ReadContainer(a)
      case Err(e) => Err(e)
      case Ok(loc) =>
        if loc.filePath !in a.documents then Err(MissingArchiveEntry(loc.filePath))
        else
          match ParsePackageDocument(a.documents[loc.filePath])
          case Err(e) => Err(e)
          case Ok(pd) => Ok(EpubFile(a, loc.filePath, loc.dirPath, pd))
  }

  /** The archive entry `EPubItem.open` reads: the item's `href` under the
      package directory. */
  function EntryPath(book: EpubFile, entry: SpineEntry): string {
    Paths.JoinPath(book.rootDirPath, entry.item.href)
  }

  // ---------------------------------------------------------------------
  // Spine resolution

  /** What iterating `spine()` observes: the entries yielded, and the error
      raised after them, if any. */
  datatype SpineWalk = SpineWalk(yielded: seq<SpineEntry>, failure: Option<EpubError>)

  /** The manifest item an `itemref` names, with the `itemref`'s flag. */
  function Resolve(ref: ItemRef, manifest: map<string, Item>): SpineEntry
    requires ref.idref in manifest
  {
    SpineEntry(manifest[ref.idref], ref.linear)
  }

  /** `spine()`: resolve each `itemref` in spine order, stopping with an
      error at the first `idref` the manifest lacks. */
  function WalkSpine(pd: PackageDocument): (r: SpineWalk)
    ensures |r.yielded| <= |pd.spine|
    ensures forall i :: 0 <= i < |r.yielded| ==>
              pd.spine[i].idref in pd.manifest && r.yielded[i] == Resolve(pd.spine[i], pd.manifest)
    ensures r.failure.None? <==> |r.yielded| == |pd.spine|
    ensures r.failure.Some? ==>
              && pd.spine[|r.yielded|].idref !in pd.manifest
              && r.failure.value == MissingItem(pd.spine[|r.yielded|].idref)
  {
    Walk(pd.spine, pd.manifest)
  }

  function Walk(refs: seq<ItemRef>, manifest: map<string, Item>): (r: SpineWalk)
    ensures |r.yielded| <= |refs|
    ensures forall i :: 0 <= i < |r.yielded| ==>
              refs[i].idref in manifest && r.yielded[i] == Resolve(refs[i], manifest)
    ensures r.failure.None? <==> |r.yielded| == |refs|
    ensures r.failure.Some? ==>
              && refs[|r.yielded|].idref !in manifest
              && r.failure.value == MissingItem(refs[|r.yielded|].idref)
  {
    if |refs| == 0 then SpineWalk([], None)
    else if refs[0].idref !in manifest then SpineWalk([], Some(MissingItem(refs[0].idref)))
    else
      var rest := Walk(refs[1..], manifest);
      SpineWalk([Resolve(refs[0], manifest)] + rest.yielded, rest.failure)
  }

  /** `list(book.spine())`: every entry, or the error of the first
      unresolvable one. */
  function Spine(pd: PackageDocument): (r: Result<seq<SpineEntry>, EpubError>)
    ensures r.Ok? <==> forall i :: 0 <= i < |pd.spine| ==> pd.spine[i].idref in pd.manifest
    ensures r.Ok? ==> |r.value| == |pd.spine|
    ensures r.Ok? ==> forall i :: 0 <= i < |pd.spine| ==>
              pd.spine[i].idref in pd.manifest && r.value[i] == Resolve(pd.spine[i], pd.manifest)
    ensures r.Err? ==>
              exists i :: 0 <= i < |pd.spine| && pd.spine[i].idref !in pd.manifest &&
                r.error == MissingItem(pd.spine[i].idref) &&
                forall j :: 0 <= j < i ==> pd.spine[j].idref in pd.manifest
  {
    var walk := WalkSpine(pd);
    match walk.failure
    case Some(e) => Err(e)
    case None => Ok(walk.yielded)
  }

  // ---------------------------------------------------------------------
  // Properties

  /** Attribute values are case-sensitive: `True` is not a valid `linear`. */
  lemma LinearIsCaseSensitive()
    ensures ParseLinear(Some("True")) == Err(InvalidLinear)
    ensures ParseLinear(Some("YES")) == Err(InvalidLinear)
    ensures ParseLinear(Some("")) == Err(InvalidLinear)
    ensures ParseLinear(None) == Ok(true)
  {
  }

  /** A duplicate `id` keeps the later item. */
  lemma DuplicateIdKeepsLast(first: Element, second: Element)
    requires ItemProblem(first).None? && ItemProblem(second).None?
    requires first.attrs["id"] == second.attrs["id"]
    ensures ParseManifest([first, second]) == Ok(map[first.attrs["id"] := ItemOf(second)])
  {
    var id := first.attrs["id"];
    assert [first, second][..1] == [first];
    assert [first][..0] == [];
    assert ParseManifest([first]) == Ok(map[id := ItemOf(first)]);
    assert map[id := ItemOf(first)][id := ItemOf(second)] == map[id := ItemOf(second)];
  }
}
