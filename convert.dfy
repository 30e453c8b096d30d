/**
 * One conversion (processFile, main.go:371-512, with addImageToZip,
 * main.go:556-583): locate the package document through
 * META-INF/container.xml, resolve the spine, collect the image references
 * of every page in spine order, copy each image under its normalised name,
 * and add a ComicInfo record when one of the eight recognised metadata
 * elements occurs at least once. The XML and HTML decoders are parameters;
 * the output archive is the sequence of entries written to it.
 */
module Convert {
  import opened Wrappers
  import opened Selections
  import opened Bytes
  import opened FilePath
  import opened Epub
  import opened Zip
  import opened Spine
  import opened Xhtml
  import opened Naming
  import opened ComicInfoMapping

  const CONTAINER_PATH := "META-INF/container.xml"
  const COMIC_INFO_NAME := "ComicInfo.xml"

  /** An image entry of the output archive. */
  datatype OutImage = OutImage(name: string, data: seq<byte>)

  /** What a successful conversion writes: the image entries in order, then ComicInfo.xml if any. */
  datatype Conversion = Conversion(outputPath: string, images: seq<OutImage>, comicInfo: Option<ComicInfo>)

  // ---------------------------------------------------------------------------
  // The page loop (main.go:457-481)

  /** The image references one page contributes: none when it cannot be read. */
  function PageImages(archive: seq<Entry>, page: string, parse: seq<byte> -> Option<Node>): seq<string>
  {
    match PageContent(archive, page)
    case None => []
    case Some(content) => DocumentImages(content, page, parse)
  }

  /** The per-page contributions of pages, joined in page order. */
  function Concat(pages: seq<string>, f: string -> seq<string>): seq<string>
  {
    if pages == [] then [] else Concat(pages[..|pages| - 1], f) + f(pages[|pages| - 1])
  }

  /** PageImages as a value, so that the lemmas about Concat can treat it abstractly. */
  function PageImagesFn(archive: seq<Entry>, parse: seq<byte> -> Option<Node>): string -> seq<string>
  {
    (page: string) => PageImages(archive, page, parse)
  }

  /** imgSrcs after the page loop has run over pages. */
  function CollectedImages(archive: seq<Entry>, pages: seq<string>, parse: seq<byte> -> Option<Node>): seq<string>
  {
    Concat(pages, PageImagesFn(archive, parse))
  }

  method CollectImages(archive: seq<Entry>, pages: seq<string>, parse: seq<byte> -> Option<Node>)
    returns (imgSrcs: seq<string>)
    ensures imgSrcs == CollectedImages(archive, pages, parse)
  {
    imgSrcs := [];
    var i := 0;
    while i < |pages|
      invariant 0 <= i <= |pages|
      invariant imgSrcs == CollectedImages(archive, pages[..i], parse)
    {
      assert pages[..i + 1] == pages[..i] + [pages[i]];
      ConcatSnoc(pages[..i], pages[i], PageImagesFn(archive, parse));
      var pageHref := pages[i];
      var content := ReadPage(archive, pageHref);
      if content.Some? {
        imgSrcs := ExtractImagesFromXhtml(content.value, pageHref, imgSrcs, parse);
      }
      i := i + 1;
    }
    assert pages[..|pages|] == pages;
  }

  /** One more page appends that page's contribution. */
  lemma ConcatSnoc(init: seq<string>, page: string, f: string -> seq<string>)
    ensures Concat(init + [page], f) == Concat(init, f) + f(page)
  {
    var pages := init + [page];
    assert pages[..|pages| - 1] == init;
  }

  /** The contributions of a + b are those of a, then those of b. */
  lemma {:induction false} ConcatAppend(a: seq<string>, b: seq<string>, f: string -> seq<string>)
    ensures Concat(a + b, f) == Concat(a, f) + Concat(b, f)
  {
    if b == [] {
      assert a + b == a;
    } else {
      var init := b[..|b| - 1];
      var last := b[|b| - 1];
      assert b == init + [last];
      assert a + b == (a + init) + [last];
      ConcatAppend(a, init, f);
      ConcatSnoc(a + init, last, f);
      ConcatSnoc(init, last, f);
    }
  }

  /** Pages are visited in spine order: the images of a + b are those of a, then those of b. */
  lemma CollectedImagesAppend(archive: seq<Entry>, a: seq<string>, b: seq<string>,
                              parse: seq<byte> -> Option<Node>)
    ensures CollectedImages(archive, a + b, parse) == CollectedImages(archive, a, parse) + CollectedImages(archive, b, parse)
  {
    ConcatAppend(a, b, PageImagesFn(archive, parse));
  }

  /** A page that cannot be read contributes nothing and leaves the others' order intact. */
  lemma UnreadablePageSkipped(archive: seq<Entry>, a: seq<string>, page: string, b: seq<string>,
                              parse: seq<byte> -> Option<Node>)
    requires PageContent(archive, page).None?
    ensures CollectedImages(archive, a + [page] + b, parse) == CollectedImages(archive, a + b, parse)
  {
    var ap := a + [page];
    var imagesA := CollectedImages(archive, a, parse);
    var imagesB := CollectedImages(archive, b, parse);
    CollectedImagesAppend(archive, ap, b, parse);
    CollectedImagesAppend(archive, a, [page], parse);
    CollectedImagesAppend(archive, a, b, parse);
    UnreadablePageAlone(archive, page, parse);
    calc {
      CollectedImages(archive, ap + b, parse);
      CollectedImages(archive, ap, parse) + imagesB;
      imagesA + CollectedImages(archive, [page], parse) + imagesB;
      { assert imagesA + [] == imagesA; }
      imagesA + imagesB;
    }
  }

  /** A lone unreadable page yields no image sources. */
  lemma UnreadablePageAlone(archive: seq<Entry>, page: string, parse: seq<byte> -> Option<Node>)
    requires PageContent(archive, page).None?
    ensures CollectedImages(archive, [page], parse) == []
  {
    var none: seq<string> := [];
    assert none + [page] == [page];
    ConcatSnoc(none, page, PageImagesFn(archive, parse));
    assert PageImagesFn(archive, parse)(page) == PageImages(archive, page, parse);
  }

  // ---------------------------------------------------------------------------
  // The image loop (main.go:482-485) and addImageToZip (main.go:556-583)

  /** The entry addImageToZip writes for imgPath: none when the image cannot be found or opened. */
  function CopyImage(archive: seq<Entry>, imgPath: string, imageIndex: nat, total: nat): seq<OutImage>
  {
    match OpenEntry(archive, imgPath)
    case Failure(_) => []
    case Success(data) => [OutImage(Base(NormalizeImageName(imgPath, imageIndex, total)), data)]
  }

  method AddImageToZip(archive: seq<Entry>, imgPath: string, imageIndex: nat, total: nat)
    returns (written: seq<OutImage>)
    ensures written == CopyImage(archive, imgPath, imageIndex, total)
  {
    var srcFile := FindAndOpenFile(archive, imgPath);
    if srcFile.Failure? {
      return [];
    }
    var name := Base(NormalizeImageName(imgPath, imageIndex, total));
    return [OutImage(name, srcFile.value)];
  }

  /** The entries written for srcs, the k-th source named with index k out of total. */
  function CopiedImages(archive: seq<Entry>, srcs: seq<string>, total: nat): seq<OutImage>
  {
    if srcs == [] then []
    else CopiedImages(archive, srcs[..|srcs| - 1], total) + CopyImage(archive, srcs[|srcs| - 1], |srcs| - 1, total)
  }

  method AddImages(archive: seq<Entry>, imgSrcs: seq<string>) returns (images: seq<OutImage>)
    ensures images == CopiedImages(archive, imgSrcs, |imgSrcs|)
  {
    images := [];
    var imageIndex := 0;
    while imageIndex < |imgSrcs|
      invariant 0 <= imageIndex <= |imgSrcs|
      invariant images == CopiedImages(archive, imgSrcs[..imageIndex], |imgSrcs|)
    {
      assert imgSrcs[..imageIndex + 1][..imageIndex] == imgSrcs[..imageIndex];
      var src := imgSrcs[imageIndex];
      var written := AddImageToZip(archive, src, imageIndex, |imgSrcs|);
      images := images + written;
      imageIndex := imageIndex + 1;
    }
    assert imgSrcs[..|imgSrcs|] == imgSrcs;
  }

  /** The source can be found and opened. */
  predicate Opens(archive: seq<Entry>, src: string)
  {
    OpenEntry(archive, src).Success?
  }

  /** The bytes of the first entry named src, or none when it cannot be opened. */
  function Contents(archive: seq<Entry>, src: string): seq<byte>
  {
    match OpenEntry(archive, src)
    case Success(data) => data
    case Failure(_) => []
  }

  /** The entry a source that opens is copied to, at position k of total. */
  function CopyOf(archive: seq<Entry>, src: string, k: nat, total: nat): OutImage
  {
    OutImage(NormalizeImageName(src, k, total), Contents(archive, src))
  }

  /** CopyOf as a value, so that the selection lemmas below can treat it abstractly. */
  function CopyFn(archive: seq<Entry>, total: nat): (string, nat) -> OutImage
  {
    (src: string, k: nat) => CopyOf(archive, src, k, total)
  }

  /** The entry written for a source that opens, and nothing for one that does not. */
  lemma CopyImageCases(archive: seq<Entry>, src: string, k: nat, total: nat)
    ensures Opens(archive, src) ==> CopyImage(archive, src, k, total) == [CopyFn(archive, total)(src, k)]
    ensures !Opens(archive, src) ==> CopyImage(archive, src, k, total) == []
  {
    BaseOfName(src, k, total);
  }

  /** Opens as a value, the filter of the image selection. */
  function OpensFn(archive: seq<Entry>): string -> bool
  {
    (src: string) => Opens(archive, src)
  }

  /**
   * The copied images are a selection of the sources that open, each copied
   * by CopyOf and named after its own position k, so a missing source leaves
   * a gap in the numbering instead of shifting the later names.
   */
  ghost predicate ImageSelection(archive: seq<Entry>, srcs: seq<string>, total: nat, images: seq<OutImage>, idx: seq<nat>)
  {
    Selected(srcs, OpensFn(archive), CopyFn(archive, total), images, idx)
  }

  /** The copied images of a non-empty source list extend those of its prefix as its last source decides. */
  lemma CopiedImagesStep(archive: seq<Entry>, srcs: seq<string>, total: nat, idx: seq<nat>)
    requires srcs != []
    requires ImageSelection(archive, srcs[..|srcs| - 1], total, CopiedImages(archive, srcs[..|srcs| - 1], total), idx)
    ensures exists idx' :: ImageSelection(archive, srcs, total, CopiedImages(archive, srcs, total), idx')
  {
    if Opens(archive, srcs[|srcs| - 1]) {
      CopiedImagesStepOpened(archive, srcs, total, idx);
    } else {
      CopiedImagesStepMissing(archive, srcs, total, idx);
    }
  }

  /** The step when the last source opens. */
  lemma CopiedImagesStepOpened(archive: seq<Entry>, srcs: seq<string>, total: nat, idx: seq<nat>)
    requires srcs != [] && Opens(archive, srcs[|srcs| - 1])
    requires ImageSelection(archive, srcs[..|srcs| - 1], total, CopiedImages(archive, srcs[..|srcs| - 1], total), idx)
    ensures ImageSelection(archive, srcs, total, CopiedImages(archive, srcs, total), idx + [|srcs| - 1])
  {
    var copy := CopyFn(archive, total);
    var n := |srcs| - 1;
    var prior := CopiedImages(archive, srcs[..n], total);
    CopyImageCases(archive, srcs[n], n, total);
    assert OpensFn(archive)(srcs[n]);
    ExtendKept(srcs, OpensFn(archive), copy, prior, idx);
    assert CopiedImages(archive, srcs, total) == prior + [copy(srcs[n], n)];
  }

  /** The step when the last source does not open. */
  lemma CopiedImagesStepMissing(archive: seq<Entry>, srcs: seq<string>, total: nat, idx: seq<nat>)
    requires srcs != [] && !Opens(archive, srcs[|srcs| - 1])
    requires ImageSelection(archive, srcs[..|srcs| - 1], total, CopiedImages(archive, srcs[..|srcs| - 1], total), idx)
    ensures ImageSelection(archive, srcs, total, CopiedImages(archive, srcs, total), idx)
  {
    var n := |srcs| - 1;
    var prior := CopiedImages(archive, srcs[..n], total);
    CopyImageCases(archive, srcs[n], n, total);
    assert !OpensFn(archive)(srcs[n]);
    ExtendDropped(srcs, OpensFn(archive), CopyFn(archive, total), prior, idx);
    assert CopiedImages(archive, srcs, total) == prior;
  }

  /** The copied images are exactly the sources that open, in order, each named after its own position. */
  lemma {:induction false} CopiedImagesSelect(archive: seq<Entry>, srcs: seq<string>, total: nat)
    ensures exists idx :: ImageSelection(archive, srcs, total, CopiedImages(archive, srcs, total), idx)
  {
    if srcs == [] {
      SelectedNone(OpensFn(archive), CopyFn(archive, total));
      assert ImageSelection(archive, srcs, total, CopiedImages(archive, srcs, total), []);
    } else {
      var init := srcs[..|srcs| - 1];
      CopiedImagesSelect(archive, init, total);
      var prev: seq<nat> :| ImageSelection(archive, init, total, CopiedImages(archive, init, total), prev);
      CopiedImagesStep(archive, srcs, total, prev);
    }
  }

  /**
   * The image entries of one output never share a name, and none of them is
   * ComicInfo.xml: every name starts with "page".
   */
  lemma CopiedImageNamesDistinct(archive: seq<Entry>, srcs: seq<string>)
    ensures var images := CopiedImages(archive, srcs, |srcs|);
            && (forall j, l | 0 <= j < l < |images| :: images[j].name != images[l].name)
            && (forall j | 0 <= j < |images| :: images[j].name != COMIC_INFO_NAME)
  {
    CopiedImagesSelect(archive, srcs, |srcs|);
    var idx: seq<nat> :| ImageSelection(archive, srcs, |srcs|, CopiedImages(archive, srcs, |srcs|), idx);
    SelectionNamesDistinct(archive, srcs, CopiedImages(archive, srcs, |srcs|), idx);
  }

  lemma SelectionNamesDistinct(archive: seq<Entry>, srcs: seq<string>, images: seq<OutImage>, idx: seq<nat>)
    requires ImageSelection(archive, srcs, |srcs|, images, idx)
    ensures forall j, l | 0 <= j < l < |images| :: images[j].name != images[l].name
    ensures forall j | 0 <= j < |images| :: images[j].name != COMIC_INFO_NAME
  {
    assert forall j | 0 <= j < |images| :: idx[j] < |srcs| && images[j] == CopyOf(archive, srcs[idx[j]], idx[j], |srcs|);
    forall j, l | 0 <= j < l < |images|
      ensures images[j].name != images[l].name
    {
      NamesDistinct(srcs[idx[j]], idx[j], srcs[idx[l]], idx[l], |srcs|);
    }
    forall j | 0 <= j < |images|
      ensures images[j].name != COMIC_INFO_NAME
    {
      NameShape(srcs[idx[j]], idx[j], |srcs|);
      assert COMIC_INFO_NAME[..4][0] != "page"[0];
    }
  }

  // ---------------------------------------------------------------------------
  // processFile

  /** The default output path: the input with ".epub" replaced by ".cbz". */
  function DefaultOutputPath(epubPath: string): (r: string)
    requires Ext(epubPath) == ".epub"
    ensures Ext(r) == ".cbz"
    ensures r[..|r| - 4] == epubPath[..|epubPath| - 5]
  {
    var stem := epubPath[..|epubPath| - 5];
    CbzExtension(stem);
    stem + ".cbz"
  }

  /** Appending ".cbz" to any stem gives a path whose extension is ".cbz". */
  lemma CbzExtension(stem: string)
    ensures Ext(stem + ".cbz") == ".cbz"
  {
    assert '.' !in "cbz" && '/' !in "cbz" by {
      assert "cbz" == ['c', 'b', 'z'];
    }
    ExtOfDotted(stem, "cbz");
    assert stem + "." + "cbz" == stem + ".cbz";
  }

  /** The package document and the archive path it was read from. */
  datatype Located = Located(opfPath: string, pkg: Package)

  /**
   * The package document, found through META-INF/container.xml
   * (main.go:389-419), or the first step that fails.
   */
  function LocatePackage(archive: seq<Entry>,
                         decodeContainer: seq<byte> -> Option<string>,
                         decodePackage: seq<byte> -> Option<Package>): Result<Located, ConvertError>
  {
    match OpenEntry(archive, CONTAINER_PATH)
    case Failure(_) => Failure(ContainerNotFound)
    case Success(containerFile) =>
      match decodeContainer(containerFile)
      case None => Failure(ContainerDecodeFailed)
      case Some(opfPath) =>
        if opfPath == "" then Failure(PackageReferenceMissing)
        else match OpenEntry(archive, opfPath)
          case Failure(_) => Failure(PackageNotFound)
          case Success(opfFile) =>
            match decodePackage(opfFile)
            case None => Failure(PackageDecodeFailed)
            case Some(pkg) => Success(Located(opfPath, pkg))
  }

  /** The output path: the one given, or the default one when it is empty. */
  function OutputPath(epubPath: string, outputPath: string): string
    requires Ext(epubPath) == ".epub"
  {
    if outputPath == "" then DefaultOutputPath(epubPath) else outputPath
  }

  /** The image entries written for the spine pages, in reading order. */
  function PagesToImages(archive: seq<Entry>, pages: seq<string>, parse: seq<byte> -> Option<Node>): seq<OutImage>
  {
    var imgSrcs := CollectedImages(archive, pages, parse);
    CopiedImages(archive, imgSrcs, |imgSrcs|)
  }

  /** What a conversion writes, short of the ComicInfo record, or why it fails. */
  datatype Plan = Plan(outputPath: string, images: seq<OutImage>, metadata: Metadata)

  function PlanConversion(epubPath: string, outputPath: string, archive: seq<Entry>,
                          decodeContainer: seq<byte> -> Option<string>,
                          decodePackage: seq<byte> -> Option<Package>,
                          parse: seq<byte> -> Option<Node>): Result<Plan, ConvertError>
  {
    if Ext(epubPath) != ".epub" then Failure(NotEpub)
    else match LocatePackage(archive, decodeContainer, decodePackage)
      case Failure(e) => Failure(e)
      case Success(loc) =>
        match SpineResult(loc.pkg, loc.opfPath)
        case Failure(e) => Failure(e)
        case Success(pages) =>
          Success(Plan(OutputPath(epubPath, outputPath), PagesToImages(archive, pages, parse), loc.pkg.metadata))
  }

  /**
   * processFile on an already opened archive. On success the result holds
   * the output path, the image entries in the order they are written and the
   * ComicInfo record, present exactly when one of the eight recognised
   * metadata elements occurs at least once (HasMetadata).
   */
  method ProcessFile(epubPath: string, outputPath: string, archive: seq<Entry>,
                     decodeContainer: seq<byte> -> Option<string>,
                     decodePackage: seq<byte> -> Option<Package>,
                     parse: seq<byte> -> Option<Node>) returns (r: Result<Conversion, ConvertError>)
    ensures var plan := PlanConversion(epubPath, outputPath, archive, decodeContainer, decodePackage, parse);
            && (r.Failure? <==> plan.Failure?)
            && (r.Failure? ==> r.error == plan.error)
    ensures var plan := PlanConversion(epubPath, outputPath, archive, decodeContainer, decodePackage, parse);
            r.Success? ==>
              && r.value.outputPath == plan.value.outputPath
              && r.value.images == plan.value.images
              && (r.value.comicInfo.Some? <==> HasMetadata(plan.value.metadata))
              && (r.value.comicInfo.Some? ==> MapsMetadata(plan.value.metadata, r.value.comicInfo.value))
  {
    if Ext(epubPath) != ".epub" {
      return Failure(NotEpub);
    }
    var out := outputPath;
    if out == "" {
      out := DefaultOutputPath(epubPath);
    }

    var containerFile := FindAndOpenFile(archive, CONTAINER_PATH);
    if containerFile.Failure? {
      return Failure(ContainerNotFound);
    }
    var container := decodeContainer(containerFile.value);
    if container.None? {
      return Failure(ContainerDecodeFailed);
    }
    var volOpfPath := container.value;
    if volOpfPath == "" {
      return Failure(PackageReferenceMissing);
    }

    var opfFile := FindAndOpenFile(archive, volOpfPath);
    if opfFile.Failure? {
      return Failure(PackageNotFound);
    }
    var pkg := decodePackage(opfFile.value);
    if pkg.None? {
      return Failure(PackageDecodeFailed);
    }
    var metadata := pkg.value.metadata;

    var pages := ResolvePages(pkg.value, volOpfPath);
    if pages.Failure? {
      return Failure(pages.error);
    }

    var imgSrcs := CollectImages(archive, pages.value, parse);
    var images := AddImages(archive, imgSrcs);

    var comicInfo: Option<ComicInfo> := None;
    if HasMetadata(metadata) {
      var ci := CreateComicInfo(metadata);
      comicInfo := Some(ci);
    }
    return Success(Conversion(out, images, comicInfo));
  }

  /** Without a META-INF/container.xml entry an .epub conversion fails with ContainerNotFound. */
  lemma MissingContainerFails(epubPath: string, outputPath: string, archive: seq<Entry>,
                              decodeContainer: seq<byte> -> Option<string>,
                              decodePackage: seq<byte> -> Option<Package>,
                              parse: seq<byte> -> Option<Node>)
    requires Ext(epubPath) == ".epub"
    requires forall j | 0 <= j < |archive| :: archive[j].name != CONTAINER_PATH
    ensures PlanConversion(epubPath, outputPath, archive, decodeContainer, decodePackage, parse) == Failure(ContainerNotFound)
  {
  }

  /**
   * Once the package document is decoded, the conversion fails with
   * EmptySpine exactly when no spine idref names a manifest item.
   */
  lemma EmptySpineFails(epubPath: string, outputPath: string, archive: seq<Entry>,
                        decodeContainer: seq<byte> -> Option<string>,
                        decodePackage: seq<byte> -> Option<Package>,
                        parse: seq<byte> -> Option<Node>)
    requires Ext(epubPath) == ".epub"
    requires LocatePackage(archive, decodeContainer, decodePackage).Success?
    ensures var pkg := LocatePackage(archive, decodeContainer, decodePackage).value.pkg;
            PlanConversion(epubPath, outputPath, archive, decodeContainer, decodePackage, parse) == Failure(EmptySpine)
            <==> forall j | 0 <= j < |pkg.itemrefs| :: pkg.itemrefs[j] !in ManifestMap(pkg.items)
  {
    var loc := LocatePackage(archive, decodeContainer, decodePackage).value;
    SpineResultFailsIffAllDangling(loc.pkg, loc.opfPath);
  }

  /**
   * A successful conversion writes distinct entry names: image names are
   * pairwise different and never ComicInfo.xml. Without an explicit output
   * path the output is the input path with ".cbz" for ".epub".
   */
  lemma ConversionOutputWellFormed(epubPath: string, outputPath: string, archive: seq<Entry>,
                                   decodeContainer: seq<byte> -> Option<string>,
                                   decodePackage: seq<byte> -> Option<Package>,
                                   parse: seq<byte> -> Option<Node>)
    ensures var plan := PlanConversion(epubPath, outputPath, archive, decodeContainer, decodePackage, parse);
            plan.Success? ==>
              && (forall j, l | 0 <= j < l < |plan.value.images| :: plan.value.images[j].name != plan.value.images[l].name)
              && (forall j | 0 <= j < |plan.value.images| :: plan.value.images[j].name != COMIC_INFO_NAME)
              && (outputPath == "" ==> Ext(plan.value.outputPath) == ".cbz")
  {
    var plan := PlanConversion(epubPath, outputPath, archive, decodeContainer, decodePackage, parse);
    if plan.Success? {
      var loc := LocatePackage(archive, decodeContainer, decodePackage).value;
      var pages := SpineResult(loc.pkg, loc.opfPath).value;
      assert plan.value.images == PagesToImages(archive, pages, parse);
      PagesToImagesNames(archive, pages, parse);
    }
  }

  lemma PagesToImagesNames(archive: seq<Entry>, pages: seq<string>, parse: seq<byte> -> Option<Node>)
    ensures var images := PagesToImages(archive, pages, parse);
            && (forall j, l | 0 <= j < l < |images| :: images[j].name != images[l].name)
            && (forall j | 0 <= j < |images| :: images[j].name != COMIC_INFO_NAME)
  {
    var srcs := CollectedImages(archive, pages, parse);
    var images := PagesToImages(archive, pages, parse);
    CopiedImagesSelect(archive, srcs, |srcs|);
    var idx: seq<nat> :| ImageSelection(archive, srcs, |srcs|, CopiedImages(archive, srcs, |srcs|), idx);
    assert images == CopiedImages(archive, srcs, |srcs|);
    SelectionNamesDistinct(archive, srcs, images, idx);
  }
}
