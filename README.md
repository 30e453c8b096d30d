# epub2cbz in Dafny

epub2cbz turns an EPUB book whose pages are images (a manga volume, say) into a
CBZ comic archive. It locates the package document through
`META-INF/container.xml` and resolves the spine into page documents. From every
page it collects the image references in document order, then copies each
image into the output archive under a normalised name: `page`, a zero-padded
index and the original extension. When one of the eight recognised metadata
elements (title, creator, publisher, series, date, language, identifier,
number) occurs at least once, it adds a `ComicInfo.xml` record.

This project models that pipeline in `main.go` and proves properties of it.

## Modules

- **Archive, XML decoder and HTML parser.** The input archive is a sequence of
  entries. Each entry has a name and its bytes, or nothing when the entry cannot
  be opened or read. The XML decoders for the container and the package
  document, and the HTML parser, are function parameters that return decoded
  values or nothing.
- **Go libraries.** The parts of Go's `path/filepath`, `strconv` and `fmt` that
  the program relies on are written out:
  - `filepath.Clean`, `Dir`, `Join`, `Ext` and `Base`;
  - `strings.TrimPrefix`;
  - `strconv.Itoa` and `strconv.Atoi`;
  - the `%0*d` zero padding.
- **Modules by piece of the pipeline:**

| module (file) | models |
|---|---|
| `Wrappers` (wrappers.dfy) | Option / Result |
| `Bytes` (bytes.dfy) | bytes and the UTF-8 encoding of strings |
| `FilePath` (filepath.dfy) | lexical slash-separated path handling |
| `Decimal` (decimal.dfy) | decimal digits, `Itoa`, `Atoi`, zero padding |
| `Epub` (epub.dfy) | decoded container/package values, conversion errors |
| `Zip` (zip.dfy) | entry lookup by exact name |
| `Selections` (selection.dfy) | order-preserving selection of the elements that pass a filter |
| `Spine` (spine.dfy) | manifest map and spine resolution |
| `Xhtml` (xhtml.dfy) | the `img`/`src` tree walk |
| `Naming` (naming.dfy) | `normalizeImageName` |
| `ComicInfoMapping` (comicinfo.dfy) | `getFirst`, `hasMetadata`, `containsJapanese`, `createComicInfo` |
| `Convert` (convert.dfy) | `processFile`, the page loop, the image loop, `addImageToZip` |

### Imperative code

Where the Go code works step by step, the model is a method proved against a
specification function:

- the manifest loop and the spine loop;
- the recursive closure that appends to `srcs`;
- the page loop;
- the `imageIndex` loop;
- `createComicInfo`'s field-by-field updates;
- `containsJapanese`;
- the linear entry searches.

### Images per page

The program still declares an `XHTML` record with room for a single
`body/div/img` source (main.go:58-66), a trace of a design in which each page
gave one image. That record is never used: `extractImagesFromXHTML`
(main.go:514-541), documented as extracting "image paths", walks the whole
parsed tree and appends every `img` element that has a `src` attribute. The
model follows the code:

- all images of a page are collected, in pre-order;
- an `img` whose `src` is empty still contributes a path (the page's directory
  after `filepath.Join`);
- an image that cannot be found still consumes its index, so numbering can have
  gaps.

## Model

| member | source | states |
|---|---|---|
| FilePath.Clean | main.go:434 | the cleaned path is never empty, is rooted exactly when the input is, and never starts with two separators |
| FilePath.Dir | main.go:434 | the directory of a path is never empty |
| FilePath.Join | main.go:434 | with a non-empty first element the result is the cleaned concatenation with a separator, and two empty elements join to "" |
| FilePath.TrimLeadingSlash | main.go:437 | at most one leading '/' is removed and nothing else changes |
| FilePath.Resolve | main.go:434-437 | a reference resolved against a document's directory never starts with '/' |
| FilePath.Ext | main.go:546 | the extension is a suffix of the path that starts with '.' and has no further '.' or '/'; it is empty exactly when the final element has no '.' |
| FilePath.ExtOfDotted | main.go:546 | the extension of stem + "." + e is "." + e when e has no '.' and no '/' |
| FilePath.ExtExamples | main.go:546 | the extensions of "OEBPS/image/i-000.png" and "img/cover.JPG" are ".png" and ".JPG" |
| FilePath.Base | main.go:567 | the final element after trailing separators are removed: never empty, either "/" or free of separators, and a non-empty name without separators is its own base; BaseOfPlainName and Naming.BaseOfName state what main.go:567 relies on |
| FilePath.BaseOfPlainName | main.go:567 | filepath.Base leaves a non-empty name without separators unchanged |
| Decimal.Itoa | main.go:549 | strconv.Itoa of a natural is a non-empty digit string without a leading zero |
| Decimal.ValueOfItoa | main.go:549 | the digits of Itoa(n) read back as n |
| Decimal.ItoaLengthMonotone | main.go:549 | a smaller number never has more digits |
| Decimal.ZeroPad | main.go:552 | padding yields max(width, len) characters, ends with the digits and is '0' before them |
| Decimal.ValueOfPaddedItoa | main.go:552 | a zero-padded Itoa(n) still denotes n |
| Decimal.Atoi | main.go:142 | Atoi accepts exactly an optional sign followed by at least one decimal digit |
| Decimal.AtoiOfItoa | main.go:142 | Atoi inverts Itoa, with and without a '+' or '-' sign |
| Decimal.AtoiAcceptsAscii | main.go:142 | anything Atoi accepts is pure ASCII |
| Zip.FirstNamed | main.go:363-364 | the index found is the first entry with exactly that name, and no index means no entry has it |
| Zip.FindAndOpenFile | main.go:362-369 | the linear search yields the first same-named entry's contents, OpenFailed if that entry cannot be opened, NotFound if there is none |
| Zip.FirstReadable | main.go:460-476 | the page loop settles on the first same-named entry that can be opened and read, skipping failing ones |
| Zip.ReadPage | main.go:460-480 | the page loop's inner search yields that entry's contents, or nothing |
| Zip.PageContentExtendsOpenEntry | main.go:460-476 | whenever findAndOpenFile would succeed the page loop reads the same bytes, and when the page loop finds nothing findAndOpenFile fails too |
| Spine.BuildPageMap | main.go:425-428 | the loop builds the manifest map of the items |
| Spine.ManifestMapKeys | main.go:425-428 | the map's keys are exactly the manifest ids |
| Spine.ManifestLastWins | main.go:426-428 | for a duplicated id the last item's href wins |
| Spine.ResolvePages | main.go:430-444 | the spine loop yields the resolved pages or EmptySpine |
| Spine.ResolvedPagesSelect | main.go:430-440 | the pages are, in spine order with repeats kept, the resolved hrefs of exactly the idrefs present in the manifest |
| Spine.ResolvedPagesShape | main.go:430-440 | there are never more pages than spine refs, and no page path starts with '/' |
| Spine.SpineResultFailsIffAllDangling | main.go:442-444 | resolution fails exactly when no idref names a manifest item |
| Xhtml.FirstSrcIsFirst | main.go:525-531 | the src used is the value of the first attribute whose key is "src"; none when there is no such attribute |
| Xhtml.AppendOwnImage | main.go:524-533 | one visit appends the node's own resolved src, if it is an img element with a src, to srcs |
| Xhtml.Walk | main.go:522-539 | the closure returns srcs extended by the images of the subtree |
| Xhtml.ExtractImagesFromXhtml | main.go:515-541 | the incoming srcs is kept as a prefix and the document's images are appended; an unparsable document appends nothing |
| Xhtml.ImagesInPreOrder | main.go:522-539 | the images of a tree are the contributions of its nodes in pre-order |
| Xhtml.ContributionsCount | main.go:524-533 | exactly one path per img element that has a src |
| Xhtml.ImagesNoLeadingSlash | main.go:527-529 | no collected path starts with '/' |
| Naming.PadWidth | main.go:549 | the pad width is at least one digit |
| Naming.NormalizeImageName | main.go:544-553 | the name of the index-th of total images: "page", the index zero-padded to the digit count of total, and the original extension; its properties are NameShape, NamesDistinct and BaseOfName |
| Naming.NameShape | main.go:544-553 | for index < total the name is "page", exactly digits(total) digits that read back as the index, then the original extension |
| Naming.NamesDistinct | main.go:544-553 | different indices below the total give different names, whatever the originals |
| Naming.BaseOfName | main.go:567 | filepath.Base leaves a normalised name unchanged |
| Naming.TwelveImagesExample | main.go:544-553 | the first of twelve PNG images is named page00.png |
| Naming.TenImagesExample | main.go:544-553 | the tenth of ten JPG images is named page09.JPG |
| ComicInfoMapping.GetFirst | main.go:180-185 | the first element, or "" for an empty list |
| ComicInfoMapping.HasMetadata | main.go:200-209 | some of the eight recognised elements occurs at least once; HasMetadataIgnoresRights and HasMetadataCountsOccurrences state what it does and does not consult |
| ComicInfoMapping.HasMetadataIgnoresRights | main.go:200-209 | rights and series ids never decide whether ComicInfo.xml is written |
| ComicInfoMapping.HasMetadataCountsOccurrences | main.go:200-209 | one occurrence suffices, even of an empty string, and with only rights and series ids there is no metadata |
| ComicInfoMapping.ContainsJapanese | main.go:188-197 | true exactly when some code point is Hiragana, Katakana or in the CJK range 0x4E00-0x9FBF |
| ComicInfoMapping.JapaneseSeriesExample | main.go:148-158 | a kanji/kana series title is recognised and a Latin one is not |
| ComicInfoMapping.YearField | main.go:139-146 | the Atoi value of the date's first four characters, or 0 when there are fewer or they do not parse; YearFromFourDigits, YearOfWrittenYear, YearFieldRange and YearFieldOfBytes state what it yields |
| ComicInfoMapping.YearFromFourDigits | main.go:139-146 | a date starting with any four ASCII digits, leading zeros included, yields the number they denote, whatever follows |
| ComicInfoMapping.YearOfWrittenYear | main.go:139-146 | a year of 1000..9999 written out in decimal at the start of a date reads back as itself |
| ComicInfoMapping.YearFieldRange | main.go:139-146 | the year is always within -999 .. 9999 |
| ComicInfoMapping.YearFieldOfBytes | main.go:139-146 | slicing the first four UTF-8 bytes gives the same year as slicing the first four code points |
| ComicInfoMapping.MapsMetadataUnique | main.go:128-176 | the mapping determines the record completely |
| ComicInfoMapping.CreateComicInfo | main.go:128-176 | first title/series/number/publisher/language copied, fixed Notes, the parsed year or 0, the tri-state Manga flag, first creator as writer and penciller, BlackAndWhite and AgeRating "Unknown", every other field zero |
| Convert.CollectImages | main.go:457-481 | the page loop's imgSrcs are the images of the pages that can be read, page after page |
| Convert.CollectedImagesAppend | main.go:459-481 | pages are processed in spine order: the images of a + b are those of a followed by those of b |
| Convert.UnreadablePageSkipped | main.go:460-476 | a page that cannot be read contributes nothing and leaves the others in order |
| Convert.AddImageToZip | main.go:556-583 | an image that is found and opens is written once with its bytes under its normalised base name; otherwise nothing is written |
| Convert.CopyImageCases | main.go:556-583 | the entry written is the copy of the first same-named entry, named by normalizeImageName, or none |
| Convert.AddImages | main.go:482-485 | the loop copies the k-th collected image with index k and total len(imgSrcs) |
| Convert.CopiedImagesSelect | main.go:482-485 | the output images are exactly the sources that open, in order, each named after its own position, so missing images leave gaps |
| Convert.CopiedImageNamesDistinct | main.go:482-485 | written image names are pairwise distinct and none is ComicInfo.xml |
| Convert.DefaultOutputPath | main.go:378-380 | the default output replaces ".epub" by ".cbz" and has extension ".cbz" |
| Convert.ProcessFile | main.go:371-512 | fails exactly as PlanConversion does; on success writes its output path and images, and a ComicInfo record exactly when hasMetadata holds, the one createComicInfo maps |
| Convert.MissingContainerFails | main.go:390-394 | an .epub without META-INF/container.xml fails with ContainerNotFound |
| Convert.EmptySpineFails | main.go:442-444 | once the package document is decoded, the conversion fails with EmptySpine exactly when no idref is in the manifest |
| Convert.PagesToImagesNames | main.go:457-485 | the images written for any pages have distinct names, none ComicInfo.xml |
| Convert.ConversionOutputWellFormed | main.go:371-512 | a successful conversion writes distinct entry names and, without an explicit output path, a ".cbz" file |

## Left out

- `main`, `processDirectory` and `getVersion` (main.go:211-359) are left out.
  They cover flag parsing, directory walking, output-path derivation for
  directories, build information and the goroutine/semaphore fan-out, which is
  concurrency.
- Opening, creating and closing files are I/O and are not modelled:
  - `zip.OpenReader` (main.go:383-387): the archive is given as a sequence of
    entries;
  - `os.Create` of the output (main.go:447-451), with the error it can return;
  - closing the files.
- The output archive is the sequence of entries the conversion writes. Errors
  from `zipw.Create`, `io.Copy` and the ComicInfo write (main.go:566-579,
  496-506) are not modelled, and those calls only log anyway.
- Convert.AddImageToZip: an entry that opens but fails mid-copy would leave a
  partially written entry in Go. In the model an entry is either fully readable
  or not readable, and an unreadable entry writes nothing.
- Zip.FindAndOpenFile: the Go reader reads lazily. A read error after a
  successful open would appear as a decode error of container.xml or the
  package document. In the model an unreadable entry fails at the lookup
  (ContainerNotFound / PackageNotFound).
- `encoding/xml` decoding of container.xml and of the package document
  (main.go:398, 417) is a foreign library. The decoders are parameters that
  return the rootfile full-path or the decoded package, or nothing on error.
- `xml.MarshalIndent` and `xml.Header` (main.go:490-494) serialise the ComicInfo
  record. They are not modelled. The conversion yields the record itself.
- `html.Parse` (main.go:516) is a foreign parser. It is a parameter that
  returns the node tree or nothing. The tree is a datatype of typed nodes
  with attributes and children (first-child / next-sibling order).
- `filepath.ToSlash` is the identity: the separator is '/'.
- Decimal.Atoi: out-of-range errors are not modelled. Every call site passes
  exactly four characters, which can never overflow.
- Indices and totals are unbounded naturals. Go's `int` cannot overflow at the
  sizes involved.
- Logging (`log.Printf`) and the final `fmt.Printf` are left out.
- Strings are sequences of code points. Where Go works on bytes (the four-byte
  year slice), YearFieldOfBytes shows that the byte view and the code-point
  view agree.
