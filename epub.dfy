/**
 * The already-decoded EPUB structures the converter works on: the package
 * document's metadata block, manifest and spine, and the ways a single
 * conversion can fail.
 */
module Epub {

  /**
   * The Dublin Core elements of the package document's metadata block, each
   * with every occurrence in document order.
   */
  datatype Metadata = Metadata(
    identifier: seq<string>,
    title: seq<string>,
    language: seq<string>,
    creator: seq<string>,
    publisher: seq<string>,
    date: seq<string>,
    rights: seq<string>,
    series: seq<string>,
    seriesId: seq<string>,
    number: seq<string>)

  /** One manifest item: a resource id and its href relative to the package document. */
  datatype ManifestItem = ManifestItem(id: string, href: string)

  /** The decoded package document; itemrefs are the spine's idref attributes in order. */
  datatype Package = Package(metadata: Metadata, items: seq<ManifestItem>, itemrefs: seq<string>)

  /** The fatal outcomes of one conversion, in the order processFile can meet them. */
  datatype ConvertError =
    | NotEpub                 // the input's extension is not ".epub"
    | ContainerNotFound       // META-INF/container.xml is missing or cannot be opened
    | ContainerDecodeFailed   // container.xml is not decodable
    | PackageReferenceMissing // the decoded rootfile full-path is empty
    | PackageNotFound         // the package document is missing or cannot be opened
    | PackageDecodeFailed     // the package document is not decodable
    | EmptySpine              // no spine idref resolves through the manifest
}
