/**
 * A read-only zip archive as the converter sees it: its entries in stored
 * order, and the two ways main.go looks an entry up by exact name.
 */
module Zip {
  import opened Wrappers
  import opened Bytes

  /** A stored entry; data is None when opening or reading the entry fails. */
  datatype Entry = Entry(name: string, data: Option<seq<byte>>)

  datatype LookupError = NotFound | OpenFailed

  /** Index of the first entry whose name is exactly name. */
  function FirstNamed(archive: seq<Entry>, name: string): (r: Option<nat>)
    ensures r.Some? ==> r.value < |archive| && archive[r.value].name == name
    ensures r.Some? ==> forall j | 0 <= j < r.value :: archive[j].name != name
    ensures r.None? ==> forall j | 0 <= j < |archive| :: archive[j].name != name
  {
    if archive == [] then None
    else if archive[0].name == name then Some(0)
    else match FirstNamed(archive[1..], name)
      case None => None
      case Some(k) => Some(k + 1)
  }

  /** What findAndOpenFile yields: the first entry with that name, opened. */
  function OpenEntry(archive: seq<Entry>, name: string): Result<seq<byte>, LookupError>
  {
    match FirstNamed(archive, name)
    case None => Failure(NotFound)
    case Some(k) => match archive[k].data
      case None => Failure(OpenFailed)
      case Some(d) => Success(d)
  }

  /**
   * findAndOpenFile: a linear search for the first entry named fileName; the
   * search stops there whether or not the entry can be opened.
   */
  method FindAndOpenFile(archive: seq<Entry>, fileName: string) returns (r: Result<seq<byte>, LookupError>)
    ensures r == OpenEntry(archive, fileName)
  {
    var i := 0;
    while i < |archive|
      invariant 0 <= i <= |archive|
      invariant forall j | 0 <= j < i :: archive[j].name != fileName
    {
      if archive[i].name == fileName {
        match archive[i].data {
          case Some(d) => return Success(d);
          case None => return Failure(OpenFailed);
        }
      }
      i := i + 1;
    }
    return Failure(NotFound);
  }

  predicate Readable(e: Entry, name: string)
  {
    e.name == name && e.data.Some?
  }

  /** Index of the first entry named name that can be opened and read. */
  function FirstReadable(archive: seq<Entry>, name: string): (r: Option<nat>)
    ensures r.Some? ==> r.value < |archive| && Readable(archive[r.value], name)
    ensures r.Some? ==> forall j | 0 <= j < r.value :: !Readable(archive[j], name)
    ensures r.None? ==> forall j | 0 <= j < |archive| :: !Readable(archive[j], name)
  {
    if archive == [] then None
    else if Readable(archive[0], name) then Some(0)
    else match FirstReadable(archive[1..], name)
      case None => None
      case Some(k) => Some(k + 1)
  }

  /** The content the page loop obtains for a page name, if any. */
  function PageContent(archive: seq<Entry>, name: string): Option<seq<byte>>
  {
    match FirstReadable(archive, name)
    case None => None
    case Some(k) => archive[k].data
  }

  /**
   * The inner loop of processFile's page loop: every entry named name is
   * tried in stored order, an entry that cannot be opened or read is passed
   * over, and the first one read successfully is the page.
   */
  method ReadPage(archive: seq<Entry>, name: string) returns (content: Option<seq<byte>>)
    ensures content == PageContent(archive, name)
  {
    var i := 0;
    while i < |archive|
      invariant 0 <= i <= |archive|
      invariant forall j | 0 <= j < i :: !Readable(archive[j], name)
    {
      if archive[i].name == name {
        match archive[i].data {
          case None =>
          case Some(d) => return Some(d);
        }
      }
      i := i + 1;
    }
    return None;
  }

  /**
   * The page loop is more tolerant than findAndOpenFile: whenever the first
   * entry of that name opens, both find the same content, and the page loop
   * finds content in every case findAndOpenFile does.
   */
  lemma PageContentExtendsOpenEntry(archive: seq<Entry>, name: string)
    ensures OpenEntry(archive, name).Success? ==> PageContent(archive, name) == Some(OpenEntry(archive, name).value)
    ensures PageContent(archive, name).None? ==> OpenEntry(archive, name).Failure?
  {
    match FirstNamed(archive, name) {
      case None =>
      case Some(k) =>
        if archive[k].data.Some? {
          var r := FirstReadable(archive, name);
          assert r.Some? by { assert Readable(archive[k], name); }
          assert r.value == k;
        }
    }
  }
}
