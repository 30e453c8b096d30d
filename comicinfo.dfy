/**
 * Metadata mapping (main.go:128-209): whether the package metadata is worth
 * a ComicInfo.xml entry, and the ComicInfo record built from it.
 */
module ComicInfoMapping {
  import opened Wrappers
  import opened Bytes
  import opened Decimal
  import opened Epub

  datatype ComicPageInfo = ComicPageInfo(
    image: int, pageType: string, doublePage: bool, imageSize: int,
    key: string, bookmark: string, imageWidth: int, imageHeight: int)

  /** The ComicInfo schema's fields; pages is None where the Go record holds a nil pointer. */
  datatype ComicInfo = ComicInfo(
    title: string, series: string, number: string, count: int, volume: int,
    alternateSeries: string, alternateNumber: string, alternateCount: int,
    summary: string, notes: string, year: int, month: int, day: int,
    writer: string, penciller: string, inker: string, colorist: string, letterer: string,
    coverArtist: string, editor: string, publisher: string, imprint: string, genre: string,
    web: string, pageCount: int, languageIso: string, format: string, blackAndWhite: string,
    manga: string, characters: string, teams: string, locations: string, scanInformation: string,
    storyArc: string, seriesGroup: string, ageRating: string, pages: Option<seq<ComicPageInfo>>,
    communityRating: string, mainCharacterOrTeam: string, review: string)

  /** The record with every field at its zero value. */
  const EMPTY_COMIC_INFO := ComicInfo(
    "", "", "", 0, 0, "", "", 0, "", "", 0, 0, 0, "", "", "", "", "", "", "", "", "", "",
    "", 0, "", "", "", "", "", "", "", "", "", "", "", None, "", "", "")

  const GENERATED_NOTES := "Generated from EPUB metadata"
  const UNKNOWN := "Unknown"

  /** getFirst: the first element, or "" for an empty list. */
  function GetFirst(items: seq<string>): (r: string)
    ensures items == [] ==> r == ""
    ensures items != [] ==> r == items[0]
  {
    if |items| > 0 then items[0] else ""
  }

  /**
   * hasMetadata: some recognised element occurs at least once. Only the
   * number of occurrences matters; rights and seriesid are not consulted.
   */
  predicate HasMetadata(m: Metadata)
  {
    || |m.title| > 0 || |m.creator| > 0 || |m.publisher| > 0 || |m.series| > 0
    || |m.date| > 0 || |m.language| > 0 || |m.identifier| > 0 || |m.number| > 0
  }

  /** Rights and series ids never decide whether a ComicInfo entry is written. */
  lemma HasMetadataIgnoresRights(m: Metadata, rights: seq<string>, seriesId: seq<string>)
    ensures HasMetadata(m.(rights := rights, seriesId := seriesId)) == HasMetadata(m)
  {
  }

  /** One occurrence suffices, even of an empty string. */
  lemma HasMetadataCountsOccurrences(m: Metadata)
    ensures HasMetadata(m.(title := [""]))
    ensures HasMetadata(m.(identifier := [""]))
    ensures !HasMetadata(Metadata([], [], [], [], [], [], m.rights, [], m.seriesId, []))
  {
  }

  /** A code point in the Hiragana, Katakana or CJK Unified Ideographs block as containsJapanese bounds them. */
  predicate IsJapaneseRune(c: char)
  {
    || (0x3040 <= c as int <= 0x309F)
    || (0x30A0 <= c as int <= 0x30FF)
    || (0x4E00 <= c as int <= 0x9FBF)
  }

  ghost predicate HasJapanese(s: string)
  {
    exists i | 0 <= i < |s| :: IsJapaneseRune(s[i])
  }

  /** containsJapanese: scans the code points and stops at the first Japanese one. */
  method ContainsJapanese(s: string) returns (found: bool)
    ensures found <==> HasJapanese(s)
  {
    var i := 0;
    while i < |s|
      invariant 0 <= i <= |s|
      invariant forall j | 0 <= j < i :: !IsJapaneseRune(s[j])
    {
      if IsJapaneseRune(s[i]) {
        return true;
      }
      i := i + 1;
    }
    return false;
  }

  /** A series title of kanji and hiragana (進撃の巨人) counts as Japanese. */
  lemma JapaneseSeriesExample()
    ensures HasJapanese("\U{9032}\U{6483}\U{306E}\U{5DE8}\U{4EBA}")
    ensures !HasJapanese("Attack on Titan")
  {
    var s := "\U{9032}\U{6483}\U{306E}\U{5DE8}\U{4EBA}";
    assert IsJapaneseRune(s[0]);
  }

  /**
   * The year read from a date string (main.go:139-146): its first four
   * characters parsed by Atoi, or 0 when there are fewer or they do not parse.
   */
  function YearField(date: string): int
  {
    if |date| >= 4 then
      match Atoi(date[..4])
      case Some(year) => year
      case None => 0
    else 0
  }

  /**
   * A date that begins with four ASCII digits yields the number they denote,
   * whatever follows; leading zeros are allowed, so "0999-01-01" gives 999.
   */
  lemma YearFromFourDigits(d: string, rest: string)
    requires |d| == 4 && AllDigits(d)
    ensures YearField(d + rest) == Value(d)
  {
    assert (d + rest)[..4] == d;
    assert IsDigit(d[0]);
  }

  /** In particular a year of 1000 .. 9999 written out by Itoa reads back as itself. */
  lemma YearOfWrittenYear(y: nat, rest: string)
    requires 1000 <= y <= 9999
    ensures YearField(Itoa(y) + rest) == y
  {
    FourDigitItoa(y);
    ValueOfItoa(y);
    YearFromFourDigits(Itoa(y), rest);
  }

  /** A year is never outside -999 .. 9999. */
  lemma YearFieldRange(date: string)
    ensures -999 <= YearField(date) <= 9999
  {
    if |date| >= 4 {
      var s := date[..4];
      if Atoi(s).Some? {
        if s[0] == '+' || s[0] == '-' {
          ValueBound(s[1..]);
          assert Pow10(3) == 1000;
        } else {
          ValueBound(s);
          assert Pow10(4) == 10000;
        }
      }
    }
  }

  /**
   * Go measures and slices the date in bytes; the model in code points.
   * Both give the same year: taking the first four bytes of the UTF-8
   * encoding and reading them one byte per character yields what taking the
   * first four code points does.
   */
  lemma YearFieldOfBytes(date: string)
    ensures YearField(ByteString(Encode(date))) == YearField(date)
  {
    var b := ByteString(Encode(date));
    var m := FirstNonAscii(date);
    if m >= 4 {
      EncodeAsciiPrefix(date, 4);
      assert b[..4] == date[..4];
    } else if m == |date| {
      EncodeAsciiPrefix(date, m);
    } else {
      EncodeAsciiPrefix(date, m);
      if |date| >= 4 {
        AtoiAcceptsAscii(date[..4]);
        assert date[..4][m] == date[m];
      }
      if |b| >= 4 {
        AtoiAcceptsAscii(b[..4]);
        assert b[..4][m] == b[m];
      }
    }
  }

  /**
   * The record createComicInfo returns for m: the first title, series,
   * number, publisher and language copied; the fixed note; the year of the
   * first date; the tri-state Manga flag; the first creator as both writer
   * and penciller; BlackAndWhite and AgeRating "Unknown"; and every other
   * field at its zero value.
   */
  ghost predicate MapsMetadata(m: Metadata, ci: ComicInfo)
  {
    && ci.title == GetFirst(m.title)
    && ci.series == GetFirst(m.series)
    && ci.number == GetFirst(m.number)
    && ci.publisher == GetFirst(m.publisher)
    && ci.languageIso == GetFirst(m.language)
    && ci.notes == GENERATED_NOTES
    && ci.year == (if |m.date| > 0 then YearField(m.date[0]) else 0)
    && ci.manga == (if ci.series == "" then UNKNOWN else if HasJapanese(ci.series) then "Yes" else "No")
    && ci.writer == GetFirst(m.creator)
    && ci.penciller == GetFirst(m.creator)
    && ci.blackAndWhite == UNKNOWN
    && ci.ageRating == UNKNOWN
    && ci.(title := "", series := "", number := "", publisher := "", languageIso := "", notes := "",
           year := 0, manga := "", writer := "", penciller := "", blackAndWhite := "", ageRating := "")
       == EMPTY_COMIC_INFO
  }

  /** The mapping leaves no freedom: at most one record maps a given metadata block. */
  lemma MapsMetadataUnique(m: Metadata, a: ComicInfo, b: ComicInfo)
    requires MapsMetadata(m, a) && MapsMetadata(m, b)
    ensures a == b
  {
  }

  /** createComicInfo: the record is started from the copied fields and then adjusted field by field. */
  method CreateComicInfo(m: Metadata) returns (ci: ComicInfo)
    ensures MapsMetadata(m, ci)
  {
    var copied := EMPTY_COMIC_INFO.(
      title := GetFirst(m.title),
      series := GetFirst(m.series),
      number := GetFirst(m.number),
      publisher := GetFirst(m.publisher),
      languageIso := GetFirst(m.language),
      notes := GENERATED_NOTES);
    ci := copied;

    if |m.date| > 0 {
      var dateStr := m.date[0];
      if |dateStr| >= 4 {
        var year := Atoi(dateStr[..4]);
        if year.Some? {
          ci := ci.(year := year.value);
        }
      }
    }
    ghost var dated := copied.(year := if |m.date| > 0 then YearField(m.date[0]) else 0);
    assert ci == dated;

    if ci.series != "" {
      var japanese := ContainsJapanese(ci.series);
      if japanese {
        ci := ci.(manga := "Yes");
      } else {
        ci := ci.(manga := "No");
      }
    } else {
      ci := ci.(manga := UNKNOWN);
    }
    ghost var flagged := dated.(manga := if dated.series == "" then UNKNOWN else if HasJapanese(dated.series) then "Yes" else "No");
    assert ci == flagged;

    var creator := GetFirst(m.creator);
    if creator != "" {
      ci := ci.(writer := creator, penciller := creator);
    }
    assert ci == flagged.(writer := creator, penciller := creator);

    if ci.blackAndWhite == "" {
      ci := ci.(blackAndWhite := UNKNOWN);
    }
    if ci.ageRating == "" {
      ci := ci.(ageRating := UNKNOWN);
    }
    assert ci == flagged.(writer := creator, penciller := creator, blackAndWhite := UNKNOWN, ageRating := UNKNOWN);
  }
}
