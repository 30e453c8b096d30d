/**
 * Output naming (normalizeImageName, main.go:544-553): "page", the image's
 * index zero-padded to the number of decimal digits of the image total, and
 * the original extension.
 */
module Naming {
  import opened FilePath
  import opened Decimal

  /** The pad width: the digit count of strconv.Itoa(totalFiles). */
  function PadWidth(totalFiles: nat): (w: nat)
    ensures w >= 1
  {
    |Itoa(totalFiles)|
  }

  /** normalizeImageName; NameShape, NamesDistinct and BaseOfName state what it yields. */
  function NormalizeImageName(originalName: string, index: nat, totalFiles: nat): string
  {
    "page" + ZeroPad(Itoa(index), PadWidth(totalFiles)) + Ext(originalName)
  }

  /**
   * For an index below the total the name is "page", exactly PadWidth(total)
   * decimal digits that read back as the index, and the extension taken from
   * the last '.' of the original's final element.
   */
  lemma NameShape(originalName: string, index: nat, totalFiles: nat)
    requires index < totalFiles
    ensures var name := NormalizeImageName(originalName, index, totalFiles);
            var w := PadWidth(totalFiles);
            && |name| == 4 + w + |Ext(originalName)|
            && name[..4] == "page"
            && AllDigits(name[4..4 + w])
            && Value(name[4..4 + w]) == index
            && name[4 + w..] == Ext(originalName)
  {
    var w := PadWidth(totalFiles);
    var digits := ZeroPad(Itoa(index), w);
    ItoaLengthMonotone(index, totalFiles);
    ValueOfPaddedItoa(index, w);
    PartsShape(digits, Ext(originalName), index, w);
    assert NormalizeImageName(originalName, index, totalFiles) == "page" + digits + Ext(originalName);
  }

  /** "page", then w digits reading index, then ext, as three slices of the name. */
  lemma PartsShape(digits: string, ext: string, index: nat, w: nat)
    requires |digits| == w && AllDigits(digits) && Value(digits) == index
    ensures var name := "page" + digits + ext;
            && |name| == 4 + w + |ext|
            && name[..4] == "page"
            && AllDigits(name[4..4 + w])
            && Value(name[4..4 + w]) == index
            && name[4 + w..] == ext
  {
    ThreeParts("page", digits, ext);
  }

  /** The three parts of a + b + c are where they were put. */
  lemma ThreeParts(a: string, b: string, c: string)
    ensures |a + b + c| == |a| + |b| + |c|
    ensures (a + b + c)[..|a|] == a
    ensures (a + b + c)[|a|..|a| + |b|] == b
    ensures (a + b + c)[|a| + |b|..] == c
  {
    var s := a + b + c;
    assert s[..|a|] == a;
    assert s[|a|..|a| + |b|] == b;
    assert s[|a| + |b|..] == c;
  }

  /** Two different indices below the total never give the same name, whatever the originals. */
  lemma NamesDistinct(a: string, i: nat, b: string, j: nat, totalFiles: nat)
    requires i < totalFiles && j < totalFiles && i != j
    ensures NormalizeImageName(a, i, totalFiles) != NormalizeImageName(b, j, totalFiles)
  {
    NameShape(a, i, totalFiles);
    NameShape(b, j, totalFiles);
  }

  /**
   * A name has no separator, so filepath.Base, applied to it before the zip
   * entry is created (main.go:567), leaves it unchanged.
   */
  lemma BaseOfName(originalName: string, index: nat, totalFiles: nat)
    ensures Base(NormalizeImageName(originalName, index, totalFiles)) == NormalizeImageName(originalName, index, totalFiles)
  {
    var digits := ZeroPad(Itoa(index), PadWidth(totalFiles));
    ValueOfPaddedItoa(index, PadWidth(totalFiles));
    DigitsHaveNoSlash(digits);
    ExtHasNoSlash(originalName);
    PartsBase(digits, Ext(originalName));
  }

  lemma DigitsHaveNoSlash(d: string)
    requires AllDigits(d)
    ensures '/' !in d
  {
    forall i | 0 <= i < |d|
      ensures d[i] != '/'
    {
      assert IsDigit(d[i]);
    }
  }

  lemma ExtHasNoSlash(p: string)
    ensures '/' !in Ext(p)
  {
  }

  /** "page", separator-free digits and a separator-free extension form their own base name. */
  lemma PartsBase(digits: string, ext: string)
    requires '/' !in digits && '/' !in ext
    ensures Base("page" + digits + ext) == "page" + digits + ext
  {
    var name := "page" + digits + ext;
    assert '/' !in "page";
    assert '/' !in name;
    BaseOfPlainName(name);
  }

  /** With twelve images the first is named with two digits, page00. */
  lemma TwelveImagesExample()
    ensures NormalizeImageName("OEBPS/image/i-000.png", 0, 12) == "page00.png"
  {
    TwelveImagesParts();
    assert "page" + "00" + ".png" == "page00.png";
  }

  /** The three parts of that name: the padding of index 0 to two digits and the extension. */
  lemma TwelveImagesParts()
    ensures NormalizeImageName("OEBPS/image/i-000.png", 0, 12) == "page" + "00" + ".png"
  {
    assert Itoa(12) == Itoa(1) + "2" == "12";
    assert PadWidth(12) == 2;
    assert ZeroPad(Itoa(0), 2) == Zeros(1) + "0" == "00";
    ExtExamples();
  }

  /** With ten images the last is page09; the extension keeps its case. */
  lemma TenImagesExample()
    ensures NormalizeImageName("img/cover.JPG", 9, 10) == "page09.JPG"
  {
    TenImagesParts();
    assert "page" + "09" + ".JPG" == "page09.JPG";
  }

  /** The three parts of that name: the padding of index 9 to two digits and the extension. */
  lemma TenImagesParts()
    ensures NormalizeImageName("img/cover.JPG", 9, 10) == "page" + "09" + ".JPG"
  {
    assert Itoa(10) == Itoa(1) + "0" == "10";
    assert PadWidth(10) == 2;
    assert ZeroPad(Itoa(9), 2) == Zeros(1) + "9" == "09";
    ExtExamples();
  }
}
