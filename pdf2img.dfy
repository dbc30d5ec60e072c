/**
 * Model of `src/cmd/pdf2img.py`: every image embedded in a PDF is written to
 * `<folder>/page_PPP_img_III.<ext>`, page and image numbered from 1 and
 * zero-padded to three digits, into a folder named after the PDF without its
 * extension. The PDF library is replaced by the document's images, page by
 * page; a file write by an entry of the returned write log.
 */
module Pdf2Img {
  import opened Strings
  import opened PosixPath

  type Bytes = seq<bv8>

  /** One embedded image as the PDF library's `extract_image` gives it: its bytes and extension. */
  datatype EmbeddedImage = EmbeddedImage(data: Bytes, ext: string)

  /** A PDF as the embedded images of each page, in page order and `get_images` order. */
  type Document = seq<seq<EmbeddedImage>>

  /** One `open(path, "wb").write(data)`. */
  datatype Write = Write(path: string, data: Bytes)

  /** The file name of 0-based image `index` of 0-based page `page`. */
  function ImageFileName(page: nat, index: nat, ext: string): string {
    "page_" + (ZeroPadded(page + 1, 3) + ("_img_" + (ZeroPadded(index + 1, 3) + ("." + ext))))
  }

  function ImageFilePath(folder: string, page: nat, index: nat, ext: string): string {
    folder + "/" + ImageFileName(page, index, ext)
  }

  /** The write of image `index` of page `page`. */
  function ImageWrite(folder: string, page: nat, index: nat, image: EmbeddedImage): Write {
    Write(ImageFilePath(folder, page, index, image.ext), image.data)
  }

  // ---------------------------------------------------------------------
  // The shape of the nested loop: one step per (page, image) pair, pages in
  // order and the images of a page in order. `f(p, i, x)` is the step for
  // image `i`, `x`, of page `p`.
  // ---------------------------------------------------------------------

  /** The steps for the first `n` images of page `page`. */
  function RowSteps<T, U>(f: (nat, nat, T) -> U, page: nat, row: seq<T>, n: nat): seq<U>
    requires n <= |row|
  {
    if n == 0 then [] else RowSteps(f, page, row, n - 1) + [f(page, n - 1, row[n - 1])]
  }

  /** The steps for all images of the first `n` pages. */
  function Steps<T, U>(f: (nat, nat, T) -> U, pages: seq<seq<T>>, n: nat): seq<U>
    requires n <= |pages|
  {
    if n == 0 then [] else Steps(f, pages, n - 1) + RowSteps(f, n - 1, pages[n - 1], |pages[n - 1]|)
  }

  /** The number of images on the pages before page `p`. */
  function Offset<T>(pages: seq<seq<T>>, p: nat): nat
    requires p <= |pages|
  {
    if p == 0 then 0 else Offset(pages, p - 1) + |pages[p - 1]|
  }

  lemma {:induction false} RowStepsAt<T, U>(f: (nat, nat, T) -> U, page: nat, row: seq<T>, n: nat)
    requires n <= |row|
    ensures |RowSteps(f, page, row, n)| == n
    ensures forall i :: 0 <= i < n ==> RowSteps(f, page, row, n)[i] == f(page, i, row[i])
  {
    if n > 0 {
      RowStepsAt(f, page, row, n - 1);
    }
  }

  lemma {:induction false} StepsLength<T, U>(f: (nat, nat, T) -> U, pages: seq<seq<T>>, n: nat)
    requires n <= |pages|
    ensures |Steps(f, pages, n)| == Offset(pages, n)
  {
    if n > 0 {
      StepsLength(f, pages, n - 1);
      RowStepsAt(f, n - 1, pages[n - 1], |pages[n - 1]|);
    }
  }

  lemma {:induction false} OffsetMonotonic<T>(pages: seq<seq<T>>, p: nat, q: nat)
    requires p <= q <= |pages|
    ensures Offset(pages, p) <= Offset(pages, q)
    decreases q
  {
    if p < q {
      OffsetMonotonic(pages, p, q - 1);
    }
  }

  /** Image `i` of page `p` is step number Offset(p) + i. */
  lemma {:induction false} StepsAt<T, U>(f: (nat, nat, T) -> U, pages: seq<seq<T>>, n: nat, p: nat, i: nat)
    requires p < n <= |pages| && i < |pages[p]|
    ensures |Steps(f, pages, n)| == Offset(pages, n)
    ensures Offset(pages, p) + i < Offset(pages, n)
    ensures Steps(f, pages, n)[Offset(pages, p) + i] == f(p, i, pages[p][i])
  {
    StepsLength(f, pages, n);
    StepsLength(f, pages, n - 1);
    var before := Steps(f, pages, n - 1);
    var last := RowSteps(f, n - 1, pages[n - 1], |pages[n - 1]|);
    RowStepsAt(f, n - 1, pages[n - 1], |pages[n - 1]|);
    var k := Offset(pages, p) + i;
    if p < n - 1 {
      StepsAt(f, pages, n - 1, p, i);
      OffsetMonotonic(pages, p + 1, n - 1);
      assert (before + last)[k] == before[k];
    } else {
      assert (before + last)[k] == last[k - |before|];
    }
  }

  /** Every step is the step of some (page, image) pair. */
  lemma {:induction false} StepSource<T, U>(f: (nat, nat, T) -> U, pages: seq<seq<T>>, n: nat, k: nat)
    requires n <= |pages| && k < |Steps(f, pages, n)|
    ensures exists p :: 0 <= p < n && Offset(pages, p) <= k < Offset(pages, p) + |pages[p]|
  {
    StepsLength(f, pages, n);
    StepsLength(f, pages, n - 1);
    if k >= Offset(pages, n - 1) {
      var p := n - 1;
      assert 0 <= p < n && Offset(pages, p) <= k < Offset(pages, p) + |pages[p]|;
    } else {
      StepSource(f, pages, n - 1, k);
    }
  }

  // ---------------------------------------------------------------------
  // The extraction
  // ---------------------------------------------------------------------

  /** The loop step of `extract_images_from_pdf` for a folder. */
  function WriteStep(folder: string): (nat, nat, EmbeddedImage) -> Write {
    (page: nat, index: nat, image: EmbeddedImage) => ImageWrite(folder, page, index, image)
  }

  /** The writes of an extraction into `folder`. */
  function Writes(doc: Document, folder: string): seq<Write> {
    Steps(WriteStep(folder), doc, |doc|)
  }

  /**
   * `extract_images_from_pdf`: the nested loop over pages and their images,
   * one write per image.
   */
  method ExtractImagesFromPdf(doc: Document, folder: string) returns (writes: seq<Write>)
    ensures writes == Writes(doc, folder)
  {
    ghost var step := WriteStep(folder);
    writes := [];
    for p := 0 to |doc|
      invariant writes == Steps(step, doc, p)
    {
      var images := doc[p];
      for i := 0 to |images|
        invariant writes == Steps(step, doc, p) + RowSteps(step, p, images, i)
      {
        var path := ImageFilePath(folder, p, i, images[i].ext);
        var w := Write(path, images[i].data);
        assert step(p, i, images[i]) == w;
        assert (Steps(step, doc, p) + RowSteps(step, p, images, i)) + [w] == Steps(step, doc, p) + (RowSteps(step, p, images, i) + [w]);
        writes := writes + [w];
      }
    }
  }

  /** The output folder of `__main__`: the PDF path without its extension. */
  function OutputFolder(pdfPath: string): string {
    Splitext(pdfPath).0
  }

  /** `__main__`: derive the folder, then extract into it (`os.makedirs` is not modelled). */
  method Run(pdfPath: string, doc: Document) returns (folder: string, writes: seq<Write>)
    ensures folder == OutputFolder(pdfPath)
    ensures writes == Writes(doc, folder)
  {
    folder := OutputFolder(pdfPath);
    writes := ExtractImagesFromPdf(doc, folder);
  }

  // ---------------------------------------------------------------------
  // Properties
  // ---------------------------------------------------------------------

  /** Image `i` of page `p` is write number Offset(p) + i, to that image's file, with its bytes. */
  lemma WritesAt(doc: Document, folder: string, p: nat, i: nat)
    requires p < |doc| && i < |doc[p]|
    ensures Offset(doc, p) + i < |Writes(doc, folder)|
    ensures Writes(doc, folder)[Offset(doc, p) + i] == Write(ImageFilePath(folder, p, i, doc[p][i].ext), doc[p][i].data)
  {
    StepsAt(WriteStep(folder), doc, |doc|, p, i);
  }

  /** As many writes as images. */
  lemma WritesLength(doc: Document, folder: string)
    ensures |Writes(doc, folder)| == Offset(doc, |doc|)
  {
    StepsLength(WriteStep(folder), doc, |doc|);
  }

  /** The length of the run of digits a string starts with. */
  function DigitRunLength(s: string): nat {
    if s == [] || !IsDigit(s[0]) then 0 else 1 + DigitRunLength(s[1..])
  }

  lemma {:induction false} DigitRunLengthOf(a: string, x: string)
    requires AllDigits(a) && |x| > 0 && !IsDigit(x[0])
    ensures DigitRunLength(a + x) == |a|
  {
    if a != [] {
      assert (a + x)[1..] == a[1..] + x;
      DigitRunLengthOf(a[1..], x);
    } else {
      assert a + x == x;
    }
  }

  /** A run of digits ended by a non-digit is recovered from the string it starts. */
  lemma DigitRunPrefix(a: string, x: string, b: string, y: string)
    requires AllDigits(a) && AllDigits(b)
    requires |x| > 0 && !IsDigit(x[0]) && |y| > 0 && !IsDigit(y[0])
    requires a + x == b + y
    ensures a == b && x == y
  {
    DigitRunLengthOf(a, x);
    DigitRunLengthOf(b, y);
    assert a == (a + x)[..|a|] && b == (b + y)[..|b|];
    assert x == (a + x)[|a|..] && y == (b + y)[|b|..];
  }

  /** The name pattern with digit fields is uniquely readable. */
  lemma NameFieldsInjective(a1: string, b1: string, e1: string, a2: string, b2: string, e2: string)
    requires AllDigits(a1) && AllDigits(b1) && AllDigits(a2) && AllDigits(b2)
    requires "page_" + (a1 + ("_img_" + (b1 + ("." + e1)))) == "page_" + (a2 + ("_img_" + (b2 + ("." + e2))))
    ensures a1 == a2 && b1 == b2 && e1 == e2
  {
    var t1, t2 := "." + e1, "." + e2;
    var r1, r2 := "_img_" + (b1 + t1), "_img_" + (b2 + t2);
    assert ("page_" + (a1 + r1))[|"page_"|..] == a1 + r1;
    assert ("page_" + (a2 + r2))[|"page_"|..] == a2 + r2;
    DigitRunPrefix(a1, r1, a2, r2);
    assert ("_img_" + (b1 + t1))[|"_img_"|..] == b1 + t1;
    assert ("_img_" + (b2 + t2))[|"_img_"|..] == b2 + t2;
    DigitRunPrefix(b1, t1, b2, t2);
    assert ("." + e1)[|"."|..] == e1;
    assert ("." + e2)[|"."|..] == e2;
  }

  lemma ImageFileNameFields(p1: nat, i1: nat, e1: string, p2: nat, i2: nat, e2: string)
    requires ImageFileName(p1, i1, e1) == ImageFileName(p2, i2, e2)
    ensures ZeroPadded(p1 + 1, 3) == ZeroPadded(p2 + 1, 3)
    ensures ZeroPadded(i1 + 1, 3) == ZeroPadded(i2 + 1, 3)
    ensures e1 == e2
  {
    ZeroPaddedShape(p1 + 1, 3);
    ZeroPaddedShape(p2 + 1, 3);
    ZeroPaddedShape(i1 + 1, 3);
    ZeroPaddedShape(i2 + 1, 3);
    NameFieldsInjective(ZeroPadded(p1 + 1, 3), ZeroPadded(i1 + 1, 3), e1, ZeroPadded(p2 + 1, 3), ZeroPadded(i2 + 1, 3), e2);
  }

  /** Different (page, image) pairs get different file names, whatever the extensions. */
  lemma ImageFileNamesDistinct(p1: nat, i1: nat, e1: string, p2: nat, i2: nat, e2: string)
    requires ImageFileName(p1, i1, e1) == ImageFileName(p2, i2, e2)
    ensures p1 == p2 && i1 == i2 && e1 == e2
  {
    ImageFileNameFields(p1, i1, e1, p2, i2, e2);
    ZeroPaddedInjective(p1 + 1, p2 + 1, 3);
    ZeroPaddedInjective(i1 + 1, i2 + 1, 3);
  }

  /** Files of different (page, image) pairs in one folder are different files. */
  lemma ImageFilePathsDistinct(folder: string, p1: nat, i1: nat, e1: string, p2: nat, i2: nat, e2: string)
    requires p1 != p2 || i1 != i2
    ensures ImageFilePath(folder, p1, i1, e1) != ImageFilePath(folder, p2, i2, e2)
  {
    var m1, m2 := ImageFileName(p1, i1, e1), ImageFileName(p2, i2, e2);
    assert (folder + "/" + m1)[|folder + "/"|..] == m1;
    assert (folder + "/" + m2)[|folder + "/"|..] == m2;
    if m1 == m2 {
      ImageFileNamesDistinct(p1, i1, e1, p2, i2, e2);
    }
  }

  /** No two writes of one extraction go to the same file. */
  lemma WritePathsDistinct(doc: Document, folder: string, k1: nat, k2: nat)
    requires k1 < k2 < |Writes(doc, folder)|
    ensures Writes(doc, folder)[k1].path != Writes(doc, folder)[k2].path
  {
    var p1, i1 := WriteSource(doc, folder, k1);
    var p2, i2 := WriteSource(doc, folder, k2);
    WritePathsOfDistinctImages(doc, folder, p1, i1, p2, i2);
  }

  /** The page and image a write comes from. */
  lemma WriteSource(doc: Document, folder: string, k: nat) returns (p: nat, i: nat)
    requires k < |Writes(doc, folder)|
    ensures p < |doc| && i < |doc[p]| && k == Offset(doc, p) + i
  {
    StepSource(WriteStep(folder), doc, |doc|, k);
    p :| 0 <= p < |doc| && Offset(doc, p) <= k < Offset(doc, p) + |doc[p]|;
    i := k - Offset(doc, p);
  }

  /** The writes of two different images go to different files. */
  lemma WritePathsOfDistinctImages(doc: Document, folder: string, p1: nat, i1: nat, p2: nat, i2: nat)
    requires p1 < |doc| && i1 < |doc[p1]| && p2 < |doc| && i2 < |doc[p2]|
    requires p1 != p2 || i1 != i2
    ensures Offset(doc, p1) + i1 < |Writes(doc, folder)| && Offset(doc, p2) + i2 < |Writes(doc, folder)|
    ensures Writes(doc, folder)[Offset(doc, p1) + i1].path != Writes(doc, folder)[Offset(doc, p2) + i2].path
  {
    WritesAt(doc, folder, p1, i1);
    WritesAt(doc, folder, p2, i2);
    ImageFilePathsDistinct(folder, p1, i1, doc[p1][i1].ext, p2, i2, doc[p2][i2].ext);
  }

  /** A 3-wide numeral field decides the order of two names unless both fields hold the same number. */
  lemma PaddedFieldOrder(x: nat, y: nat, r1: string, r2: string)
    requires x < 1000 && y < 1000
    ensures x != y ==> (Less(ZeroPadded(x, 3) + r1, ZeroPadded(y, 3) + r2) <==> x < y)
    ensures x == y ==> (Less(ZeroPadded(x, 3) + r1, ZeroPadded(y, 3) + r2) <==> Less(r1, r2))
  {
    var a, b := ZeroPadded(x, 3), ZeroPadded(y, 3);
    ZeroPadded3Digits(x);
    ZeroPadded3Digits(y);
    if x != y {
      ZeroPadded3Order(x, y);
      if a == b {
        ZeroPaddedInjective(x, y, 3);
      }
      LessEqualLengthPrefix(a, b, r1, r2);
    } else {
      LessCommonPrefix(a, r1, r2);
    }
  }

  /**
   * Up to 999 pages and 999 images per page, sorting the names of one
   * extension as strings orders them by page, then by image: the order the
   * transcription driver's directory scan relies on.
   */
  lemma ImageFileNameOrder(p1: nat, i1: nat, p2: nat, i2: nat, ext: string)
    requires p1 < 999 && i1 < 999 && p2 < 999 && i2 < 999
    ensures Less(ImageFileName(p1, i1, ext), ImageFileName(p2, i2, ext)) <==> p1 < p2 || (p1 == p2 && i1 < i2)
  {
    var a1, b1 := ZeroPadded(p1 + 1, 3), ZeroPadded(i1 + 1, 3);
    var a2, b2 := ZeroPadded(p2 + 1, 3), ZeroPadded(i2 + 1, 3);
    var t := "." + ext;
    var r1, r2 := "_img_" + (b1 + t), "_img_" + (b2 + t);
    LessCommonPrefix("page_", a1 + r1, a2 + r2);
    PaddedFieldOrder(p1 + 1, p2 + 1, r1, r2);
    LessCommonPrefix("_img_", b1 + t, b2 + t);
    PaddedFieldOrder(i1 + 1, i2 + 1, t, t);
    LessIrreflexive(t);
  }

  /** A PDF path `<stem>.pdf` whose file name has a character other than `.` before the extension gives folder `<stem>`. */
  lemma OutputFolderOfPdf(pdfPath: string)
    requires EndsWith(pdfPath, ".pdf")
    requires HasNonDotBetween(pdfPath, RFind(pdfPath, '/') + 1, |pdfPath| - 4)
    ensures OutputFolder(pdfPath) == pdfPath[..|pdfPath| - 4]
  {
    PdfExtension();
    SplitextAt(pdfPath, ".pdf", |pdfPath| - 4);
  }

  /** `.pdf` is a dot followed by neither dots nor slashes. */
  lemma PdfExtension()
    ensures IsOneExtension(".pdf")
    ensures |".pdf"| == 4
  {
  }

  /** The unpadded names `page_{n}_img_{m}.jpg` that the pdfplumber variant at the repository root writes. */
  function UnpaddedImageFileName(page: nat, index: nat): string {
    "page_" + Decimal(page + 1) + "_img_" + Decimal(index + 1) + ".jpg"
  }

  /** Without padding, page 10 sorts before page 2. */
  lemma UnpaddedNamesMisorder()
    ensures Less(UnpaddedImageFileName(9, 0), UnpaddedImageFileName(1, 0))
  {
    assert Decimal(10) == "10";
    assert UnpaddedImageFileName(9, 0) == "page_" + "10_img_1.jpg";
    assert UnpaddedImageFileName(1, 0) == "page_" + "2_img_1.jpg";
    LessCommonPrefix("page_", "10_img_1.jpg", "2_img_1.jpg");
  }
}
