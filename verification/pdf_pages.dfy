/** The page-level PDF operations of the tools: extracting pages, turning
    pages, numbering pages, dropping the last page and building a document
    from images. A document is its sequence of pages; what the PDF library
    does with bytes, fonts and drawing is outside the model. */
module PdfPages {
  import opened Wrappers
  import opened JsText
  import opened PageRanges

  /** An embedded picture with the pixel size the image library reports. */
  datatype Image = Image(width: nat, height: nat)

  /** Something drawn on a page: a line of text, or a picture covering the
      whole page from its lower-left corner. */
  datatype Mark = Label(text: string) | Picture(image: Image)

  /** A page: its size, its rotation in degrees and what is drawn on it. */
  datatype Page = Page(width: nat, height: nat, rotation: int, marks: seq<Mark>)

  type Document = seq<Page>

  // ---------------------------------------------------------------------
  // Extracting pages

  /** The split page: the document made of the selected pages, in the
      order the selection lists them. */
  function SplitPdf(doc: Document, spec: string): (r: Result<Document, SplitError>)
    ensures r.Err? <==> SplitPages(spec, |doc|).Err?
    ensures r.Err? ==> r.error == SplitPages(spec, |doc|).error
    ensures r.Ok? ==> |r.value| == |SplitPages(spec, |doc|).value|
    ensures r.Ok? ==> forall k :: 0 <= k < |r.value| ==> r.value[k] == doc[SplitPages(spec, |doc|).value[k]]
  {
    match SplitPages(spec, |doc|)
    case Err(e) => Err(e)
    case Ok(pages) => Ok(seq(|pages|, k requires 0 <= k < |pages| => doc[pages[k]]))
  }

  /** The function library hands the page list to the PDF library's copy,
      which cannot copy a page the document lacks or a `NaN` index. */
  datatype CopyError = MissingPage(index: Option<int>)

  /** Copies the listed pages, in list order and repeats included; fails at
      the first index naming no page of the document. */
  function CopyPages(doc: Document, indices: seq<Option<int>>): (r: Result<Document, CopyError>)
    ensures r.Ok? <==> forall k :: 0 <= k < |indices| ==> indices[k].Some? && 0 <= indices[k].value < |doc|
    ensures r.Ok? ==> |r.value| == |indices|
    ensures r.Ok? ==> forall k :: 0 <= k < |indices| ==> r.value[k] == doc[indices[k].value]
    ensures r.Err? ==> r.error.index in indices
  {
    if |indices| == 0 then Ok([])
    else
      var i := indices[0];
      if i.None? || i.value < 0 || i.value >= |doc| then Err(MissingPage(i))
      else
        match CopyPages(doc, indices[1..])
        case Err(e) => Err(e)
        case Ok(rest) => Ok([doc[i.value]] + rest)
  }

  /** The function library's split: copy the pages the text keeps. */
  function HandleSplit(doc: Document, spec: string): Result<Document, CopyError> {
    CopyPages(doc, KeepPages(spec, |doc|))
  }

  /** With a blank text the function library's split copies the whole
      document unchanged. */
  lemma HandleSplitBlank(doc: Document, spec: string)
    requires AllSpace(spec)
    ensures HandleSplit(doc, spec) == Ok(doc)
  {
    KeepPagesBlank(spec, |doc|);
    var r := HandleSplit(doc, spec);
    assert r.Ok?;
    assert r.value == doc;
  }

  /** Where both splits succeed on a non-blank text, they produce the same
      pages, the split page without repeats. */
  lemma SplitsAgree(doc: Document, spec: string, page: Page)
    requires !AllSpace(spec)
    requires SplitPdf(doc, spec).Ok? && HandleSplit(doc, spec).Ok?
    ensures page in SplitPdf(doc, spec).value <==> page in HandleSplit(doc, spec).value
  {
    if page in SplitPdf(doc, spec).value {
      SplitPageIsKept(doc, spec, page);
    }
    if page in HandleSplit(doc, spec).value {
      KeptPageIsSplit(doc, spec, page);
    }
  }

  lemma SplitPageIsKept(doc: Document, spec: string, page: Page)
    requires !AllSpace(spec)
    requires SplitPdf(doc, spec).Ok? && HandleSplit(doc, spec).Ok?
    requires page in SplitPdf(doc, spec).value
    ensures page in HandleSplit(doc, spec).value
  {
    var sel := SplitPages(spec, |doc|).value;
    var keep := KeepPages(spec, |doc|);
    var a := SplitPdf(doc, spec).value;
    var k :| 0 <= k < |a| && a[k] == page;
    assert Some(sel[k]) in keep by {
      assert sel[k] in sel;
      SplitAgreesWithKeep(spec, |doc|, sel[k]);
    }
    var m :| 0 <= m < |keep| && keep[m] == Some(sel[k]);
    var b := HandleSplit(doc, spec).value;
    assert b == CopyPages(doc, keep).value;
    assert a[k] == doc[sel[k]];
    assert b[m] == doc[sel[k]];
  }

  lemma KeptPageIsSplit(doc: Document, spec: string, page: Page)
    requires !AllSpace(spec)
    requires SplitPdf(doc, spec).Ok? && HandleSplit(doc, spec).Ok?
    requires page in HandleSplit(doc, spec).value
    ensures page in SplitPdf(doc, spec).value
  {
    var sel := SplitPages(spec, |doc|).value;
    var keep := KeepPages(spec, |doc|);
    var b := HandleSplit(doc, spec).value;
    var m :| 0 <= m < |b| && b[m] == page;
    assert b == CopyPages(doc, keep).value;
    var p := keep[m].value;
    assert p in sel by {
      assert keep[m] in keep;
      SplitAgreesWithKeep(spec, |doc|, p);
    }
    var k :| 0 <= k < |sel| && sel[k] == p;
    assert SplitPdf(doc, spec).value[k] == doc[p];
  }

  // ---------------------------------------------------------------------
  // Turning pages

  /** JavaScript's integer division, truncated toward zero. */
  function JsQuot(a: int, m: int): int
    requires m > 0
  {
    if a >= 0 then a / m else -((-a) / m)
  }

  /** JavaScript's `%`: the remainder of division truncated toward zero,
      which keeps the sign of the dividend. */
  function JsRem(a: int, m: int): (r: int)
    requires m > 0
    ensures a >= 0 ==> 0 <= r < m
    ensures a < 0 ==> -m < r <= 0
    ensures a == m * JsQuot(a, m) + r
  {
    if a >= 0 then a % m else -((-a) % m)
  }

  /** The direction a page faces: its rotation reduced to 0, 90, 180 or 270
      when the rotation is a multiple of 90. */
  function Facing(rotation: int): int {
    rotation % 360
  }

  /** The function library's turn: every page a further 90 degrees, with no
      reduction of the angle. */
  function RotateQuarter(doc: Document): (r: Document)
    ensures |r| == |doc|
    ensures forall k :: 0 <= k < |doc| ==>
      r[k] == doc[k].(rotation := doc[k].rotation + 90)
  {
    seq(|doc|, k requires 0 <= k < |doc| => doc[k].(rotation := doc[k].rotation + 90))
  }

  /** Four quarter turns bring every page back to the direction it faced,
      though its stored angle has grown by 360. */
  lemma FourQuartersFaceTheSameWay(doc: Document)
    ensures var r := RotateQuarter(RotateQuarter(RotateQuarter(RotateQuarter(doc))));
      |r| == |doc| &&
      forall k :: 0 <= k < |doc| ==>
        r[k].rotation == doc[k].rotation + 360 && Facing(r[k].rotation) == Facing(doc[k].rotation) &&
        r[k].(rotation := doc[k].rotation) == doc[k]
  {
  }

  /** The turn made by the tools page's rotate page: each page to the
      remainder of its angle plus the chosen one. An angle that is not a number is a
      failure as soon as one page is turned; a document with no pages is
      saved as it is. */
  function RotateBy(doc: Document, angle: Option<int>): (r: Option<Document>)
    ensures r.Some? <==> angle.Some? || |doc| == 0
    ensures r.Some? ==> |r.value| == |doc|
  {
    match angle
    case None => if |doc| == 0 then Some(doc) else None
    case Some(a) =>
      Some(seq(|doc|, k requires 0 <= k < |doc| => doc[k].(rotation := JsRem(doc[k].rotation + a, 360))))
  }

  /** The turn by a chosen angle leaves each page facing where adding the
      angle would, with an angle strictly between -360 and 360 that keeps
      the sign of the sum, and changes nothing else about the page. */
  lemma RotateByFacing(doc: Document, a: int)
    ensures var r := RotateBy(doc, Some(a)).value;
      forall k :: 0 <= k < |doc| ==>
        Facing(r[k].rotation) == Facing(doc[k].rotation + a) &&
        -360 < r[k].rotation < 360 &&
        (doc[k].rotation + a >= 0 ==> r[k].rotation >= 0) &&
        (doc[k].rotation + a < 0 ==> r[k].rotation <= 0) &&
        r[k].(rotation := doc[k].rotation) == doc[k]
  {
    var r := RotateBy(doc, Some(a)).value;
    forall k | 0 <= k < |doc|
      ensures Facing(r[k].rotation) == Facing(doc[k].rotation + a)
    {
      var x := doc[k].rotation + a;
      SameFacing(x, r[k].rotation, JsQuot(x, 360));
    }
  }

  lemma SameFacing(x: int, y: int, q: int)
    requires x == 360 * q + y
    ensures Facing(x) == Facing(y)
  {
    assert (y + 360 * q) % 360 == y % 360;
  }

  /** Reading the chosen angle from the form: the value goes through
      `parseInt`, so text that is not a number gives the failure. */
  function RotatePdf(doc: Document, angleText: string): (r: Option<Document>)
    ensures r.Some? <==> StartsNumber(TrimStart(angleText)) || |doc| == 0
    ensures r.Some? ==> |r.value| == |doc|
  {
    RotateBy(doc, ParseInt(angleText))
  }

  /** Whatever number the chosen text reads as, each page faces where adding
      it would, with an angle strictly between -360 and 360 that keeps the
      sign of the sum, and nothing else about the page changes. */
  lemma RotatePdfTurns(doc: Document, angleText: string)
    requires StartsNumber(TrimStart(angleText))
    ensures RotatePdf(doc, angleText) == RotateBy(doc, Some(ParseInt(angleText).value))
    ensures var a := ParseInt(angleText).value;
      var r := RotatePdf(doc, angleText).value;
      |r| == |doc| &&
      forall k :: 0 <= k < |doc| ==>
        Facing(r[k].rotation) == Facing(doc[k].rotation + a) &&
        -360 < r[k].rotation < 360 &&
        (doc[k].rotation + a >= 0 ==> r[k].rotation >= 0) &&
        (doc[k].rotation + a < 0 ==> r[k].rotation <= 0) &&
        r[k].(rotation := doc[k].rotation) == doc[k]
  {
    var a := ParseInt(angleText).value;
    assert RotatePdf(doc, angleText) == RotateBy(doc, Some(a));
    RotateByFacing(doc, a);
  }

  /** Choosing "90" on the tools page's rotate page faces each page where
      one quarter turn of the function library does. */
  lemma RotationsAgree(doc: Document)
    ensures RotatePdf(doc, NatToDecimal(90)).Some?
    ensures var a := RotatePdf(doc, NatToDecimal(90)).value;
      var b := RotateQuarter(doc);
      |a| == |b| && forall k :: 0 <= k < |a| ==> Facing(a[k].rotation) == Facing(b[k].rotation)
  {
    ParseIntWhole(90);
    RotateByFacing(doc, 90);
  }

  // ---------------------------------------------------------------------
  // Numbering pages

  const LabelStart: string := "Página "
  const LabelMiddle: string := " de "

  /** The text put on page `number` of `total`. */
  function PageLabel(number: nat, total: nat): string {
    LabelStart + NatToDecimal(number) + LabelMiddle + NatToDecimal(total)
  }

  /** Draws "Página i de n" on every page, counting from one. */
  function NumberPages(doc: Document): (r: Document)
    ensures |r| == |doc|
    ensures forall k :: 0 <= k < |doc| ==>
      r[k] == doc[k].(marks := doc[k].marks + [Label(PageLabel(k + 1, |doc|))])
  {
    seq(|doc|, k requires 0 <= k < |doc| => doc[k].(marks := doc[k].marks + [Label(PageLabel(k + 1, |doc|))]))
  }

  /** The number in a label reads back with `parseInt` after the fixed
      start. */
  lemma PageLabelReadsBack(number: nat, total: nat)
    ensures |PageLabel(number, total)| > |LabelStart|
    ensures ParseInt(PageLabel(number, total)[|LabelStart|..]) == Some(number)
  {
    var text := PageLabel(number, total);
    var rest := LabelMiddle + NatToDecimal(total);
    assert text[|LabelStart|..] == NatToDecimal(number) + rest;
    assert rest[0] == ' ';
    ParseIntDecimal(number, rest);
  }

  /** Numbering gives each page its own label, and the label of page `k`
      names `k + 1`. */
  lemma NumberPagesDistinct(doc: Document, i: int, j: int)
    requires 0 <= i < |doc| && 0 <= j < |doc|
    ensures ParseInt(PageLabel(i + 1, |doc|)[|LabelStart|..]) == Some(i + 1)
    ensures i != j ==> PageLabel(i + 1, |doc|) != PageLabel(j + 1, |doc|)
  {
    PageLabelReadsBack(i + 1, |doc|);
    if i != j {
      LabelsDiffer(i + 1, j + 1, |doc|);
    }
  }

  lemma LabelsDiffer(x: nat, y: nat, total: nat)
    requires x != y
    ensures PageLabel(x, total) != PageLabel(y, total)
  {
    PageLabelReadsBack(x, total);
    PageLabelReadsBack(y, total);
  }

  // ---------------------------------------------------------------------
  // Dropping the last page

  datatype OrganizeError = TooFewPages {
    function Message(): string {
      "O PDF precisa ter mais de uma página para que a última seja removida."
    }
  }

  /** Removes the last page, but only from a document of more than one. */
  function DeleteLastPage(doc: Document): (r: Result<Document, OrganizeError>)
    ensures r.Ok? <==> |doc| > 1
    ensures r.Ok? ==> r.value + [doc[|doc| - 1]] == doc
  {
    if |doc| > 1 then Ok(doc[..|doc| - 1]) else Err(TooFewPages)
  }

  // ---------------------------------------------------------------------
  // Images to a document

  /** An image file as the form gives it: its media type, and the picture
      the image library decodes from it. */
  datatype ImageFile = ImageFile(mediaType: string, picture: Image)

  predicate Supported(f: ImageFile) {
    f.mediaType == "image/jpeg" || f.mediaType == "image/png"
  }

  /** The page made for a supported image: the image's size, unturned, with
      the image drawn over all of it. */
  function ImagePage(img: Image): Page {
    Page(img.width, img.height, 0, [Picture(img)])
  }

  function SkipWarning(mediaType: string): string {
    "Formato de arquivo não suportado: " + mediaType + ". Pulando."
  }

  /** The pages made and the warnings shown, file after file. */
  datatype Conversion = Conversion(pages: Document, warnings: seq<string>)

  /** One page per supported file and one warning per other file, both in
      file order. */
  function ConvertImages(files: seq<ImageFile>): (r: Conversion)
    ensures |r.pages| + |r.warnings| == |files|
  {
    if |files| == 0 then Conversion([], [])
    else
      var c := ConvertImages(files[..|files| - 1]);
      var f := files[|files| - 1];
      if Supported(f) then Conversion(c.pages + [ImagePage(f.picture)], c.warnings)
      else Conversion(c.pages, c.warnings + [SkipWarning(f.mediaType)])
  }

  datatype ImageError = NoSupportedImage {
    function Message(): string {
      "Nenhuma imagem compatível (JPG/PNG) foi encontrada para converter."
    }
  }

  /** The converter's outcome: the document, or a failure when no file was a
      supported image; the warnings are shown either way. */
  function JpgToPdf(files: seq<ImageFile>): (r: (Result<Document, ImageError>, seq<string>))
    ensures r.0.Err? <==> forall k :: 0 <= k < |files| ==> !Supported(files[k])
    ensures r.0.Ok? ==> |r.0.value| == |Only(files, true)|
    ensures r.0.Ok? ==> forall k :: 0 <= k < |r.0.value| ==> r.0.value[k] == ImagePage(Only(files, true)[k].picture)
    ensures |r.1| == |Only(files, false)|
    ensures forall k :: 0 <= k < |r.1| ==> r.1[k] == SkipWarning(Only(files, false)[k].mediaType)
  {
    var c := ConvertImages(files);
    ConvertedPagesAreSupported(files);
    if |c.pages| == 0 then (Err(NoSupportedImage), c.warnings) else (Ok(c.pages), c.warnings)
  }

  /** The pages are the supported files' pictures in order, and the warnings
      name the other files' media types in order. */
  lemma {:induction false} ConvertedPagesAreSupported(files: seq<ImageFile>)
    ensures var c := ConvertImages(files);
      |c.pages| == |Only(files, true)| && |c.warnings| == |Only(files, false)| &&
      (forall k :: 0 <= k < |c.pages| ==> c.pages[k] == ImagePage(Only(files, true)[k].picture)) &&
      (forall k :: 0 <= k < |c.warnings| ==> c.warnings[k] == SkipWarning(Only(files, false)[k].mediaType))
    ensures |ConvertImages(files).pages| == 0 <==> forall k :: 0 <= k < |files| ==> !Supported(files[k])
    decreases |files|
  {
    if |files| > 0 {
      var init := files[..|files| - 1];
      ConvertedPagesAreSupported(init);
      OnlyEmpty(files);
    }
  }

  /** The files that are (`keep` true) or are not supported, in order. */
  function Only(files: seq<ImageFile>, keep: bool): (r: seq<ImageFile>)
    ensures forall k :: 0 <= k < |r| ==> Supported(r[k]) == keep
    ensures |r| <= |files|
  {
    if |files| == 0 then []
    else
      var init := Only(files[..|files| - 1], keep);
      if Supported(files[|files| - 1]) == keep then init + [files[|files| - 1]] else init
  }

  /** Each file of the chosen kind is kept as many times as it was given,
      and no other file is kept. */
  lemma {:induction false} OnlyCount(files: seq<ImageFile>, keep: bool, f: ImageFile)
    ensures multiset(Only(files, keep))[f] == if Supported(f) == keep then multiset(files)[f] else 0
    ensures f in Only(files, keep) <==> f in files && Supported(f) == keep
    decreases |files|
  {
    if |files| > 0 {
      var init := files[..|files| - 1];
      OnlyCount(init, keep, f);
      assert files == init + [files[|files| - 1]];
    }
  }

  /** Filtering two batches one after the other is filtering them together,
      so the files kept stay in their order. */
  lemma {:induction false} OnlyAppend(a: seq<ImageFile>, b: seq<ImageFile>, keep: bool)
    ensures Only(a + b, keep) == Only(a, keep) + Only(b, keep)
    decreases |b|
  {
    if |b| == 0 {
      assert a + b == a;
    } else {
      var ab := a + b;
      var init := b[..|b| - 1];
      assert ab[..|ab| - 1] == a + init;
      assert ab[|ab| - 1] == b[|b| - 1];
      OnlyAppend(a, init, keep);
      if Supported(b[|b| - 1]) == keep {
        SeqAssoc(Only(a, keep), Only(init, keep), [b[|b| - 1]]);
      }
    }
  }

  /** No file is kept as supported exactly when none is supported. */
  lemma {:induction false} OnlyEmpty(files: seq<ImageFile>)
    ensures |Only(files, true)| == 0 <==> forall k :: 0 <= k < |files| ==> !Supported(files[k])
    decreases |files|
  {
    if |files| > 0 {
      var init := files[..|files| - 1];
      OnlyEmpty(init);
      if |Only(files, true)| == 0 {
        forall k | 0 <= k < |files| ensures !Supported(files[k]) {
          if k < |init| {
            assert files[k] == init[k];
          }
        }
      }
    }
  }

  /** Converting two batches one after the other is converting them
      together. */
  lemma {:induction false} ConvertImagesAppend(a: seq<ImageFile>, b: seq<ImageFile>)
    ensures ConvertImages(a + b).pages == ConvertImages(a).pages + ConvertImages(b).pages
    ensures ConvertImages(a + b).warnings == ConvertImages(a).warnings + ConvertImages(b).warnings
    decreases |b|
  {
    if |b| == 0 {
      assert a + b == a;
    } else {
      var ab := a + b;
      var init := b[..|b| - 1];
      assert ab[..|ab| - 1] == a + init;
      assert ab[|ab| - 1] == b[|b| - 1];
      ConvertImagesAppend(a, init);
      var ca := ConvertImages(a);
      var ci := ConvertImages(init);
      if Supported(b[|b| - 1]) {
        SeqAssoc(ca.pages, ci.pages, [ImagePage(b[|b| - 1].picture)]);
      } else {
        SeqAssoc(ca.warnings, ci.warnings, [SkipWarning(b[|b| - 1].mediaType)]);
      }
    }
  }
}
