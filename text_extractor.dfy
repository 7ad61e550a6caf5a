/**
 * `pdf_to_text`: rasterise the uploaded PDF, OCR every page in order and
 * append each page's text followed by a newline.  Rasterising and OCR are
 * outside the model and arrive as functions that either return or raise.
 */
module TextExtractor {
  import opened Results
  import opened TextOps

  /** The prefix of the message shown to the user when extraction raises. */
  const ProcessingError: string := "\U{274C} PDF processing error: "

  /** OCR of the pages in order; the first page whose OCR raises ends it with that error. */
  function OcrPages<Image>(images: seq<Image>, ocr: Image -> Result<string>): Result<seq<string>>
    decreases |images|
  {
    if images == [] then Ok([])
    else
      match OcrPages(images[..|images| - 1], ocr)
      case Err(m) => Err(m)
      case Ok(texts) =>
        match ocr(images[|images| - 1])
        case Err(m) => Err(m)
        case Ok(t) => Ok(texts + [t])
  }

  /** Each page's text followed by a newline, in page order. */
  function PageText(texts: seq<string>): string
    decreases |texts|
  {
    if texts == [] then [] else PageText(texts[..|texts| - 1]) + texts[|texts| - 1] + "\n"
  }

  /**
   * What `pdf_to_text` returns, and the error it reports: the page text when
   * every step succeeds, the empty string and a report when any step raises.
   */
  function PdfText<Image>(pdf: seq<bv8>, convert: seq<bv8> -> Result<seq<Image>>,
                          ocr: Image -> Result<string>): (string, Option<string>)
  {
    match convert(pdf)
    case Err(m) => ([], Some(ProcessingError + m))
    case Ok(images) =>
      match OcrPages(images, ocr)
      case Err(m) => ([], Some(ProcessingError + m))
      case Ok(texts) => (PageText(texts), None)
  }

  /**
   * Page by page: OCR of the document succeeds exactly when every page's OCR
   * succeeds, and then text `i` is page `i`'s OCR result.
   */
  lemma {:induction false} OcrPagesPointwise<Image>(images: seq<Image>, ocr: Image -> Result<string>)
    ensures OcrPages(images, ocr).Ok? <==> forall i :: 0 <= i < |images| ==> ocr(images[i]).Ok?
    ensures OcrPages(images, ocr).Ok? ==>
              |OcrPages(images, ocr).value| == |images|
              && forall i :: 0 <= i < |images| ==> OcrPages(images, ocr).value[i] == ocr(images[i]).value
    decreases |images|
  {
    if images != [] {
      var init := images[..|images| - 1];
      OcrPagesPointwise(init, ocr);
      assert forall i :: 0 <= i < |init| ==> init[i] == images[i];
    }
  }

  /** Once a page's OCR has raised, the pages after it change nothing. */
  lemma {:induction false} OcrErrorStops<Image>(images: seq<Image>, k: nat, ocr: Image -> Result<string>)
    requires k <= |images| && OcrPages(images[..k], ocr).Err?
    ensures OcrPages(images, ocr) == OcrPages(images[..k], ocr)
    decreases |images| - k
  {
    if k < |images| {
      var next := images[..k + 1];
      assert next[..k] == images[..k];
      assert OcrPages(next, ocr) == OcrPages(images[..k], ocr);
      OcrErrorStops(images, k + 1, ocr);
    } else {
      assert images[..k] == images;
    }
  }

  /** The loop of `pdf_to_text`, with its `try`/`except`. */
  method PdfToText<Image>(pdf: seq<bv8>, convert: seq<bv8> -> Result<seq<Image>>,
                          ocr: Image -> Result<string>)
    returns (text: string, report: Option<string>)
    ensures (text, report) == PdfText(pdf, convert, ocr)
  {
    var converted := convert(pdf);
    if converted.Err? {
      return [], Some(ProcessingError + converted.message);
    }
    var images := converted.value;
    text := [];
    ghost var texts: seq<string> := [];
    for i := 0 to |images|
      invariant OcrPages(images[..i], ocr) == Ok(texts)
      invariant text == PageText(texts)
    {
      assert images[..i + 1][..i] == images[..i];
      var page := ocr(images[i]);
      if page.Err? {
        OcrErrorStops(images, i + 1, ocr);
        return [], Some(ProcessingError + page.message);
      }
      text := text + page.value + "\n";
      texts := texts + [page.value];
    }
    assert images[..|images|] == images;
    report := None;
  }

  /** The page text is empty exactly when the document has no pages. */
  lemma PageTextEmpty(texts: seq<string>)
    ensures PageText(texts) == [] <==> texts == []
  {
  }

  lemma {:induction false} PageTextAppend(a: seq<string>, b: seq<string>)
    ensures PageText(a + b) == PageText(a) + PageText(b)
    decreases |b|
  {
    if b != [] {
      var b' := b[..|b| - 1];
      assert (a + b)[..|a + b| - 1] == a + b';
      assert (a + b)[|a + b| - 1] == b[|b| - 1];
      PageTextAppend(a, b');
    } else {
      assert a + b == a;
    }
  }

  /** The page text is the pages joined by newlines, with one more newline at the end. */
  lemma {:induction false} PageTextIsJoin(texts: seq<string>)
    ensures PageText(texts) == Join(texts + [[]], '\n')
    decreases |texts|
  {
    if texts != [] {
      var rest := texts[1..];
      PageTextIsJoin(rest);
      assert texts == [texts[0]] + rest;
      PageTextAppend([texts[0]], rest);
      assert PageText([texts[0]]) == PageText([]) + texts[0] + "\n";
      assert (texts + [[]])[1..] == rest + [[]];
    }
  }

  /** When no page's text holds a newline, splitting the result gives the pages back, and one empty line. */
  lemma PagesRecoverable(texts: seq<string>)
    requires forall i :: 0 <= i < |texts| ==> '\n' !in texts[i]
    ensures Split(PageText(texts), '\n') == texts + [[]]
  {
    PageTextIsJoin(texts);
    SplitJoin(texts + [[]], '\n');
  }
}
