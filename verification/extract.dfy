/**
 The `/extract` handler: decode the base64 payload, write it to a temporary
 file, read every page's text with the PDF library, concatenate the pages in
 order and strip the result.
 */
module Extract {
  import opened Wrappers
  import opened Text

  newtype byte = x: int | 0 <= x < 256

  /** What `base64.b64decode` makes of the request's `file_base64`. */
  datatype Decoded = Invalid(message: string) | Bytes(data: seq<byte>)

  /** What the PDF library makes of the bytes: either an exception (the file
      could not be opened or a page could not be read) or, page by page, the
      result of `extract_text()`, where None stands for Python's `None`. */
  datatype PdfRead = Unreadable(message: string) | Pages(texts: seq<Option<string>>)

  /** The handler's outcome, with what it leaves behind on disk: whether the
      temporary file was created and whether it is still there afterwards. */
  datatype Extraction = Extraction(result: Outcome<string>, tempWritten: bool, tempLeft: bool)

  const BadRequest: int := 400
  const ExtractErrorPrefix: string := "Erro ao processar PDF: "

  /** A page's text, a page without any counting as the empty string. */
  function PageText(page: Option<string>): string {
    page.GetOr("")
  }

  /** Reference definition: the texts of the pages, first page first. */
  function ConcatPages(pages: seq<Option<string>>): string
    decreases |pages|
  {
    if |pages| == 0 then "" else PageText(pages[0]) + ConcatPages(pages[1..])
  }

  lemma {:induction false} ConcatPagesAppend(a: seq<Option<string>>, b: seq<Option<string>>)
    ensures ConcatPages(a + b) == ConcatPages(a) + ConcatPages(b)
    decreases |a|
  {
    if |a| == 0 {
      assert a + b == b;
    } else {
      assert (a + b)[0] == a[0];
      assert (a + b)[1..] == a[1..] + b;
      ConcatPagesAppend(a[1..], b);
    }
  }

  /** Page order: page `i`'s text sits between the text of the pages before
      it and the text of the pages after it. */
  lemma PageInPlace(pages: seq<Option<string>>, i: int)
    requires 0 <= i < |pages|
    ensures ConcatPages(pages) == ConcatPages(pages[..i]) + PageText(pages[i]) + ConcatPages(pages[i + 1..])
  {
    assert pages == pages[..i] + pages[i..];
    ConcatPagesAppend(pages[..i], pages[i..]);
    assert pages[i..][1..] == pages[i + 1..];
  }

  /** Pages with no text contribute nothing. */
  lemma {:induction false} ConcatBlankPages(pages: seq<Option<string>>)
    requires forall i :: 0 <= i < |pages| ==> AllSpace(PageText(pages[i]))
    ensures AllSpace(ConcatPages(pages))
    decreases |pages|
  {
    if |pages| > 0 {
      ConcatBlankPages(pages[1..]);
      var h, t := PageText(pages[0]), ConcatPages(pages[1..]);
      assert forall k :: 0 <= k < |h + t| ==> (h + t)[k] == (if k < |h| then h[k] else t[k - |h|]);
    }
  }

  /** The handler's loop, appending each page's text to the running total. */
  method JoinPages(pages: seq<Option<string>>) returns (total: string)
    ensures total == ConcatPages(pages)
  {
    total := "";
    for i := 0 to |pages|
      invariant total == ConcatPages(pages[..i])
    {
      assert pages[..i + 1] == pages[..i] + [pages[i]];
      ConcatPagesAppend(pages[..i], [pages[i]]);
      total := total + PageText(pages[i]);
    }
    assert pages[..|pages|] == pages;
  }

  /** The `/extract` handler, with base64 decoding and the PDF library as
      the functions `decode` and `reader`. Any exception becomes a 400 whose
      detail starts with the fixed prefix; the temporary file is removed only
      on success. */
  method ExtractPdf(fileBase64: string, decode: string -> Decoded, reader: seq<byte> -> PdfRead)
    returns (e: Extraction)
    ensures decode(fileBase64).Invalid? ==>
      e == Extraction(Err(BadRequest, ExtractErrorPrefix + decode(fileBase64).message), false, false)
    ensures decode(fileBase64).Bytes? ==> e.tempWritten
    ensures decode(fileBase64).Bytes? && reader(decode(fileBase64).data).Unreadable? ==>
      e == Extraction(Err(BadRequest, ExtractErrorPrefix + reader(decode(fileBase64).data).message), true, true)
    ensures decode(fileBase64).Bytes? && reader(decode(fileBase64).data).Pages? ==>
      e == Extraction(Ok(Strip(ConcatPages(reader(decode(fileBase64).data).texts))), true, false)
    ensures e.result.Ok? ==> Stripped(e.result.value)
    ensures e.result.Err? ==> e.result.status == BadRequest && StartsWith(e.result.detail, ExtractErrorPrefix)
    ensures e.tempLeft <==> e.tempWritten && e.result.Err?
  {
    var decoded := decode(fileBase64);
    if decoded.Invalid? {
      return Extraction(Err(BadRequest, ExtractErrorPrefix + decoded.message), false, false);
    }
    var read := reader(decoded.data);
    if read.Unreadable? {
      return Extraction(Err(BadRequest, ExtractErrorPrefix + read.message), true, true);
    }
    var total := JoinPages(read.texts);
    e := Extraction(Ok(Strip(total)), true, false);
  }

  /** A PDF whose pages hold no visible text extracts to "". */
  lemma BlankPdf(pages: seq<Option<string>>)
    requires forall i :: 0 <= i < |pages| ==> AllSpace(PageText(pages[i]))
    ensures Strip(ConcatPages(pages)) == ""
  {
    ConcatBlankPages(pages);
    StripAllSpace(ConcatPages(pages));
  }
}
