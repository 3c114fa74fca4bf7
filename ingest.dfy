/**
 * Ingestion of an uploaded PDF: join the text of its pages, split it into
 * chunks, keep the chunks that are long enough after stripping, and write
 * them to the chunks file.  The PDF reader and the text splitter are
 * libraries; they enter the model as a value (`Pdf`) and a function
 * (`Splitter`).
 */
module Ingest {
  import opened Wrappers
  import opened Text

  /** `chunk_size` and `chunk_overlap` defaults of `chunk_text`. */
  const DefaultChunkSize: int := 800
  const DefaultChunkOverlap: int := 150

  /** A chunk is kept only when its stripped text is longer than this. */
  const MinChunkLength: nat := 30

  /** Page separator of the extracted text. */
  const PageSeparator: string := "\n"

  /**
   * What the PDF reader makes of the uploaded file: either it cannot open
   * it (the reader raises), or it yields one `extract_text()` result per
   * page, where `None` stands for a page without a text layer.
   */
  datatype Pdf = Unreadable | Pages(pages: seq<Option<string>>)

  /** Why `ingest_pdf` raised. */
  datatype IngestError = PdfUnreadable | NoTextExtracted

  /** The text splitter: `(text, chunk_size, chunk_overlap)` to pieces. */
  type Splitter = (string, int, int) -> seq<string>

  /** The chunks file: absent, or holding a JSON array of chunk strings. */
  type ChunksFile = Option<seq<string>>

  /** Python truthiness of a page text: present and non-empty. */
  predicate HasText(page: Option<string>)
  {
    page.Some? && page.value != ""
  }

  /** The page texts that are kept, in page order. */
  function KeptPages(pages: seq<Option<string>>): (r: seq<string>)
    ensures |r| <= |pages|
    ensures forall j :: 0 <= j < |r| ==> r[j] != ""
  {
    if pages == [] then []
    else (if HasText(pages[0]) then [pages[0].value] else []) + KeptPages(pages[1..])
  }

  /** The text `extract_text_from_pdf` returns for the given pages. */
  function PageText(pages: seq<Option<string>>): string
  {
    Join(KeptPages(pages), PageSeparator)
  }

  /**
   * `extract_text_from_pdf`: walks the pages, collects the truthy page
   * texts and joins them with newlines.
   */
  method ExtractTextFromPdf(pdf: Pdf) returns (r: Result<string, IngestError>)
    ensures pdf.Unreadable? ==> r == Failure(PdfUnreadable)
    ensures pdf.Pages? ==> r == Success(PageText(pdf.pages))
  {
    if pdf.Unreadable? {
      return Failure(PdfUnreadable);
    }
    var pages := pdf.pages;
    var textParts: seq<string> := [];
    var i := 0;
    while i < |pages|
      invariant 0 <= i <= |pages|
      invariant textParts == KeptPages(pages[..i])
    {
      var pageText := pages[i];
      KeptPagesAppend(pages[..i], [pageText]);
      assert pages[..i + 1] == pages[..i] + [pageText];
      if HasText(pageText) {
        textParts := textParts + [pageText.value];
      }
      i := i + 1;
    }
    assert pages[..|pages|] == pages;
    return Success(Join(textParts, PageSeparator));
  }

  /**
   * Keeping pages distributes over concatenation of page lists: the texts of
   * earlier pages come first.
   */
  lemma {:induction false} KeptPagesAppend(a: seq<Option<string>>, b: seq<Option<string>>)
    ensures KeptPages(a + b) == KeptPages(a) + KeptPages(b)
  {
    if a != [] {
      assert (a + b)[1..] == a[1..] + b;
      KeptPagesAppend(a[1..], b);
    } else {
      assert a + b == b;
    }
  }

  /** A page text is kept exactly when some page yields it and it is non-empty. */
  lemma {:induction false} KeptPagesMembers(pages: seq<Option<string>>, p: string)
    ensures p in KeptPages(pages) <==> p != "" && Some(p) in pages
  {
    if pages != [] {
      KeptPagesMembers(pages[1..], p);
      assert pages == [pages[0]] + pages[1..];
    }
  }

  /**
   * A page without text (no text layer, or an empty string) adds nothing to
   * the extracted text, not even a separator.
   */
  lemma EmptyPageContributesNothing(pages: seq<Option<string>>, i: nat)
    requires i < |pages| && !HasText(pages[i])
    ensures PageText(pages[..i] + pages[i + 1..]) == PageText(pages)
  {
    assert pages == pages[..i] + [pages[i]] + pages[i + 1..];
    KeptPagesAppend(pages[..i] + [pages[i]], pages[i + 1..]);
    KeptPagesAppend(pages[..i], [pages[i]]);
    KeptPagesAppend(pages[..i], pages[i + 1..]);
    assert [pages[i]][1..] == [];
    assert KeptPages([pages[i]]) == [];
    assert KeptPages(pages) == KeptPages(pages[..i]) + KeptPages(pages[i + 1..]);
  }

  /** The extracted text is empty exactly when no page yields text. */
  lemma NoTextIffNoPageHasText(pages: seq<Option<string>>)
    ensures PageText(pages) == "" <==> forall j :: 0 <= j < |pages| ==> !HasText(pages[j])
  {
    JoinEmptyIff(KeptPages(pages), PageSeparator);
    if KeptPages(pages) != [] {
      var p := KeptPages(pages)[0];
      KeptPagesMembers(pages, p);
    } else if exists j :: 0 <= j < |pages| && HasText(pages[j]) {
      var j :| 0 <= j < |pages| && HasText(pages[j]);
      KeptPagesMembers(pages, pages[j].value);
    }
  }

  /**
   * The post-filter of `chunk_text`: the `strip()` of every splitter piece
   * whose stripped length exceeds `MinChunkLength`, in splitter order.
   */
  function FilterChunks(raw: seq<string>): (r: seq<string>)
    ensures |r| <= |raw|
    ensures forall j :: 0 <= j < |r| ==> |r[j]| > MinChunkLength && IsStripped(r[j])
  {
    if raw == [] then []
    else
      var c := Strip(raw[0]);
      (if |c| > MinChunkLength then [c] else []) + FilterChunks(raw[1..])
  }

  /** A chunk is kept exactly when it is the long-enough `strip()` of some splitter piece. */
  lemma {:induction false} FilterChunksMembers(raw: seq<string>, x: string)
    ensures x in FilterChunks(raw) <==> x in StripAll(raw) && |x| > MinChunkLength
  {
    if raw != [] {
      var c0 := Strip(raw[0]);
      assert FilterChunks(raw) == (if |c0| > MinChunkLength then [c0] else []) + FilterChunks(raw[1..]);
      assert StripAll(raw) == [c0] + StripAll(raw[1..]);
      FilterChunksMembers(raw[1..], x);
    }
  }

  /** Each long-enough stripped piece is kept once per occurrence; nothing else is kept. */
  lemma {:induction false} FilterChunksCounts(raw: seq<string>, x: string)
    ensures multiset(FilterChunks(raw))[x] ==
              if |x| > MinChunkLength then multiset(StripAll(raw))[x] else 0
  {
    if raw != [] {
      var c0 := Strip(raw[0]);
      var head := if |c0| > MinChunkLength then [c0] else [];
      assert FilterChunks(raw) == head + FilterChunks(raw[1..]);
      assert StripAll(raw) == [c0] + StripAll(raw[1..]);
      FilterChunksCounts(raw[1..], x);
    }
  }

  /** `a` occurs in `b` in order, possibly with gaps. */
  ghost predicate IsSubsequence<T>(a: seq<T>, b: seq<T>)
    decreases |b|
  {
    a == [] ||
    (b != [] && ((a[0] == b[0] && IsSubsequence(a[1..], b[1..])) || IsSubsequence(a, b[1..])))
  }

  /** The kept chunks appear in the order of the stripped splitter pieces. */
  lemma {:induction false} FilterChunksInOrder(raw: seq<string>)
    ensures IsSubsequence(FilterChunks(raw), StripAll(raw))
  {
    if raw != [] {
      var rest, restAll := FilterChunks(raw[1..]), StripAll(raw[1..]);
      FilterChunksInOrder(raw[1..]);
      var all := StripAll(raw);
      assert all == [all[0]] + restAll;
      var kept := FilterChunks(raw);
      if |all[0]| > MinChunkLength {
        assert kept == [all[0]] + rest;
        assert kept[1..] == rest;
      } else {
        assert kept == rest;
      }
    }
  }

  /** `chunk_text(text, chunk_size, chunk_overlap)` over the splitter `split`. */
  function ChunkText(text: string, chunkSize: int, chunkOverlap: int, split: Splitter): (chunks: seq<string>)
    ensures |chunks| <= |split(text, chunkSize, chunkOverlap)|
    ensures forall j :: 0 <= j < |chunks| ==> |chunks[j]| > MinChunkLength && IsStripped(chunks[j])
  {
    FilterChunks(split(text, chunkSize, chunkOverlap))
  }

  /** What `ingest_pdf` returns (or raises), together with the chunks file afterwards. */
  datatype IngestResult = IngestResult(outcome: Result<nat, IngestError>, file: ChunksFile)

  /**
   * `ingest_pdf`: extract the text; raise when it strips to nothing;
   * otherwise chunk it with the default size and overlap, write exactly
   * those chunks to the chunks file and return how many there are (which may
   * be zero).  Nothing is written when it raises.
   */
  function IngestPdf(pdf: Pdf, file: ChunksFile, split: Splitter): (r: IngestResult)
    ensures r.outcome.Failure? ==> r.file == file
    ensures pdf.Unreadable? ==> r.outcome == Failure(PdfUnreadable)
    ensures pdf.Pages? ==>
              (r.outcome == Failure(NoTextExtracted) <==> AllSpace(PageText(pdf.pages)))
    ensures pdf.Pages? ==> (r.outcome.Failure? <==> AllSpace(PageText(pdf.pages)))
    ensures r.outcome.Success? ==>
              pdf.Pages? &&
              r.file == Some(ChunkText(PageText(pdf.pages), DefaultChunkSize, DefaultChunkOverlap, split)) &&
              r.outcome.value == |r.file.value|
  {
    match pdf
    case Unreadable => IngestResult(Failure(PdfUnreadable), file)
    case Pages(pages) =>
      var text := PageText(pages);
      if Strip(text) == [] then IngestResult(Failure(NoTextExtracted), file)
      else
        var chunks := ChunkText(text, DefaultChunkSize, DefaultChunkOverlap, split);
        IngestResult(Success(|chunks|), Some(chunks))
  }

  /**
   * Ingestion rejects a readable PDF exactly when no page has a
   * non-whitespace character (the newlines put between pages are
   * whitespace themselves).
   */
  lemma IngestRejectsIffNoVisibleText(pages: seq<Option<string>>, file: ChunksFile, split: Splitter)
    ensures IngestPdf(Pages(pages), file, split).outcome == Failure(NoTextExtracted) <==>
            forall j :: 0 <= j < |pages| ==> pages[j].None? || AllSpace(pages[j].value)
  {
    var kept := KeptPages(pages);
    assert AllSpace(PageSeparator) by { assert PageSeparator[0] == '\n'; }
    JoinAllSpace(kept, PageSeparator);
    if forall j :: 0 <= j < |pages| ==> pages[j].None? || AllSpace(pages[j].value) {
      forall k | 0 <= k < |kept| ensures AllSpace(kept[k]) {
        KeptPagesMembers(pages, kept[k]);
      }
    } else {
      var j :| 0 <= j < |pages| && !(pages[j].None? || AllSpace(pages[j].value));
      KeptPagesMembers(pages, pages[j].value);
    }
  }

  /** Ingestion succeeds even when no chunk survives the length filter. */
  lemma IngestMayStoreNoChunks()
    ensures IngestPdf(Pages([Some("x")]), None, (t, n, o) => [t]) == IngestResult(Success(0), Some([]))
  {
    assert TrimStart("x") == "x";
    assert TrimEnd("x") == "x";
    assert Strip("x") == "x";
    assert PageText([Some("x")]) == "x";
  }
}
