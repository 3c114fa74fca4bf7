/**
 * The Streamlit session of the app: the flags and values kept in
 * `st.session_state` across reruns, and the three things a rerun can do to
 * them: ingest a newly uploaded PDF, answer a question, summarise the
 * document.  The chunks file on disk is a field of the session here, since
 * it is the only state the ingestion and query paths share.  Rendering, the
 * temporary PDF file, the PDF reader, the splitter, the embedding model and
 * the language model enter as parameters.
 */
module App {
  import opened Wrappers
  import opened Text
  import opened Ingest
  import opened Retriever

  /** What `_get_file_info` reports of an upload: `(name, size, sha256)`, compared by equality. */
  datatype FileInfo = FileInfo(name: string, size: Option<nat>, sha256: Option<string>)

  /** `generate_answer(query, retrieved)`, which reads only the `"chunk"` text of each record. */
  type Generator = (string, seq<string>) -> string

  /** `last_action`: `""`, `"answer"` or `"summary"`. */
  datatype Action = NoAction | AnswerAction | SummaryAction

  const SummaryPrompt: string := "Summarize this document in 5 concise bullet points."

  /** Separator `run_summarize` puts between the stored chunks. */
  const SummarySeparator: string := "\n"

  /** What the upload section of a rerun did. */
  datatype UploadOutcome =
    | NoFile
    | AlreadyIngested
    | TempWriteFailed
    | Ingested(count: nat)
    | IngestFailed(error: IngestError)

  /** The `st.error` a button shows instead of acting. */
  datatype ActionError = NotUploaded | NotProcessed | BlankQuery

  datatype ActionOutcome = Rejected(error: ActionError) | Responded

  /** `not query.strip()`: the query has no visible character. */
  function IsBlank(query: string): (b: bool)
    ensures b <==> AllSpace(query)
  {
    Strip(query) == []
  }

  /** The `"chunk"` texts of the records, in order. */
  function ChunkTexts(hits: seq<Hit>): (r: seq<string>)
    ensures |r| == |hits| && forall k :: 0 <= k < |hits| ==> r[k] == hits[k].chunk
  {
    seq(|hits|, k requires 0 <= k < |hits| => hits[k].chunk)
  }

  class Session {
    var uploaded: bool
    var processed: bool
    var lastResponse: string
    var lastAction: Action
    var uploadedFileInfo: Option<FileInfo>
    /** The file at `chunks_path` (`data/chunks.json`). */
    var chunksFile: ChunksFile

    /**
     * The session invariant: a processed document has been uploaded and
     * its chunks file exists; a remembered upload was uploaded; a response
     * is only kept together with the action that produced it.
     */
    ghost predicate Valid()
      reads this
    {
      (processed ==> uploaded && chunksFile.Some?)
      && (uploadedFileInfo.Some? ==> uploaded)
      && (lastAction == NoAction ==> lastResponse == "")
    }

    /** A fresh session; the chunks file may be left over from an earlier run. */
    constructor (disk: ChunksFile)
      ensures Valid()
      ensures !uploaded && !processed && lastResponse == "" && lastAction == NoAction
      ensures uploadedFileInfo == None && chunksFile == disk
    {
      uploaded := false;
      processed := false;
      lastResponse := "";
      lastAction := NoAction;
      uploadedFileInfo := None;
      chunksFile := disk;
    }

    /**
     * The upload section of a rerun.  `file` is what the uploader holds,
     * `tempWriteOk` whether copying it to a temporary file worked,
     * `staleRemoved` whether deleting an existing chunks file worked (a
     * failure there is ignored), and `pdf` and `split` what ingestion
     * sees.
     */
    method Upload(file: Option<FileInfo>, tempWriteOk: bool, staleRemoved: bool,
                  pdf: Pdf, split: Splitter) returns (outcome: UploadOutcome)
      requires Valid()
      modifies this
      ensures Valid()
      ensures file.None? ==> outcome == NoFile && unchanged(this)
      ensures file.Some? && old(uploadedFileInfo) == file ==> outcome == AlreadyIngested && unchanged(this)
      ensures file.Some? && old(uploadedFileInfo) != file && !tempWriteOk ==>
                outcome == TempWriteFailed && unchanged(this)
      ensures file.Some? && old(uploadedFileInfo) != file && tempWriteOk ==>
                var cleared := if staleRemoved then None else old(chunksFile);
                var r := IngestPdf(pdf, cleared, split);
                lastResponse == "" && lastAction == NoAction && uploaded
                && chunksFile == r.file
                && (r.outcome.Success? ==>
                      outcome == Ingested(r.outcome.value) && processed && uploadedFileInfo == file)
                && (r.outcome.Failure? ==>
                      outcome == IngestFailed(r.outcome.error) && !processed
                      && uploadedFileInfo == old(uploadedFileInfo) && uploadedFileInfo != file
                      && (staleRemoved ==> chunksFile == None))
    {
      if file.None? {
        return NoFile;
      }
      if uploadedFileInfo == file {
        return AlreadyIngested;
      }
      if !tempWriteOk {
        return TempWriteFailed;
      }
      outcome := IngestUpload(file, staleRemoved, pdf, split);
    }

    /**
     * The ingestion block of the upload section, once the upload is copied
     * to a temporary file: forget the previous response, mark the document
     * uploaded and unprocessed, delete the stale chunks file (if that
     * fails, carry on), ingest, and on success mark it processed and
     * remember its file info.
     */
    method IngestUpload(file: Option<FileInfo>, staleRemoved: bool, pdf: Pdf, split: Splitter)
      returns (outcome: UploadOutcome)
      requires Valid() && file.Some?
      modifies this
      ensures Valid()
      ensures var cleared := if staleRemoved then None else old(chunksFile);
              var r := IngestPdf(pdf, cleared, split);
              lastResponse == "" && lastAction == NoAction && uploaded
              && chunksFile == r.file
              && (r.outcome.Success? ==>
                    outcome == Ingested(r.outcome.value) && processed && uploadedFileInfo == file)
              && (r.outcome.Failure? ==>
                    outcome == IngestFailed(r.outcome.error) && !processed
                    && uploadedFileInfo == old(uploadedFileInfo)
                    && (staleRemoved ==> chunksFile == None))
    {
      lastResponse := "";
      lastAction := NoAction;
      uploaded := true;
      processed := false;
      chunksFile := if staleRemoved then None else chunksFile;
      var r := IngestPdf(pdf, chunksFile, split);
      chunksFile := r.file;
      // `processed` and the file info are set only when `ingest_pdf` returns;
      // when it raises, the handler leaves `processed` false.
      processed := r.outcome.Success?;
      uploadedFileInfo := if r.outcome.Success? then file else uploadedFileInfo;
      outcome := if r.outcome.Success? then Ingested(r.outcome.value) else IngestFailed(r.outcome.error);
    }

    /**
     * The dedup key names a document whose chunks are in place: with this
     * in addition to `Valid()`, a rerun that skips ingestion never leaves
     * the session unprocessed.
     */
    ghost predicate Settled()
      reads this
    {
      uploadedFileInfo.Some? ==> processed
    }

    /**
     * `Upload` with the dedup key forgotten as soon as a new document
     * starts ingesting, so that a file whose ingestion was interrupted by a
     * failed one is ingested again when it is uploaded again.
     */
    method UploadFixed(file: Option<FileInfo>, tempWriteOk: bool, staleRemoved: bool,
                       pdf: Pdf, split: Splitter) returns (outcome: UploadOutcome)
      requires Valid() && Settled()
      modifies this
      ensures Valid() && Settled()
      ensures outcome == AlreadyIngested ==> processed
      ensures file.None? ==> outcome == NoFile && unchanged(this)
      ensures file.Some? && old(uploadedFileInfo) == file ==> outcome == AlreadyIngested && unchanged(this)
      ensures file.Some? && old(uploadedFileInfo) != file && !tempWriteOk ==>
                outcome == TempWriteFailed && unchanged(this)
      ensures file.Some? && old(uploadedFileInfo) != file && tempWriteOk ==>
                var cleared := if staleRemoved then None else old(chunksFile);
                var r := IngestPdf(pdf, cleared, split);
                lastResponse == "" && lastAction == NoAction && uploaded
                && chunksFile == r.file
                && (r.outcome.Success? ==>
                      outcome == Ingested(r.outcome.value) && processed && uploadedFileInfo == file)
                && (r.outcome.Failure? ==>
                      outcome == IngestFailed(r.outcome.error) && !processed && uploadedFileInfo == None
                      && (staleRemoved ==> chunksFile == None))
    {
      if file.None? {
        return NoFile;
      }
      if uploadedFileInfo == file {
        return AlreadyIngested;
      }
      if !tempWriteOk {
        return TempWriteFailed;
      }
      uploadedFileInfo := None;
      outcome := IngestUpload(file, staleRemoved, pdf, split);
    }

    /**
     * The "Get Answer" button: refuses when nothing was uploaded, when the
     * upload is not processed, or when the question is blank, in that order
     * and without touching the session; otherwise answers from the top
     * `DefaultTopK` chunks of the stored file.
     */
    method GetAnswer(query: string, sim: Similarity, generate: Generator)
      returns (outcome: ActionOutcome)
      requires Valid()
      modifies this
      ensures Valid()
      ensures !old(uploaded) ==> outcome == Rejected(NotUploaded) && unchanged(this)
      ensures old(uploaded) && !old(processed) ==> outcome == Rejected(NotProcessed) && unchanged(this)
      ensures old(uploaded) && old(processed) && AllSpace(query) ==>
                outcome == Rejected(BlankQuery) && unchanged(this)
      ensures old(uploaded) && old(processed) && !AllSpace(query) ==>
                outcome == Responded && lastAction == AnswerAction
                && (exists order :: IsArgsort(Scores(query, old(chunksFile).value, sim), order)
                      && lastResponse == generate(query, ChunkTexts(Retrieved(query, old(chunksFile).value, DefaultTopK, sim, order))))
                && uploaded && processed && uploadedFileInfo == old(uploadedFileInfo) && chunksFile == old(chunksFile)
      ensures outcome == Responded && lastResponse != "" ==> ResultTitle() == Some("Answer")
    {
      if !uploaded {
        return Rejected(NotUploaded);
      }
      if !processed {
        return Rejected(NotProcessed);
      }
      if IsBlank(query) {
        return Rejected(BlankQuery);
      }
      var answer := RunGetAnswer(query, sim, generate);
      lastResponse := answer.value;
      lastAction := AnswerAction;
      outcome := Responded;
    }

    /**
     * `run_get_answer`: load the chunks file (a missing file raises, here
     * `None`), retrieve the top `DefaultTopK` chunks and ask the language
     * model.
     */
    method RunGetAnswer(query: string, sim: Similarity, generate: Generator) returns (answer: Option<string>)
      ensures chunksFile.None? ==> answer == None
      ensures chunksFile.Some? ==>
                answer.Some?
                && exists order :: IsArgsort(Scores(query, chunksFile.value, sim), order)
                     && answer.value == generate(query, ChunkTexts(Retrieved(query, chunksFile.value, DefaultTopK, sim, order)))
    {
      if chunksFile.None? {
        return None;
      }
      var chunks := chunksFile.value;
      var retrieved := RetrieveRelevantChunks(query, chunks, DefaultTopK, sim);
      answer := Some(generate(query, ChunkTexts(retrieved)));
    }

    /**
     * `run_summarize`: load the chunks file (a missing file raises, here
     * `None`) and ask the language model to summarise the chunks joined by
     * newlines, passed as one chunk.
     */
    method RunSummarize(generate: Generator) returns (summary: Option<string>)
      ensures chunksFile.None? ==> summary == None
      ensures chunksFile.Some? ==> summary == Some(generate(SummaryPrompt, [Join(chunksFile.value, SummarySeparator)]))
    {
      if chunksFile.None? {
        return None;
      }
      var fullText := Join(chunksFile.value, SummarySeparator);
      summary := Some(generate(SummaryPrompt, [fullText]));
    }

    /**
     * The "Summarize PDF" button: the same first two checks as "Get
     * Answer", no question needed; the whole stored text, the chunks joined
     * by newlines, is handed over as a single chunk.
     */
    method Summarize(generate: Generator) returns (outcome: ActionOutcome)
      requires Valid()
      modifies this
      ensures Valid()
      ensures !old(uploaded) ==> outcome == Rejected(NotUploaded) && unchanged(this)
      ensures old(uploaded) && !old(processed) ==> outcome == Rejected(NotProcessed) && unchanged(this)
      ensures old(uploaded) && old(processed) ==>
                outcome == Responded && lastAction == SummaryAction
                && lastResponse == generate(SummaryPrompt, [Join(old(chunksFile).value, SummarySeparator)])
                && uploaded && processed && uploadedFileInfo == old(uploadedFileInfo) && chunksFile == old(chunksFile)
      ensures outcome == Responded && lastResponse != "" ==> ResultTitle() == Some("Summary")
    {
      if !uploaded {
        return Rejected(NotUploaded);
      }
      if !processed {
        return Rejected(NotProcessed);
      }
      var summary := RunSummarize(generate);
      lastResponse := summary.value;
      lastAction := SummaryAction;
      outcome := Responded;
    }

    /**
     * The heading of the results area, or `None` when the area is not shown:
     * it is shown exactly when there is a non-empty response, and titled
     * "Answer" exactly when the last action was an answer.
     */
    function ResultTitle(): (title: Option<string>)
      reads this
      ensures title.Some? <==> lastResponse != ""
      ensures title == Some("Answer") <==> lastResponse != "" && lastAction == AnswerAction
      ensures title == Some("Summary") <==> lastResponse != "" && lastAction != AnswerAction
    {
      if lastResponse == "" then None
      else if lastAction == AnswerAction then Some("Answer")
      else Some("Summary")
    }
  }

  /** A splitter that returns its text as a single piece, two files, a PDF with text and one without. */
  const SampleSplit: Splitter := (t: string, n: int, o: int) => [t]
  const FileA: Option<FileInfo> := Some(FileInfo("a.pdf", Some(1), Some("aa")))
  const FileB: Option<FileInfo> := Some(FileInfo("b.pdf", Some(1), Some("bb")))
  const PdfA: Pdf := Pages([Some("x")])
  const PdfB: Pdf := Pages([None])

  lemma SampleIngestion()
    ensures IngestPdf(PdfA, None, SampleSplit).outcome.Success?
    ensures IngestPdf(PdfB, None, SampleSplit).outcome == Failure(NoTextExtracted)
  {
    assert PageText([Some("x")]) == "x";
    assert "x"[0] == 'x' && !IsSpace('x');
    assert !AllSpace("x");
    assert PageText([None]) == "";
    assert AllSpace("");
  }

  /**
   * Upload A (ingested), then B (no text, so ingestion raises), then A
   * again: as written, the third rerun matches the remembered key of A and
   * skips ingestion, so the session stays unprocessed and "Get Answer" keeps
   * refusing, although A was re-uploaded as the refusal message asks.
   */
  method ReuploadAfterFailedIngestIsIgnored() returns (answer: ActionOutcome)
    ensures answer == Rejected(NotProcessed)
  {
    SampleIngestion();
    var s := new Session(None);
    var o1 := s.Upload(FileA, true, true, PdfA, SampleSplit);
    var o2 := s.Upload(FileB, true, true, PdfB, SampleSplit);
    var o3 := s.Upload(FileA, true, true, PdfA, SampleSplit);
    assert o3 == AlreadyIngested && !s.processed;
    answer := s.GetAnswer("what?", (q, c) => 0.0, (q, cs) => "answer");
  }

  /** The same three uploads with `UploadFixed`: the re-upload of A is ingested again. */
  method ReuploadAfterFailedIngestIsRetried() returns (outcome: UploadOutcome)
    ensures outcome.Ingested?
  {
    SampleIngestion();
    var s := new Session(None);
    var o1 := s.UploadFixed(FileA, true, true, PdfA, SampleSplit);
    var o2 := s.UploadFixed(FileB, true, true, PdfB, SampleSplit);
    outcome := s.UploadFixed(FileA, true, true, PdfA, SampleSplit);
  }
}
