# AskMyPDF, modelled in Dafny

AskMyPDF is a Streamlit app that answers questions about one uploaded PDF.
- On upload it extracts the text of the PDF page by page.
- It splits the text into overlapping chunks and drops the short ones.
- It writes the chunks to `data/chunks.json`.
- For a question it scores every stored chunk against the query and keeps the five best, best first.
- It hands those chunks to a language model. A summary request instead hands the model the whole stored text as one chunk.

This project models the parts of that pipeline that decide what is stored, what is retrieved and what the user sees:

- `text.dfy` (module `Text`) models Python's `str.strip()`, using the exact whitespace class of `str.isspace()`, and `sep.join(parts)`.
- `ingest.dfy` (module `Ingest`) models `extract_text_from_pdf`, the post-filter of `chunk_text` and `ingest_pdf`.
  - The PDF reader is a value `Pdf`: unreadable, or one optional text per page.
  - The text splitter is a function parameter `Splitter`.
  - The chunks file is a value `ChunksFile`: absent, or a list of strings.
- `retriever.dfy` (module `Retriever`) models `retrieve_relevant_chunks`.
  - The embedding similarity is a function parameter `sim`.
  - numpy's `argsort` is any permutation of the indices that sorts the scores ascending. `IsArgsort` states this. numpy's default sort is not stable, so no tie order is assumed.
  - The Python slice `[-top_k:]` is modelled exactly, including `top_k == 0` (which keeps everything) and negative `top_k`.
- `app.dfy` (module `App`) models the session state of `app.py` as the class `Session`.
  - Its fields are `uploaded`, `processed`, `last_response`, `last_action` and `uploaded_file_info`, plus the chunks file on disk.
  - `last_action` only ever holds `""`, `"answer"` or `"summary"`, so it is the datatype `Action` with one value for each.
  - Its methods are one per part of a rerun: the upload section `Upload`, the two buttons `GetAnswer` and `Summarize`, and the two helpers behind them, `RunGetAnswer` and `RunSummarize`.
  - `IngestUpload` is the ingestion block that the upload section runs once a new file was written out.
  - `UploadFixed` is the upload section with the correction described under Findings; `ReuploadAfterFailedIngestIsRetried` shows it ingesting the re-uploaded file.
  - The results heading is a function of the state.
- `wrappers.dfy` (module `Wrappers`) holds `Option` and `Result`.

Which branch of the source each contract follows:
- An exception raised by the source is a `Failure` or a `None`.
- A `try/except` that swallows an error is an input flag:
  - `tempWriteOk` says whether copying the upload to a temporary file worked;
  - `staleRemoved` says whether deleting the old chunks file worked.

## Model

| member | source | states |
|---|---|---|
| Text.TrimStart | app.py:172 | the leading-whitespace cut of `lstrip`: the result is a suffix of the input, everything cut is whitespace, and the result does not start with whitespace |
| Text.TrimEnd | backend/ingest.py:27 | the trailing-whitespace cut of `rstrip`: the result is a prefix, everything cut is whitespace, and the result does not end with whitespace |
| Text.Strip | backend/ingest.py:27 | `strip()` leaves no whitespace at either end, and its result is empty exactly when the input is all whitespace (the condition behind `not text.strip()` and `not query.strip()`) |
| Text.StripKeepsMiddle | backend/ingest.py:27 | `strip()` keeps one contiguous piece of the input and cuts only whitespace on either side of it |
| Text.StripIdempotent | backend/ingest.py:27 | stripping an already stripped chunk changes nothing |
| Text.StrippedIsFixpoint | backend/ingest.py:27 | a string without whitespace at its ends is its own `strip()` |
| Text.StripAll | backend/ingest.py:27 | the list `[c.strip() for c in chunks]`: same length, element by element the `strip()` |
| Text.Join | backend/ingest.py:18 | Python's `sep.join(parts)`; its properties are stated by `JoinAllSpace` and `JoinEmptyIff` |
| Text.JoinAllSpace | backend/ingest.py:18 | with a whitespace separator, a join is all whitespace exactly when every part is |
| Text.JoinEmptyIff | backend/ingest.py:18 | a join of non-empty parts is empty exactly when there are no parts |
| Ingest.KeptPages | backend/ingest.py:14-17 | only truthy page texts are collected, never more of them than there are pages |
| Ingest.PageText | backend/ingest.py:13-18 | the string `extract_text_from_pdf` returns: the truthy page texts joined by newlines; `NoTextIffNoPageHasText`, `EmptyPageContributesNothing` and `IngestRejectsIffNoVisibleText` state what it is |
| Ingest.ExtractTextFromPdf | backend/ingest.py:11-18 | an unreadable PDF raises; otherwise the page loop returns exactly the truthy page texts joined by newlines (`PageText`) |
| Ingest.KeptPagesAppend | backend/ingest.py:14-17 | collecting page texts distributes over concatenated page lists, so earlier pages come first |
| Ingest.KeptPagesMembers | backend/ingest.py:14-17 | a string is collected exactly when it is non-empty and some page yields it |
| Ingest.EmptyPageContributesNothing | backend/ingest.py:16-18 | removing a page without text leaves the extracted text unchanged, with no extra separator |
| Ingest.NoTextIffNoPageHasText | backend/ingest.py:13-18 | the extracted text is empty exactly when no page yields a truthy text |
| Ingest.FilterChunks | backend/ingest.py:27 | every kept chunk is stripped and longer than 30 characters, and there are no more chunks than splitter pieces |
| Ingest.FilterChunksMembers | backend/ingest.py:27 | a string is kept exactly when it is the `strip()` of some splitter piece and longer than 30 characters |
| Ingest.FilterChunksCounts | backend/ingest.py:27 | each long-enough stripped piece is kept as many times as it occurs among the stripped pieces, and no other string is kept |
| Ingest.FilterChunksInOrder | backend/ingest.py:27 | the kept chunks are a subsequence of the stripped pieces, in splitter order |
| Ingest.ChunkText | backend/ingest.py:20-28 | `chunk_text` with the splitter as a parameter: every chunk is stripped and longer than 30 characters, and there are no more chunks than splitter pieces; `FilterChunksMembers`, `FilterChunksCounts` and `FilterChunksInOrder` state which chunks, how many times each, and in which order |
| Ingest.IngestPdf | backend/ingest.py:30-37 | an unreadable PDF raises; a readable one raises (with "No text could be extracted") exactly when its text strips to nothing, and otherwise succeeds; on failure the chunks file is untouched; on success the file holds exactly the chunks of the text (size 800, overlap 150) and the count returned is their number |
| Ingest.IngestRejectsIffNoVisibleText | backend/ingest.py:11-33 | ingestion of a readable PDF raises "No text could be extracted" exactly when every page is missing or all whitespace |
| Ingest.IngestMayStoreNoChunks | backend/ingest.py:27-37 | a PDF with visible text but no chunk longer than 30 characters is ingested successfully with zero chunks |
| Retriever.Scores | backend/retriever.py:19-27 | one score per chunk, in chunk order |
| Retriever.ArgsortOf | backend/retriever.py:28 | an ascending permutation of the indices always exists, so the result is always defined |
| Retriever.SortIndices | backend/retriever.py:28 | sorting indices by score keeps the same multiset of indices and orders them ascending |
| Retriever.InsertIndex | backend/retriever.py:28 | insertion keeps the indices, adds exactly the new one and keeps the ordering ascending |
| Retriever.SliceStart | backend/retriever.py:28 | Python's clamping of a slice start stays within the sequence |
| Retriever.TopIndices | backend/retriever.py:28 | `argsort()[-top_k:][::-1]`: as many indices as the slice keeps, the last of the ascending order first |
| Retriever.Records | backend/retriever.py:29-35 | one record per index, in index order, each with that chunk's text, its score and the index |
| Retriever.TopK | backend/retriever.py:28-36 | the result for one admissible argsort: as many records as the slice keeps, the k-th being the k-th highest-ranked index with its chunk and score |
| Retriever.Retrieved | backend/retriever.py:16-36 | the whole result for one admissible argsort: empty for no chunks, never more records than chunks; `RetrievedIsRanking` states the rest |
| Retriever.RangeCount | backend/retriever.py:28 | every chunk index occurs exactly once among the indices argsort permutes |
| Retriever.ArgsortIsPermutation | backend/retriever.py:28 | an argsort result lists every chunk index exactly once |
| Retriever.TopKRecordsMatch | backend/retriever.py:29-35 | each record names an existing chunk, with that chunk's text and score |
| Retriever.TopKLength | backend/retriever.py:16-28 | the number of records follows the slice `[-top_k:]`: all for `top_k == 0`, `min(top_k, n)` for positive `top_k`, `max(n + top_k, 0)` for negative |
| Retriever.TopKDistinct | backend/retriever.py:28-35 | no chunk index is returned twice |
| Retriever.TopKNonIncreasing | backend/retriever.py:28 | scores never increase from the first record to the last |
| Retriever.TopKMaximal | backend/retriever.py:28 | no chunk left out scores higher than any chunk returned |
| Retriever.TopKAllWhenZeroOrLarge | backend/retriever.py:28 | with `top_k == 0`, or at least as large as the number of chunks, every chunk is returned |
| Retriever.RetrievedIsRanking | backend/retriever.py:16-36 | for every admissible argsort result: no records for no chunks, matching records, distinct and best first, the slice's count (including `max(n + top_k, 0)` for negative `top_k`), and nothing better left out |
| Retriever.RetrieveRelevantChunks | backend/retriever.py:16-36 | empty chunks give `[]` without scoring; otherwise the loop builds exactly the records of the reversed top slice of some admissible argsort, and these satisfy `IsRanking` |
| App.Session.constructor | app.py:19-31 | a fresh session is not uploaded, not processed, has no response and no remembered file, and satisfies the session invariant |
| App.IsBlank | app.py:172 | `not query.strip()`: true exactly when every character of the query is whitespace |
| App.Session.Upload | app.py:75-142 | each branch of the upload section, as written:<br>- no file, or the same file info as remembered, or a failed temporary write: the session is unchanged<br>- otherwise: response and action are reset, `uploaded` is set, and the chunks file is what `ingest_pdf` leaves after the stale file was (or was not) removed<br>- success: `processed`, and the new file info is remembered<br>- failure: not processed, and the old file info is kept, which differs from the new one<br>The session invariant is preserved. |
| App.Session.IngestUpload | app.py:95-142 | the ingestion block: response and action reset, `uploaded` set, the chunks file is what `ingest_pdf` leaves after the stale file was (or was not) removed; on success `processed` and the new file info remembered; on failure not processed, the file info unchanged and, when the stale file was removed, no chunks file; the session invariant is preserved |
| App.Session.UploadFixed | app.py:75-142 | the corrected upload section: the same branches, except that the remembered file info is cleared before ingesting; it preserves `Settled` (a remembered file is a processed one), so a skipped rerun implies `processed` |
| App.Session.RunGetAnswer | app.py:152-157 | loads the chunks file (a missing file raises) and answers from the records of some admissible ranking of the top 5 |
| App.Session.RunSummarize | app.py:159-164 | loads the chunks file (a missing file raises) and summarises the chunks joined by newlines, passed as a single chunk with the fixed prompt |
| App.Session.GetAnswer | app.py:167-178 | refuses, in this order, when nothing was uploaded, when the upload is not processed, or when the query strips to nothing, each time leaving the session unchanged; otherwise stores the generated answer with action `"answer"` and leaves everything else unchanged |
| App.Session.Summarize | app.py:180-189 | the same first two refusals; otherwise stores the summary with action `"summary"` and leaves everything else unchanged |
| App.Session.ResultTitle | app.py:191-195 | results are shown exactly when the response is non-empty, titled "Answer" exactly when the last action was an answer and "Summary" otherwise |
| App.SampleIngestion | backend/ingest.py:30-37 | the one-page PDF "x" is ingested and a PDF whose only page has no text is rejected |
| App.ReuploadAfterFailedIngestIsIgnored | app.py:79-171 | as written: upload A, then B (rejected), then A again, and "Get Answer" is still refused with "still being processed" |
| App.ReuploadAfterFailedIngestIsRetried | app.py:79-137 | with `UploadFixed`, the same three uploads ingest A again |

## Left out

- Embeddings, normalisation and the dot product (retriever.py:19-27) are the parameter `sim`. Real-valued scores stand for floats: rounding, NaN and zero-norm vectors are not modelled.
- `PdfReader` and `page.extract_text()` are not modelled. Their outcome is the value `Pdf`.
- The internals of `RecursiveCharacterTextSplitter` are the parameter `split`. No claim is made about chunk size or overlap beyond passing 800 and 150.
- JSON encoding and decoding of the chunks file, and `load_chunks` (retriever.py:9-11), are not modelled. The file is the list of chunks itself.
  - A `json.dump` that fails midway and leaves a truncated file is not modelled.
  - A corrupt file is not modelled.
- App.Session.RunGetAnswer: a chunks file that is missing although the session is processed cannot arise under the session invariant. That branch (`None`) is modelled but never reached from `GetAnswer`.
- The temporary PDF file and its removal are not modelled, and neither is `_get_file_info` (app.py:37-70). The file info is an uninterpreted value compared by equality.
- generator.py is not part of this model beyond the fact that it reads only the `"chunk"` texts (generator.py:21). The language model is the parameter `generate`.
- Streamlit rendering, messages, the spinner, popping cache keys, the download button and CSS loading are not modelled.
- One rerun runs the upload section, then the buttons, then the results area. Here these are separate methods that a caller sequences. Concurrency between browser sessions sharing `data/chunks.json` is not modelled.
- The exception raised by a PDF that cannot be read is one error value, `PdfUnreadable`. The source's exception types and messages are not modelled.
- Behaviour of the code a reader might not expect, which the model keeps:
  - there is no index tie-break among equal scores, because numpy's sort is not stable;
  - zero chunks after filtering is a success, not an error;
  - a chunk of exactly 30 stripped characters is dropped (`> 30`);
  - the old chunks file is deleted before ingesting rather than replaced atomically. When the stale file could be removed, a failed ingest leaves no chunks file at all; otherwise the previous chunks file survives.
- Retriever.RetrieveRelevantChunks: that no similarity is computed for an empty chunk list is shown only by the result not depending on `sim`.

## Findings

| source | as written | input that shows it | evidently intended | confidence | as-written member | corrected member |
|---|---|---|---|---|---|---|
| app.py:79, 111-119, 135-137, 171 | `uploaded_file_info` is only ever set on success, but `processed` is cleared before every ingest. After a failed ingest of a different file, re-uploading the previously ingested file matches the remembered info, so ingestion is skipped while `processed` stays false. | upload A (ingested), upload B whose pages have no text (raises), upload A again, press "Get Answer" | the re-upload of A is ingested again, as the message "Please wait or re-upload" suggests | medium, not executed | App.ReuploadAfterFailedIngestIsIgnored | App.Session.UploadFixed |
