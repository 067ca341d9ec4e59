# apex-backend core, modelled in Dafny

This project models the core rules of apex-backend, a service for commercial real
estate offering memoranda. The service:

- takes PDF uploads;
- cleans and chunks the text of every page;
- stores the pages and the embedded chunks;
- has a language model extract a fixed set of metrics;
- answers questions about a document from the chunks most similar to the question.

The model covers these parts:

- `TextCleaning`: `clean_text` (app/pdf_service.py). It proves:
  - the shape of the result;
  - that the non-whitespace characters survive in order;
  - idempotence;
  - when the result is empty;
  - that the result equals the reference `" ".join(s.split())`.
- `Chunking`: `chunk_text`, both as a function and as the source's `while` loop. It proves:
  - the closed form of chunk `i`;
  - the exact chunk count `ceil(len / (chunk_size - overlap))`;
  - that every character is covered;
  - the loop's termination hazard.
- `Records` and `Ingestion`: `process_document` as a function from the store before a
  run to the store after it. The store is the storage bucket plus the `documents`,
  `document_pages`, `document_chunks` and `extracted_metrics` tables. The PDF reader,
  the embedding call, the read-back order of page rows, the language model, the JSON
  parser and the metrics insert are parameters.
- `Extraction`: `extract_metrics`, covering:
  - the 12000-character prompt excerpt;
  - reply trimming;
  - markdown fence removal;
  - parse-or-fallback;
  - the shape of the fallback record.
- `Retrieval`: `query_document`, covering:
  - the empty-match short cut;
  - the context blocks and their order;
  - the sources list;
  - answer trimming;
  - propagation of failures from the three external calls.
- `Api`: the request-level rules of app/main.py:
  - the `.pdf` suffix guard, the storage path and the initial `processing` status of an upload;
  - the row flattening of the document list;
  - the name default and the 404 rules of the file download.
- `Common` and `Json`: the Python string operations the code relies on (`str.isspace`,
  `strip`, clamped slicing, single-pass `replace`, `join`, `str(int)`), and JSON values
  with Python's "last key wins" dictionary construction.

Two behaviours of the code are worth stating plainly:

- The chunking loop gives `ceil(len / step)` chunks, not `ceil((len - overlap) / step)`:
  a full 4000-character page yields two chunks, the second being its last 500 characters
  again. `Chunking.ChunkTextCount` and `Chunking.DefaultFullPage` state this.
- The page read-back query at app/pdf_service.py:60-63 has no ordering clause, so the
  order in which extraction sees the pages is a parameter of the model. Page order is
  proved only under the assumption that rows come back as written
  (`Ingestion.FullTextInPageOrder`).

## Model

| member | source | states |
|---|---|---|
| TextCleaning.CleanText | app/pdf_service.py:9-11 | The result has no leading or trailing whitespace, no two adjacent whitespace characters, and only `' '` as whitespace. It keeps exactly the non-whitespace characters of the input, in order. It is empty exactly when the input is all whitespace. |
| TextCleaning.Collapse | app/pdf_service.py:10 | No contract of its own: `TextCleaning.CollapseShape` and `TextCleaning.CollapseIsJoinedWords` state what the whitespace-run replacement gives. |
| TextCleaning.CollapseShape | app/pdf_service.py:10 | Replacing each whitespace run by one space gives single plain spaces, keeps the non-whitespace characters in order, is empty only for the empty text, and starts with whitespace exactly when the input does. |
| TextCleaning.CleanTextIdempotent | app/pdf_service.py:9-11 | Cleaning a cleaned text changes nothing. |
| TextCleaning.CleanTextFixesClean | app/pdf_service.py:9-11 | Any text already in the normalised shape is left unchanged by cleaning. |
| TextCleaning.CleanTextIsJoinedWords | app/pdf_service.py:9-11 | Cleaning equals the independent reference "split into whitespace-free words, join with one space". |
| Chunking.ChunkText | app/pdf_service.py:87-105 | Every chunk is non-empty, at most `chunk_size` long and carries the given page number. Empty text gives no chunks, any other text gives at least one, and the first chunk is a prefix of the text. |
| Chunking.ChunkTextLoop | app/pdf_service.py:87-105 | The source's `while` loop, advancing `start` by `chunk_size - overlap` until it reaches the end of the text, emits exactly the chunks of `ChunkText`. |
| Chunking.ChunkAt | app/pdf_service.py:92-103 | Chunk `i` starts inside the text at `i * step` and is `text[i*step : min(i*step + chunk_size, len)]`. |
| Chunking.ChunkTextCount | app/pdf_service.py:92-103 | The number of chunks is `ceil(len / (chunk_size - overlap))`. |
| Chunking.ChunkCountBounds | app/pdf_service.py:92-103 | With `c` chunks, the last chunk starts before the end of the text, `(c-1)*step < len`, and the steps reach the end, `len <= c*step`. |
| Chunking.ChunkCovers | app/pdf_service.py:92-103 | With a non-negative overlap, every index `k` of the text lies in chunk `k / step`, and that chunk holds `text[k]` at offset `k - (k/step)*step`. |
| Chunking.DefaultFullPage | app/pdf_service.py:87 | With the default 4000/500 window, a 4000-character page gives two chunks: the whole page, then its last 500 characters. |
| Chunking.WindowCountIs | app/pdf_service.py:92-103 | From window start `start`, the loop takes `ceil((len - start) / step)` windows, and none at or past the end. |
| Chunking.StallsWithoutProgress | app/pdf_service.py:92-103 | When `overlap >= chunk_size`, a non-empty text uses up any bound on the number of loop passes, so the loop does not terminate. |
| Chunking.PassesPerChunk | app/pdf_service.py:92-103 | With `overlap < chunk_size`, the loop stops by itself after exactly one pass per window once enough passes are allowed. |
| Ingestion.ProcessDocument | app/pdf_service.py:14-85 | A run leaves the stored files and the number of document rows unchanged, never shrinks the page, chunk or metrics tables, and adds at most one metrics row. Its full effect is stated by `Ingestion.RunOutcome`, `Ingestion.RunMetrics`, `Ingestion.RunKeepsRecords` and `Ingestion.RunPagesAndChunks`. |
| Ingestion.IngestPages | app/pdf_service.py:30-58 | The page loop changes only the page and chunk tables, adds at most one page row per page and never shrinks either table. Which rows it adds is stated by `Ingestion.IngestPagesEffect`. |
| Ingestion.StoreChunks | app/pdf_service.py:49-58 | Storing a page's chunks changes only the chunk table, adding at most one row per chunk. Which rows it adds is stated by `Ingestion.StoreChunksEffect`. |
| Ingestion.RecordMetrics | app/pdf_service.py:60-83 | The metrics step leaves files, pages, chunks and the number of document rows unchanged, and either keeps the metrics table or appends one row to it. Which row, and the status it sets, is stated by `Ingestion.RecordMetricsEffect`. |
| Ingestion.MetricsRowFor | app/pdf_service.py:68-73 | The row's keys are `document_id` and the keys of the reply. The values are stated by `Ingestion.MetricsRowDocId`. |
| Ingestion.PagePlanRows | app/pdf_service.py:30-44 | Every planned page row belongs to the document, has a 1-based number within the page count, and holds the non-empty cleaned text of that page. |
| Ingestion.PagePlanIncreasing | app/pdf_service.py:30-44 | Planned page rows come in strictly increasing page order. |
| Ingestion.PagePlanComplete | app/pdf_service.py:30-44 | Every page with non-empty cleaned text has a planned row. |
| Ingestion.BlankPageSkipped | app/pdf_service.py:30-36 | A page gets a page row exactly when its raw text is not all whitespace. |
| Ingestion.BlankPageNoChunks | app/pdf_service.py:30-58 | A page whose raw text is all whitespace gets no chunk row either: no stored chunk row carries its page number. |
| Ingestion.ChunkPlanPages | app/pdf_service.py:30-58 | Every planned chunk carries the 1-based number of a page after the starting one, within the page count, whose cleaned text is non-empty. |
| Ingestion.SecondPageBlank | app/pdf_service.py:30-44 | For two pages whose second is blank, the planned page rows are the single row of page 1 with its cleaned text. |
| Ingestion.SecondPageBlankRun | app/pdf_service.py:14-83 | A run that goes through on a two-page PDF whose second page is blank writes exactly one page row, for page 1, and leaves the document `ready`. |
| Ingestion.AttachedExact | app/pdf_service.py:46-58 | Stored chunk rows are the planned chunks, in order, each with its page number, text and own embedding. They stop just before the first chunk whose embedding fails, and all are stored exactly when every chunk embeds. |
| Ingestion.StoreChunksEffect | app/pdf_service.py:49-58 | Storing one page's chunks appends exactly those rows, goes through exactly when every chunk embeds, and changes no other table. |
| Ingestion.IngestPagesEffect | app/pdf_service.py:30-58 | The page loop appends the planned chunk rows up to the first failed embedding and a prefix of the planned page rows (all of them when it goes through). It goes through exactly when every planned chunk embeds, and touches no other table. |
| Ingestion.RunOutcome | app/pdf_service.py:14-83 | A document with a row ends a run `ready` exactly when the run goes through and `failed` otherwise. A run goes through when the file downloads, the PDF reads, every chunk embeds, the reply is an object and the metrics insert is accepted. |
| Ingestion.RunMetrics | app/pdf_service.py:67-78 | A run that goes through records exactly one metrics row, built from the extraction of its pages; any other run records none. |
| Ingestion.RunKeepsRecords | app/pdf_service.py:14-83 | A run never removes or reorders earlier rows of any table or earlier stored files, and never changes another document's status. |
| Ingestion.RunPagesAndChunks | app/pdf_service.py:17-58 | A missing or unreadable file writes no pages or chunks. Otherwise the run writes the planned chunk rows up to the first failed embedding and a prefix of the planned page rows, and all of the planned page rows, after the earlier ones, when every planned chunk embeds. |
| Ingestion.RunWritesPlan | app/pdf_service.py:30-83 | When every planned chunk of a readable file embeds, the run leaves exactly the earlier page rows followed by every planned page row, in page order. |
| Ingestion.RecordMetricsEffect | app/pdf_service.py:65-83 | The metrics step adds the row and sets `ready` exactly when extraction returns an object whose row is accepted. Otherwise it sets `failed` and adds nothing; pages, chunks and files are untouched. |
| Ingestion.PagePlanOwn | app/pdf_service.py:38-44 | Every planned page row carries the document's id. |
| Ingestion.FullText | app/pdf_service.py:60-65 | No contract of its own: the document's page texts, in the order the read-back gives them, joined by single spaces. `Ingestion.FullTextInPageOrder` states the order when rows come back as written. |
| Ingestion.FullTextInPageOrder | app/pdf_service.py:60-65 | If rows are read back in insertion order and the document had no pages before, extraction sees the cleaned non-empty pages in page order, joined by single spaces. |
| Ingestion.MetricsRowDocId | app/pdf_service.py:68-73 | The metrics row holds the document id under `document_id` unless the reply has that key, which then wins. Every reply key keeps the value of its last occurrence. |
| Records.SetStatus | app/pdf_service.py:76-83 | The status update changes only the `documents` table and keeps its length. `Records.SetStatusThenStatusOf` states which status each document then reads back with. |
| Records.SetStatusThenStatusOf | app/pdf_service.py:76-83 | After the status update the document reads back with the new status, if it has a row, and every other document keeps its own. |
| Json.ToMapAfterHead | app/pdf_service.py:68-73 | A key placed before the reply's fields survives in the dictionary only when no field repeats it; every field key keeps its own value. |
| Extraction.PromptExcerpt | app/extraction_service.py:35 | The prompt carries a prefix of the text of length `min(12000, len)`. |
| Extraction.OnlyExcerptMatters | app/extraction_service.py:35-38 | Two texts that agree on their first 12000 characters give the same extraction result. |
| Extraction.ReplyText | app/extraction_service.py:40 | The reply text is stripped, and a missing text counts as empty. |
| Extraction.Unfence | app/extraction_service.py:44-48 | A text not starting with three backticks is left unchanged. A fenced text comes out trimmed and no longer than it was. |
| Extraction.ExtractMetrics | app/extraction_service.py:13-69 | The result is an error exactly when the generation call raises. Otherwise it is the parse of the cleaned reply, or the fallback record. |
| Extraction.ParsedReplyReturned | app/extraction_service.py:50-52 | A cleaned reply that parses is returned unchanged. |
| Extraction.UnparsedReplyFallsBack | app/extraction_service.py:54-69 | A cleaned reply that does not parse, including a missing reply text, gives the fallback record and never an error. |
| Extraction.FallbackShape | app/extraction_service.py:59-69 | The fallback object has exactly the nine schema keys, each once and in schema order: the eight metrics are null and `risk_summary` is "Extraction failed". |
| Extraction.RemoveClosingFence | app/extraction_service.py:47 | Deleting every three-backtick run from a text without its own backtick triple, followed by a closing fence, removes exactly the closing fence. This holds even when the text ends in one or two backticks. |
| Extraction.FencedReplyParsesInner | app/extraction_service.py:44-52 | A reply "```json" + inner + "```", padded with whitespace and with no backtick triple inside, gives the same result as parsing the stripped inner text. |
| Retrieval.QueryDocument | app/retrieval_service.py:12-68 | The search is scoped to the document with match count 10. A failure of the embedding, search or generation call, or a missing answer text, gives an error. No matches gives the fixed "No relevant information found." answer with no sources. Otherwise the answer is the stripped model text, with the sources of the matches. |
| Retrieval.NothingFoundIgnoresModel | app/retrieval_service.py:28-32 | When nothing is found, the result does not depend on the language model, so no generation is used. |
| Retrieval.Sources | app/retrieval_service.py:38-48 | There is exactly one source per match, in match order. Each has the match's page number and a prefix of its content of length `min(300, len)`. |
| Retrieval.Block | app/retrieval_service.py:40 | A block starts with `"(Page "` and ends with `") "` followed by the match's content. `Retrieval.PageLabelReadsBack` states the page label in between. |
| Retrieval.Context | app/retrieval_service.py:50 | No contract of its own: `Retrieval.ContextSnoc` and `Retrieval.ContextHasEveryMatch` state how the blocks are joined. |
| Retrieval.ContextSnoc | app/retrieval_service.py:38-50 | The context is the match blocks in match order: each further match adds one blank line and its block at the end. |
| Retrieval.ContextHasEveryMatch | app/retrieval_service.py:38-50 | The block `"(Page p) content"` of every match occurs in the context. |
| Retrieval.PageLabelReadsBack | app/retrieval_service.py:40 | A block starts with `"(Page "`, then the decimal page number (which reads back as the number), then `") "` and the content. |
| Api.UploadDocument | app/main.py:20-62 | A name without the case-sensitive `.pdf` suffix gets 400 with nothing stored or scheduled. A failed upload gets 500 with nothing stored. A failed insert gets 500 and keeps the stored file. Success stores the bytes at the path, inserts a `processing` row, answers with the id and "processing", and schedules processing of that id and path. |
| Api.UpperCaseSuffixRefused | app/main.py:25-26 | "report.PDF" is refused with 400. |
| Api.StoragePath | app/main.py:29 | The path is as long as the id, one separator and the file name together. `Api.StoragePathSplits` states how it splits back. |
| Api.StoragePathSplits | app/main.py:28-29 | The storage path is the id, one slash, then the file name. With a slash-free id it splits back into both at its first slash. |
| Api.UploadedIsProcessing | app/main.py:40-47 | A successfully uploaded new document reads back with status `processing`. |
| Api.UploadedDocumentSettles | app/main.py:49-54 | The scheduled processing of a freshly uploaded document always leaves it `ready` or `failed`, never `processing`. |
| Api.Flatten | app/main.py:98-115 | An output row exists exactly when the embedded metrics can be read. It copies the id, file name, status and creation time, and lists exactly the eight metric keys in schema order. |
| Api.FlattenMetrics | app/main.py:99-114 | The metric values come from the first joined metrics row and are all null when there is none. `risk_summary` is never listed. |
| Api.ListDocuments | app/main.py:72-117 | There is exactly one output row per fetched row, in fetched order, each the flattening of its row. The request fails exactly when some row's metrics cannot be read. |
| Api.ServedName | app/main.py:157 | The served name is the stored name when that is present and non-empty, and "document.pdf" when it is null or empty; it is never empty. |
| Api.Disposition | app/main.py:168 | No contract of its own: `Api.DispositionNameReadsBack` states the header's layout and when the name reads back from it. |
| Api.DispositionNameReadsBack | app/main.py:164-169 | The `Content-Disposition` header is `inline; filename="`, the served name, then a closing quote. The text between its first two quotes is the whole name exactly when the name has no quote of its own. |
| Api.GetDocumentFile | app/main.py:145-170 | No document row gives 404 "Document not found". A storage download that raises is not caught and gives a server error (500). No stored bytes give 404 "File not found in storage". Otherwise the bytes are served as `application/pdf` under the served name. Every other error is a 404. |
| Api.UploadThenDownload | app/main.py:153-169 | A freshly uploaded file downloads back byte for byte, under its own name. |

## Left out

- PDF parsing with PyMuPDF and the temporary file (app/pdf_service.py:23-32) are a parameter, `readPdf`: it returns the text of each page, or nothing when the bytes are not a readable PDF.
- The storage download (app/pdf_service.py:17-20) is modelled as a lookup in the bucket. A missing file stands for both a `None` result and a raising call; both end the run `failed`.
- The embedding service (app/embedding_service.py is not part of this model) is a parameter, `embed`, that maps a chunk's text to an embedding, or to nothing when the call raises.
- Embedding failures depend only on the chunk's text. In the source, every call at app/pdf_service.py:50 is a separate network call that may fail on its own. The model cannot express a call that fails on a text an earlier call embedded, such as a second page that reads only "CONFIDENTIAL" like the first. Such runs, which the source ends `failed`, are not modelled.
- The language model and `json.loads` are parameters. The prompt wording, the answer content and the metric values (floats such as `cap_rate`) are not modelled.
- The page and chunk inserts, the page read-back `select` (app/pdf_service.py:60-63) and the status updates are assumed to succeed. Only the metrics insert may be refused, through the parameter `metricsAccepted`. A database outage mid-loop, or a read-back that raises (which the source turns into `failed`), is not modelled.
- Ingestion.FullTextInPageOrder: proves page order only when the read-back keeps insertion order. The query at app/pdf_service.py:60-63 has no ordering clause, so in general the order is whatever the `readBack` parameter gives.
- Chunking.ChunkText: requires `0 < chunk_size` and `overlap < chunk_size`, which the only caller (app/pdf_service.py:47) meets with 4000 and 500. Other settings are not modelled. With `chunk_size == 0` and a negative overlap, every slice is empty and the loop emits empty chunks. A negative chunk size, whose slices Python counts from the end of the text, is not modelled. An overlap of at least the chunk size never terminates, which `Chunking.StallsWithoutProgress` states instead.
- Extraction.Unfence: its own contract only says the result is unchanged, or trimmed and no longer. Exactly what is removed is stated for fenced JSON replies by `Extraction.FencedReplyParsesInner`, not for arbitrary texts.
- Api.GetDocumentFile: follows the code's `if not doc_response.data` branch for a missing row. Whether `.single()` raises instead, for zero or several rows, depends on the database client, which is not part of this model. A raising download is the parameter `downloadRaises`; the 500 it gives stands for FastAPI's response to an uncaught exception.
- The similarity ranking and its scores are the `search` parameter of `Retrieval.QueryDocument`: the matches are taken as given, in the order returned.
- `list_documents` takes the fetched rows in the order the query returns them; the ordering by `created_at` is done by the database. Keys missing from a fetched row are not modelled: a fetched row always has its columns.
- `get_document` and `ask_question` are not modelled: the first is a plain read outside the request rules above, and the second only calls `query_document`.
- The document id (`uuid4`), the file bytes (`await file.read()`) and the row's creation time are parameters of `Api.UploadDocument`. The upload's content-type option is not modelled.
- FastAPI routing, CORS, `BackgroundTasks` scheduling, concurrency between documents, and the `print` logging are not modelled.
