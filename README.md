# WeKnora document reader, modelled in Dafny

This project models the core of the WeKnora document-reader service. The service takes an uploaded document (PDF, DOCX, image or web page) and produces Markdown-like text. It then cuts that text into overlapping, offset-tagged chunks and returns them over gRPC. The project also models the deterministic parts of the QA-dataset builder that sits next to the service.

Each source file of the core has its own Dafny module, in a file of its own:

- `pdf_parser.dfy` (`PdfParser`): pipe-table rendering of cell grids, and the two-tier table detection. It also covers the vertical-band object filter, page assembly, the data-URI strip, and image-reference rewriting with its `images_map`.
- `text_units.dfy` (`TextUnits`) and `chunker.dfy` (`Chunker`): the chunker of `BaseParser`:
  - for splitting, merging protected ranges and splitting around them on the separators, keeping each separator;
  - for packing, greedy packing with a size bound, and the overlap carried from one chunk to the next;
  - for the rest, chunk offsets, the `max_chunks` cut, the OCR-engine latch, and image records.
- `docx_pages.dfy` (`DocxPages`) and `docx_parser.dfy` (`DocxParser`): the DOCX parser:
  - paragraph-to-page mapping, the page-range filter and worker-count arithmetic;
  - per-page content sequencing, and colspan HTML tables;
  - reassembly of worker results, and the top-level text and image assembly with its fallback.
- `request.py` → `request.dfy` (`Request`): request-id shortening, the log filter, millisecond truncation, and the request-id context stack.
- `server.dfy` (`Server`): surrogate scrubbing, request-config defaulting, `file_type` derivation, and the chunk-to-proto mapping.
- `storage.dfy` (`Storage`): URL and object-key construction, client-config checks, and backend selection.
- `caption.dfy` (`Caption`): VLM response decoding, config normalisation, and the guard paths of `get_caption`.
- `ocr_engine.dfy` (`OcrEngine`): the OCR singleton, Paddle text assembly, and the guard paths of the Nanonets backend.
- `parser_registry.dfy` (`ParserRegistry`): the file-type table and the None paths of `parse_file` and `parse_url`.
- `web_parser.dfy` (`WebParser`): the title fallback and body-line normalisation.
- `utils.dfy` (`Utils`): the running maxima `findMaxDt`/`findMaxTm`, the `singleton` cache, and `rmSpace`.
- `qa_dataset.dfy` (`QaDataset`): dataset filtering, context joining, the guards of `answer_question`, and the resume/retry/id bookkeeping of `generate_answers`.
- `pystr.dfy` (`PyStr`) and `wrappers.dfy` (`Wrappers`): the Python string operations the core relies on (`isspace`, `strip`, `splitlines`, `join`, `split`, `lower`, `replace`, `splitext`, `str(int)`), and `Option`/`Result`.

State that the source updates in place is modelled as Dafny classes with `modifies` frames:

- the OCR-engine latch and the OCR singleton cache;
- the `singleton` wrapper;
- the request context and its log records;
- the image rewriter's `images_map`;
- the DOCX `ImageData` records.

Loops in the source are methods with loop invariants. Each method is proved against a specification function, and the properties of that function are proved as lemmas. Libraries and services outside the model enter as parameters: pdfplumber, python-docx, the regex engine, HTTP, the object stores, PIL, `uuid` and the clock. On the PDF path the upload is a function of the file and of the call's ordinal, since each call draws a fresh `uuid4`.

## Model

| member | source | states |
|---|---|---|
| PdfParser.CleanCell | services/docreader/src/parser/pdf_parser.py:22-24 | a None cell renders as ""; no rendered cell contains a newline; a cell without a newline renders unchanged |
| PdfParser.Dashes | services/docreader/src/parser/pdf_parser.py:29 | the delimiter row has exactly one `---` cell per header column |
| PdfParser.Kept | services/docreader/src/parser/pdf_parser.py:30-35 | the kept body rows are no more than the input rows, and each is non-empty and as wide as the header |
| PdfParser.ConvertTableToMarkdown | services/docreader/src/parser/pdf_parser.py:19-37 | the text built row by row is the pipe table: "" for an empty grid or empty header row, else the header line, the delimiter line and the lines of the kept body rows in input order |
| PdfParser.KeptDrop | services/docreader/src/parser/pdf_parser.py:30-35 | removing an empty or wrong-width row from the body rows leaves the kept rows unchanged |
| PdfParser.DroppedRowInvisible | services/docreader/src/parser/pdf_parser.py:30-35 | deleting an empty or wrong-width body row from the grid leaves the Markdown unchanged |
| PdfParser.RowLineOneNewline | services/docreader/src/parser/pdf_parser.py:28-36 | a table line built from newline-free cells holds exactly one newline |
| PdfParser.RowsTextLines | services/docreader/src/parser/pdf_parser.py:30-36 | the body text holds exactly one newline per kept row |
| PdfParser.TableLines | services/docreader/src/parser/pdf_parser.py:21-37 | a non-empty table has exactly 2 + (kept body rows) lines, so a cell's newline never breaks a row |
| PdfParser.DetectTables | services/docreader/src/parser/pdf_parser.py:137-142 | a page's tables come from exactly one tier: the "lines" tier whenever it found any, else the fallback tier |
| PdfParser.NotWithinBboxes | services/docreader/src/parser/pdf_parser.py:146-152 | the object is kept iff its vertical centre lies outside every table's [top, bottom] band, bounds inclusive |
| PdfParser.KeptObjects | services/docreader/src/parser/pdf_parser.py:155 | an object is in the filtered view iff it is on the page and outside every band |
| PdfParser.BandIgnoresX | services/docreader/src/parser/pdf_parser.py:148-151 | two objects with the same top and bottom are kept or dropped alike, whatever their x-coordinates |
| PdfParser.NoTablesKeepsAll | services/docreader/src/parser/pdf_parser.py:146-155 | with no tables the filtered view is every object, in order |
| PdfParser.PlainPage | services/docreader/src/parser/pdf_parser.py:137-160 | a page where neither tier finds a table yields its plain extracted text |
| PdfParser.FilterObjects | services/docreader/src/parser/pdf_parser.py:146-155 | the filtering loop keeps exactly the objects of the filtered view, in page order |
| PdfParser.AppendTables | services/docreader/src/parser/pdf_parser.py:163-167 | the parts gain each table's Markdown wrapped in "\n\n", in detection order |
| PdfParser.ProcessPage | services/docreader/src/parser/pdf_parser.py:134-170 | the page content is the filtered text followed by the wrapped tables of the tier that was used |
| PdfParser.PageTexts | services/docreader/src/parser/pdf_parser.py:133-170 | one content string per page |
| PdfParser.ParseLocal | services/docreader/src/parser/pdf_parser.py:121-178 | "" when pdfplumber raised; otherwise the page contents in page order joined by "\n\n--- Page Break ---\n\n" |
| PdfParser.JoinedPages | services/docreader/src/parser/pdf_parser.py:172 | with two or more pages, the first page's content is followed by exactly one page-break marker and then the join of the rest |
| PdfParser.StripDataUri | services/docreader/src/parser/pdf_parser.py:102-105 | a string without the "data:" prefix is unchanged; with it, the text after its first comma, and a failure when there is no comma |
| PdfParser.ImageRewriter.constructor | services/docreader/src/parser/pdf_parser.py:51 | the images map starts empty, and no upload has been made |
| PdfParser.Rewrite | services/docreader/src/parser/pdf_parser.py:54-68 | plain text and http(s) references are kept verbatim; a readable local path becomes prefix + the URL of this upload + suffix; it fails exactly when a local file cannot be opened |
| PdfParser.RewriteFailureSticks | services/docreader/src/parser/pdf_parser.py:63-65 | once one reference cannot be opened, the whole substitution fails |
| PdfParser.RewriteAllSucceeds | services/docreader/src/parser/pdf_parser.py:54-68 | the substitution succeeds exactly when every local image reference in the text names a file that can be opened |
| PdfParser.ImageRewriter.ReplaceImg | services/docreader/src/parser/pdf_parser.py:54-68 | returns the rewrite of the one reference; a readable local image makes one more upload and adds the entry of its URL → file to the map; anything else changes neither |
| PdfParser.ImageRewriter.Substitute | services/docreader/src/parser/pdf_parser.py:111-112 | the rewriting loop yields the rewrite of every piece in order; on success the map holds the entries of every local image rewritten |
| PdfParser.RemoteOnlyUnchanged | services/docreader/src/parser/pdf_parser.py:59-60 | a text whose images are all remote comes back unchanged and adds nothing to the map |
| PdfParser.MapEntries | services/docreader/src/parser/pdf_parser.py:66-67 | every map entry is a readable local image keyed by the URL of its own upload, and every readable local reference has the entry of its upload |
| PdfParser.MapKeysFromCalls | services/docreader/src/parser/pdf_parser.py:66-67 | every key of the map is the URL of one of the uploads made |
| PdfParser.OneEntryPerUpload | services/docreader/src/parser/pdf_parser.py:54-68 | when distinct uploads give distinct URLs, the map has exactly one entry per readable local reference, so a file referenced twice has two entries |
| PdfParser.ParseRemote | services/docreader/src/parser/pdf_parser.py:73-117 | the result is the remote value: None when the request or a lookup failed, a data URI lacks a comma, a decode failed, or a local image among the files written under images/ cannot be opened; otherwise the rewritten Markdown with its images map; the files written are one per image |
| PdfParser.RemoteSucceeds | services/docreader/src/parser/pdf_parser.py:73-117 | the remote path yields a (text, map) pair exactly when the reply came, every image decodes and every local image reference names a written file that opens |
| PdfParser.RemoteOnlyReply | services/docreader/src/parser/pdf_parser.py:101-114 | a reply whose images decode and whose references are all remote yields its Markdown unchanged with an empty map |
| PdfParser.ParseIntoText | services/docreader/src/parser/pdf_parser.py:42-178 | after a failed health probe, the local text; after a good one, exactly the remote value, (text, map) or None, never a local fallback |
| Caption.FromJson | services/docreader/src/parser/caption.py:110-152 | the parse fails exactly when some choice's message is JSON null; otherwise one message per choice in order, with a missing message read as all-None fields, the scalar fields copied, and usage present exactly when the usage object is non-empty, each counter defaulting to 0 |
| Caption.ChoiceData | services/docreader/src/parser/caption.py:154-165 | the first choice's content, possibly None; "" when there are no choices |
| Caption.MessagelessChoiceHasNoContent | services/docreader/src/parser/caption.py:124-163 | a reply whose first choice has no message yields a None caption |
| Caption.NormaliseInterface | services/docreader/src/parser/caption.py:195-197 | the interface type is "ollama" or "openai", and "ollama" exactly when it was "ollama" |
| Caption.InitService | services/docreader/src/parser/caption.py:174-197 | a configured service has an interface type of "ollama" or "openai" and an endpoint ending with "/chat/completions" |
| Caption.ConfiguredFromConfig | services/docreader/src/parser/caption.py:180-197 | with a truthy base URL and model name in the configuration, the endpoint, model and interface type come from it and not from the environment |
| Caption.InterfaceCaseInsensitive | services/docreader/src/parser/caption.py:184 | configurations whose interface types differ only in case select the same interface |
| Caption.GetCaption | services/docreader/src/parser/caption.py:334-360 | empty image data gives ""; an unconfigured service raises; otherwise a failed call or an empty choice list gives "", a None first content raises, and any other first content is the caption, taken from the reply of the interface the type selects |
| OcrEngine.BackendFor | services/docreader/src/parser/ocr_engine.py:269-275 | a backend exists exactly for the names "paddle" and "nanonets", and it is the backend of that name |
| OcrEngine.Factory.constructor | services/docreader/src/parser/ocr_engine.py:253 | no backend is cached at first |
| OcrEngine.Factory.GetInstance | services/docreader/src/parser/ocr_engine.py:255-277 | a cached backend is returned whatever name is passed and stays cached; without one, a missing name raises, an unknown name returns None and caches nothing, and a known name builds, caches and returns its backend |
| OcrEngine.BackendNameCaseInsensitive | services/docreader/src/parser/ocr_engine.py:269-272 | names differing only in letter case select the same backend |
| OcrEngine.Recognised | services/docreader/src/parser/ocr_engine.py:131-134 | every text kept from the lines is non-empty, and there are no more texts than lines |
| OcrEngine.PaddlePredict | services/docreader/src/parser/ocr_engine.py:105-147 | "" when the OCR handle is unset or the call raises; otherwise the stripped concatenation of the first page's non-empty line texts, each followed by one space |
| OcrEngine.SpacedVisible | services/docreader/src/parser/ocr_engine.py:135 | the space-joined text has a visible character exactly when one of the texts has |
| OcrEngine.PaddleTextShape | services/docreader/src/parser/ocr_engine.py:137-143 | the Paddle result is empty exactly when no line recognised anything but whitespace, and otherwise neither starts nor ends with whitespace |
| OcrEngine.NanonetsPredict | services/docreader/src/parser/ocr_engine.py:203-248 | "" without a client, for an empty encoding, or when the call raises; otherwise the first choice's content, which may be None |
| Request.SplitCount | services/docreader/src/utils/request.py:96 | `split("-")` yields one more part than there are dashes |
| Request.ShortIdShape | services/docreader/src/utils/request.py:91-102 | an id of at most 8 characters is shown unchanged; a longer one with fewer than two dashes is cut to its first 8 characters; otherwise the result is the longest prefix holding exactly two dashes (the whole id, or up to its third dash) |
| Request.ThreePieces | services/docreader/src/utils/request.py:96-99 | `parts[0]-parts[1]-parts[2]` is a prefix of the id with exactly two dashes that ends at the id's end or at its third dash |
| Request.ShortIdPrefix | services/docreader/src/utils/request.py:91-102 | the shown id is always a prefix of the request id |
| Request.SecondPiece | services/docreader/src/utils/request.py:38-39 | the part after the first "." has at least 6 characters exactly when 6 dot-free characters follow that dot |
| Request.FormatTimeCuts | services/docreader/src/utils/request.py:36-42 | with ".%f" in the format and microseconds present, the timestamp is cut three characters after its first dot |
| Request.FormatTimeKeeps | services/docreader/src/utils/request.py:39 | without six characters after the first dot, the truncation guard fails |
| Request.FormatTimeShape | services/docreader/src/utils/request.py:30-44 | the result is the timestamp cut just after the third character past its first dot when the format holds ".%f" and six dot-free characters follow it, and the unchanged timestamp otherwise |
| Request.FormatTimeIdempotent | services/docreader/src/utils/request.py:36-44 | truncating a truncated timestamp changes nothing |
| Request.LogRecord.constructor | services/docreader/src/utils/request.py:87 | a fresh record has no request id, no elapsed time and no elapsed suffix yet |
| Request.RequestContext.constructor | services/docreader/src/utils/request.py:13-14 | both context variables start as None |
| Request.RequestContext.SetRequestId | services/docreader/src/utils/request.py:17-24 | after `set_request_id(x)`, `get_request_id()` returns x and the start time is untouched |
| Request.RequestContext.Enter | services/docreader/src/utils/request.py:133-143 | the block's id is the given one when non-empty, else the fresh one; both variables are set and the previous values are kept for the reset |
| Request.RequestContext.Exit | services/docreader/src/utils/request.py:144-149 | both context variables return to the values they had before the block |
| Request.RequestContext.Filter | services/docreader/src/utils/request.py:87-117 | always returns True; without an id the record gets "no-req-id" and nothing else changes; with one it gets the short id, and with a start time the elapsed time, with the suffix appended to the message only if no earlier call appended one |
| Request.FilterTwice | services/docreader/src/utils/request.py:110-112 | filtering one record twice adds the elapsed suffix at most once |
| Request.NestedContexts | services/docreader/src/utils/request.py:121-149 | nested blocks see their own ids, the outer id is back after the inner block, and after both the variables hold what they held before |
| Server.CodePoints | services/docreader/src/server/server.py:286 | a well-formed string's code points are its characters, none of them a surrogate |
| Server.EncodeChar | services/docreader/src/server/server.py:46 | a scalar value encodes to between one and four UTF-8 bytes, as section 3 of RFC 3629 lays out |
| Server.DecodeOneEncoded | services/docreader/src/server/server.py:46 | decoding the bytes of one encoded character gives that character back and consumes exactly its bytes |
| Server.DecodeEncode | services/docreader/src/server/server.py:46 | UTF-8 decoding undoes UTF-8 encoding for every string without surrogates |
| Server.ToValidUtf8 | services/docreader/src/server/server.py:37-46 | None and "" give ""; otherwise the length is kept, each surrogate becomes exactly one U+FFFD and every other code point is unchanged, so the result holds no surrogate |
| Server.ScrubShape | services/docreader/src/server/server.py:35-45 | the substitution replaces each surrogate by U+FFFD and keeps every other code point, position by position |
| Server.ToValidUtf8Idempotent | services/docreader/src/server/server.py:45-46 | cleaning an already cleaned text changes nothing |
| Server.ToValidUtf8OnStrings | services/docreader/src/server/server.py:45-46 | a text without surrogates passes through unchanged |
| Server.BuildConfigShape | services/docreader/src/server/server.py:117-148 | chunk size 0 becomes 512, overlap 0 becomes 50, no separators become ["\n\n", "\n", "。"], provider 2 becomes "minio" and anything else "cos", an empty interface type becomes "openai"; values the request set are kept |
| Server.FileType | services/docreader/src/server/server.py:108-110 | a declared file type is used; otherwise the file name's extension without its dot, which holds no dot or slash and ends the name |
| Server.ImageProtosShape | services/docreader/src/server/server.py:299-311 | one proto image per chunk image, in order, each built from that image's dictionary |
| Server.ProtoOfShape | services/docreader/src/server/server.py:291-311 | the proto carries the cleaned content, the chunk's seq, start and end, and one converted image per chunk image in order |
| Server.ConvertChunkToProto | services/docreader/src/server/server.py:284-312 | the loop builds exactly the proto message `ProtoOf` describes |
| Server.MissingOffsetsAreZero | services/docreader/src/server/server.py:308-309 | an image without start and end gets 0 for both |
| Server.ReadFromFileResponse | services/docreader/src/server/server.py:165-194 | no result gives an empty response with no error; an exception gives its message as the error; otherwise one converted chunk per parsed chunk, in order |
| Server.ReadFromUrlResponse | services/docreader/src/server/server.py:257-282 | no result gives the error "Failed to parse URL"; an exception gives its message; otherwise one converted chunk per parsed chunk, in order |
| Server.ConvertChunks | services/docreader/src/server/server.py:183 | the list comprehension converts each chunk in order |
| Storage.InitCos | services/docreader/src/parser/storage.py:58-107 | a COS client is kept only with a non-empty bucket name and region |
| Storage.CosConfigSource | services/docreader/src/parser/storage.py:62-88 | with a configuration whose access key is not "", a client exists exactly when all five of its required values are truthy, and its bucket, region and prefix (default "") are the configuration's |
| Storage.CosUrl | services/docreader/src/parser/storage.py:109-120 | the download URL lies on the bucket's COS host |
| Storage.CosUrlInjective | services/docreader/src/parser/storage.py:120 | for one bucket and region, equal URLs mean equal object keys |
| Storage.CosUrlEnds | services/docreader/src/parser/storage.py:120 | the download URL ends with ".myqcloud.com/" followed by the object key |
| Storage.CosUploadFile | services/docreader/src/parser/storage.py:123-158 | "" without a client or when the upload raises; otherwise a URL on the bucket's host ending with the `{prefix}/images/{id}{ext}` key |
| Storage.CosUploadBytes | services/docreader/src/parser/storage.py:160-184 | "" without a client or when the upload raises; otherwise a URL on the bucket's host ending with the key, which has no prefix part when the prefix is falsy |
| Storage.CosKeysDisagree | services/docreader/src/parser/storage.py:139-175 | with an empty prefix the file key starts with "/" while the bytes key starts with "images/"; with an unset prefix the file key starts with "None/images/" |
| Storage.FileKeyExtension | services/docreader/src/parser/storage.py:138-140 | the file key depends only on the file's base name, not on the directories in its path |
| Storage.BasenameOfJoin | services/docreader/src/parser/storage.py:138 | the base name of "dir/name" is name when name holds no "/" |
| Storage.NormalisePrefix | services/docreader/src/parser/storage.py:211-218 | the normalised prefix is empty or neither starts nor ends with "/" |
| Storage.InitMinio | services/docreader/src/parser/storage.py:199-237 | a MinIO client is kept only with a non-empty bucket name and endpoint |
| Storage.MinioPrefixNormalised | services/docreader/src/parser/storage.py:211-218 | the prefix a MinIO client keeps neither starts nor ends with "/" |
| Storage.MinioUrlShape | services/docreader/src/parser/storage.py:239-250 | the URL ends with "/bucket/key"; it is the public endpoint plus that tail when one is set, else starts with the scheme `use_ssl` selects and the endpoint |
| Storage.MinioUploadFile | services/docreader/src/parser/storage.py:252-297 | "" without a client or when the upload raises; otherwise a URL ending with "/bucket/" and the key built from the file's extension |
| Storage.MinioUploadBytes | services/docreader/src/parser/storage.py:299-335 | "" without a client or when the upload raises; otherwise a URL ending with "/bucket/" and the key |
| Storage.BytesKeyDistinct | services/docreader/src/parser/storage.py:175 | distinct ids of equal length give distinct keys |
| Storage.MinioKeyRelative | services/docreader/src/parser/storage.py:314 | a MinIO object key never starts with "/" |
| Storage.CreateStorage | services/docreader/src/parser/storage.py:338-360 | a backend exists exactly when the lower-cased storage type is "minio" or "cos", and it is the one that name selects |
| Storage.ProviderOverridesEnvironment | services/docreader/src/parser/storage.py:347-350 | a configuration's provider decides the storage type, lower-cased, whatever STORAGE_TYPE says |
| Chunker.CarriedSuffix | services/docreader/src/parser/base_parser.py:853-867 | the units taken back from the closed chunk are its longest suffix that fits in the overlap target, and their total size is returned |
| Chunker.IsAllSeparators | services/docreader/src/parser/base_parser.py:872-877 | true exactly when every character of the unit is itself a separator |
| Chunker.DropSeparators | services/docreader/src/parser/base_parser.py:869-886 | the leading all-separator units are dropped from the overlap, which keeps a suffix whose first unit (if any) is not all separators, with its size |
| Chunker.CarryOverlap | services/docreader/src/parser/base_parser.py:846-894 | the next chunk starts at the unit the overlap rule selects: the greedy cut for min(overlap, chunk length), moved past leading separator units |
| Chunker.CloseRunning | services/docreader/src/parser/base_parser.py:833-899 | closing the running chunk appends it as the next numbered chunk, with its text and offsets, and restarts the running chunk at the carried units, keeping the packing invariant |
| Chunker.PackStep | services/docreader/src/parser/base_parser.py:828-905 | one unit either closes the running chunk (when it would take it past the size) and then joins it, or just joins it, keeping the packing invariant |
| Chunker.PackUnits | services/docreader/src/parser/base_parser.py:823-921 | the chunks are packed from the units: each is a slice of consecutive units at its offsets, closed only by a unit that would overflow it, and each later one starts with the overlap of its predecessor |
| Chunker.ChunksAreSlices | services/docreader/src/parser/base_parser.py:834-917 | each chunk is numbered by its position, has no images, and its content is the text between its start and end offsets |
| Chunker.Contents | services/docreader/src/parser/base_parser.py:834-909 | the contents of the chunks, one per chunk, in order |
| Chunker.ContentsUpTo | services/docreader/src/parser/base_parser.py:895-899 | without overlap, the first n chunks together hold exactly the units up to the end of chunk n |
| Chunker.NoOverlapTiles | services/docreader/src/parser/base_parser.py:895-899 | without overlap, each chunk starts where the previous one ends and the chunks together spell the whole text |
| Chunker.ChunkOrder | services/docreader/src/parser/base_parser.py:894-901 | each chunk starts inside or at the end of the previous one and ends strictly after it |
| Chunker.CarriedSpan | services/docreader/src/parser/base_parser.py:848-886 | the carried units of a chunk are a suffix of its predecessor of size at most min(overlap, predecessor size), not starting with an all-separator unit |
| Chunker.CarriedOverlap | services/docreader/src/parser/base_parser.py:848-894 | the overlap between consecutive chunks is at most min(overlap, chunk length) characters, and the next chunk starts with exactly that tail of the previous one |
| Chunker.SpanSizeBound | services/docreader/src/parser/base_parser.py:833-902 | units added to a chunk keep it within the size unless it holds one unit |
| Chunker.ChunkSizeBound | services/docreader/src/parser/base_parser.py:833-902 | a chunk is within the size unless it holds a single unit or a single unit past its carried overlap |
| Chunker.NoOverlapSizeBound | services/docreader/src/parser/base_parser.py:833-902 | without overlap, a chunk is within the size unless it is a single unit |
| Chunker.ClosedWhenFull | services/docreader/src/parser/base_parser.py:833 | a chunk is closed only by a unit that would take it past the size, and that unit starts the next chunk's own part |
| Chunker.UnitInChunk | services/docreader/src/parser/base_parser.py:828-921 | every unit lies in some chunk |
| Chunker.ConcatEmptyIff | services/docreader/src/parser/base_parser.py:810-812 | non-empty units concatenate to "" exactly when there are none |
| Chunker.PackedChunks | services/docreader/src/parser/base_parser.py:823-921 | packed chunks are slices of the text, ordered, and run from its start to its end; there are none for an empty text |
| Chunker.UnitSpanInChunk | services/docreader/src/parser/base_parser.py:754-921 | any range inside one unit, a protected structure in particular, lies inside one chunk |
| Chunker.ChunkText | services/docreader/src/parser/base_parser.py:801-921 | the units are those of the separator split around the protected ranges; the chunks are slices of the text, ordered and covering it; with no overlap they tile it exactly; and every non-blank protected structure lies whole inside one chunk |
| Chunker.FindCompleteUnits | services/docreader/src/parser/base_parser.py:769-799 | a prefix of the units, empty only for no units, within the target size when it holds two or more, and stopped only at a unit that would overflow it |
| Chunker.PyPrefix | services/docreader/src/parser/base_parser.py:637 | Python's `s[:n]`: a prefix of length n when 0 <= n <= len, all of `s` when n is larger, and len + n (at least 0) when n is negative |
| Chunker.LimitChunks | services/docreader/src/parser/base_parser.py:632-637 | the first `max_chunks` chunks, all of them when there are no more than that |
| Chunker.LimitKeepsSlices | services/docreader/src/parser/base_parser.py:632-637 | cutting to `max_chunks` keeps the chunks slices of the text and ordered |
| Chunker.Parse | services/docreader/src/parser/base_parser.py:609-675 | a None or non-string text raises; otherwise the text is kept, the chunks are the first `max_chunks` of the packing of the text's units, and images are processed exactly when multimodal is on and the lower-cased extension is one of the allowed types |
| Chunker.OcrLatch.constructor | services/docreader/src/parser/base_parser.py:67-68 | no engine and no failure at first |
| Chunker.OcrLatch.GetOcrEngine | services/docreader/src/parser/base_parser.py:70-95 | while nothing is cached and nothing has failed, the factory is asked and a None answer latches the failure; afterwards the cached engine or None is returned and the factory is left alone |
| Chunker.ExtractImages | services/docreader/src/parser/base_parser.py:923-964 | one record per image match, in order, with the match's position and text, the Markdown URL and alt text or the HTML `src` and an empty alt text |
| TextUnits.ConcatSlice | services/docreader/src/parser/base_parser.py:749-762 | the concatenation of a run of units is the slice of the whole concatenation between their offsets |
| TextUnits.MatchAt | services/docreader/src/parser/base_parser.py:744 | a separator matched at a position is one of the separators and occurs there, and is non-empty when empty matches are not allowed |
| TextUnits.MatchAtFirst | services/docreader/src/parser/base_parser.py:744 | the alternation tries the separators in their listed order: no match exactly when none occurs there, and otherwise the first listed separator that occurs |
| TextUnits.Search | services/docreader/src/parser/base_parser.py:744-763 | a match found at or after a position lies within the text and spells a separator, and it is non-empty when the engine must advance past an empty match at the start |
| TextUnits.SearchLeftmost | services/docreader/src/parser/base_parser.py:744-763 | the search finds the leftmost match: None exactly when the alternation matches nowhere from the position on, and otherwise the match at its position, with no match at any position before it |
| TextUnits.SplitFromConcat | services/docreader/src/parser/base_parser.py:751-763 | the pieces `re.split` returns rebuild the text they were split from |
| TextUnits.SplitFromAlternates | services/docreader/src/parser/base_parser.py:744-751 | with the capturing group, every piece at an odd position is a separator |
| TextUnits.SplitKeepConcat | services/docreader/src/parser/base_parser.py:751-763 | splitting a text and joining the pieces gives the text back |
| TextUnits.GapUnits | services/docreader/src/parser/base_parser.py:751-764 | the non-empty pieces of a split rebuild the split text, and none is empty |
| TextUnits.NonBlank | services/docreader/src/parser/base_parser.py:707-710 | a match is kept exactly when its text has a non-whitespace character, and every kept range is non-empty |
| TextUnits.InsertByStart | services/docreader/src/parser/base_parser.py:713 | inserting into a list sorted by start keeps it sorted and adds exactly that range |
| TextUnits.SortByStart | services/docreader/src/parser/base_parser.py:713 | the ranges sorted by start, as a permutation of the input |
| TextUnits.MergeRanges | services/docreader/src/parser/base_parser.py:720-734 | the loop computes the left-to-right merge of the sorted ranges; the merged ranges are no more than the inputs, empty only for no inputs, non-empty and pairwise apart; every input lies within one of them; each starts and ends where some input does; and no position lies inside a merged range without lying inside an input |
| TextUnits.MergeFromInText | services/docreader/src/parser/base_parser.py:720-734 | merging ranges that lie within the text gives ranges within the text |
| TextUnits.Protected | services/docreader/src/parser/base_parser.py:698-737 | the non-blank matches, sorted by start and merged, lie within the text |
| TextUnits.SameMembers | services/docreader/src/parser/base_parser.py:713 | sorting keeps every range and adds none |
| TextUnits.KeptCovered | services/docreader/src/parser/base_parser.py:713-734 | every kept match lies within a merged range |
| TextUnits.InsideSorted | services/docreader/src/parser/base_parser.py:713 | a position inside a sorted range is inside a kept match |
| TextUnits.ProtectedRanges | services/docreader/src/parser/base_parser.py:698-737 | the result is the merge of the sorted non-blank matches; the protected ranges are non-empty, apart and within the text; every non-blank match lies within one; and they cover no position that no non-blank match covers |
| TextUnits.GapBefore | services/docreader/src/parser/base_parser.py:751-764 | the pieces of the separator split of the text between two offsets rebuild that text and none is empty |
| TextUnits.UnitsAround | services/docreader/src/parser/base_parser.py:740-767 | the units are, range by range, the split pieces of each gap followed by the range's text, then the pieces of the tail; they rebuild the text, none is empty, and each protected range is exactly one unit at its own offset |
| TextUnits.SplitIntoUnits | services/docreader/src/parser/base_parser.py:677-767 | the units are the separator split around the protected ranges of the matches; they rebuild the text, none is empty, and every non-blank protected match lies inside a single unit |
| TextUnits.UnitsWithoutMatches | services/docreader/src/parser/base_parser.py:740-767 | with no protected match, the units of a non-empty text are the non-empty pieces of its separator split, and of an empty text none |
| ParserRegistry.GetParser | services/docreader/src/parser/parser.py:60-76 | a parser is found iff the lower-cased type is a registered name, and it is the class registered for it |
| ParserRegistry.GetParserCaseInsensitive | services/docreader/src/parser/parser.py:70-71 | types equal after lower-casing get the same parser |
| ParserRegistry.RegisteredNames | services/docreader/src/parser/parser.py:38-52 | the registered names are exactly the seven image extensions and md, markdown, docx, doc, pdf, txt |
| ParserRegistry.ImageTypesSelectImageParser | services/docreader/src/parser/parser.py:44-71 | the image parser is chosen iff the lower-cased type is jpg, jpeg, png, gif, bmp, tiff or webp |
| ParserRegistry.MarkdownNames | services/docreader/src/parser/parser.py:42-71 | the Markdown parser is chosen iff the lower-cased type is "md" or "markdown" |
| ParserRegistry.MarkdownEntries | services/docreader/src/parser/parser.py:38-52 | the registry's Markdown entries are exactly "md" and "markdown" |
| ParserRegistry.UnknownTypeHasNoParser | services/docreader/src/parser/parser.py:71-76 | no parser is found iff the lower-cased type is none of the thirteen registered names |
| ParserRegistry.UpperCasePdf | services/docreader/src/parser/parser.py:41-71 | "PDF" selects the PDF parser |
| ParserRegistry.ParseFile | services/docreader/src/parser/parser.py:105-148 | None for an unsupported type and when the parser raises; a result is returned only when the type's parser returned it |
| ParserRegistry.ParseUrl | services/docreader/src/parser/parser.py:170-205 | None when the web parser raises, else its result, None included |
| WebParser.ChooseTitle | services/docreader/src/parser/web_parser.py:95-110 | a non-empty provided title is used as is; otherwise a non-empty `<title>` string; the title is "" only when none was provided and the first `<h1>` has empty text |
| WebParser.TitleFallback | services/docreader/src/parser/web_parser.py:103-110 | without a usable `<title>`, the title is the first `<h1>`'s text, or "Untitled Web Page" when there is no `<h1>` |
| WebParser.StrippedLines | services/docreader/src/parser/web_parser.py:114 | the normalised lines are no more than the page's lines |
| WebParser.StrippedLinesClean | services/docreader/src/parser/web_parser.py:114 | every kept line is non-empty, has no line break and no whitespace at either end |
| WebParser.StrippedLinesOfClean | services/docreader/src/parser/web_parser.py:114 | lines that are already clean pass through unchanged |
| WebParser.SplitLinesOfJoin | services/docreader/src/parser/web_parser.py:113-114 | `splitlines` undoes the "\n"-join of non-empty lines without breaks |
| WebParser.BodyLines | services/docreader/src/parser/web_parser.py:113-115 | the lines of the rebuilt body are exactly the page's stripped non-blank lines, and none is empty or padded |
| WebParser.NormaliseBodyIdempotent | services/docreader/src/parser/web_parser.py:113-115 | normalising an already normalised body changes nothing |
| WebParser.ParseIntoText | services/docreader/src/parser/web_parser.py:77-125 | the title, a blank line and the normalised body; when scraping or decoding raised, "Error parsing web page: " and the message |
| WebParser.EmptyPageResult | services/docreader/src/parser/web_parser.py:60-117 | the empty page returned after a failed navigation gives "Untitled Web Page\n\n" |
| Utils.StopIndex | services/docreader/src/utils/__init__.py:51-78 | the reading loop stops at the end of the file, at the read that raises, or (in `findMaxTm`) at the first line `int()` rejects, and never before the current line |
| Utils.LexTotal | services/docreader/src/utils/__init__.py:58 | Python's `<` on strings orders any two different strings one way or the other |
| Utils.LexTrans | services/docreader/src/utils/__init__.py:58 | Python's `<` on strings is transitive |
| Utils.LexAsym | services/docreader/src/utils/__init__.py:58 | Python's `<` on strings is asymmetric |
| Utils.LexIrreflexive | services/docreader/src/utils/__init__.py:58 | no string is below itself |
| Utils.RunningMaxDtIsMaximum | services/docreader/src/utils/__init__.py:52-59 | the running maximum is at least the start and every stripped non-"nan" line, and is one of them |
| Utils.MaxDtIsMaximum | services/docreader/src/utils/__init__.py:47-59 | the result is the lexicographic maximum of "1970-01-01 00:00:00" and every stripped non-"nan" line, and is one of them |
| Utils.FindMaxDt | services/docreader/src/utils/__init__.py:46-63 | the loop returns the maximum over exactly the lines read before the end of the file or the failing read |
| Utils.ParseIntToStr | services/docreader/src/utils/__init__.py:78 | `int(str(n)) == n` for every integer, so the line reader and the decimal printer agree |
| Utils.BeforeStop | services/docreader/src/utils/__init__.py:72-78 | every line before the stopping point was read, is not the end of the file, and is one `int()` accepts |
| Utils.RunningMaxIsMaximum | services/docreader/src/utils/__init__.py:75-79 | the running maximum is at least the start and every integer line, and is one of them |
| Utils.MaxTmIsMaximum | services/docreader/src/utils/__init__.py:67-79 | the result is the maximum of 0 and every non-"nan" line's integer value, and is one of them |
| Utils.FindMaxTm | services/docreader/src/utils/__init__.py:66-83 | the loop returns the maximum over exactly the lines read before the end of the file, the failing read or the first non-integer line |
| Utils.FindMaxTmNonNegative | services/docreader/src/utils/__init__.py:67-79 | `findMaxTm` never returns a negative value |
| Utils.Instance.constructor | services/docreader/src/utils/__init__.py:32 | the instance records the key it was built for |
| Utils.SingletonWrapper.constructor | services/docreader/src/utils/__init__.py:25-26 | a new wrapper starts with an empty cache and nothing built |
| Utils.SingletonWrapper.Call | services/docreader/src/utils/__init__.py:28-35 | a cached key returns its instance and changes nothing; a new key builds one fresh instance and caches it; the cache always holds the returned object |
| Utils.CallTwice | services/docreader/src/utils/__init__.py:28-35 | two calls in one process return the same object and build at most one |
| Utils.GlueAfterDeletes | services/docreader/src/utils/__init__.py:42 | the first substitution only deletes spaces |
| Utils.GlueBeforeDeletes | services/docreader/src/utils/__init__.py:43 | the second substitution only deletes spaces |
| Utils.SpacesDeletedShape | services/docreader/src/utils/__init__.py:40-43 | deleting spaces never lengthens a string and keeps its other characters in order |
| Utils.RmSpaceDeletesSpaces | services/docreader/src/utils/__init__.py:40-43 | `rmSpace` only deletes spaces: its result is no longer and has the same non-space characters in the same order |
| Utils.RmSpaceJoinsCjk | services/docreader/src/utils/__init__.py:42-43 | the space between two CJK characters is removed |
| Utils.RmSpaceKeepsWordGap | services/docreader/src/utils/__init__.py:42-43 | the space between two ASCII words is kept |
| Utils.RmSpaceKeepsDotlessGap | services/docreader/src/utils/__init__.py:42-43 | a dotless ı counts as a word character, so the space between it and a following word is kept |
| DocxPages.BreaksMono | services/docreader/src/parser/docx_parser.py:408-410 | the page counter never decreases along the paragraphs |
| DocxPages.OnPageMembers | services/docreader/src/parser/docx_parser.py:380-382 | the paragraphs listed for a page are exactly those scanned while the counter stood at that page, in increasing order |
| DocxPages.Reached | services/docreader/src/parser/docx_parser.py:380-415 | the scan stops no earlier than where it starts and no later than the last paragraph |
| DocxPages.ScanResult | services/docreader/src/parser/docx_parser.py:426-431 | the scanned map with its empty pages removed is the standard mapping |
| DocxPages.MapByBreaks | services/docreader/src/parser/docx_parser.py:334-442 | the standard scan yields exactly the standard mapping: each page that got a paragraph before the scan passed `max_page`, with its paragraphs, and page 0 with all paragraphs when nothing remains |
| DocxPages.FallbackMapping | services/docreader/src/parser/docx_parser.py:439-442 | an empty map after removing empty pages means the document has no paragraphs or none reached, so page 0 gets the whole paragraph range |
| DocxPages.Interval | services/docreader/src/parser/docx_parser.py:442 | `list(range(lo, hi))`: hi - lo consecutive indices from lo, none when hi <= lo |
| DocxPages.HeuristicReach | services/docreader/src/parser/docx_parser.py:353-359 | the estimate stops no later than the last paragraph |
| DocxPages.MapByEstimate | services/docreader/src/parser/docx_parser.py:346-375 | the heuristic scan yields exactly the heuristic mapping: page `p // 25` holds paragraph p until the first paragraph beyond `max_page`, and page 0 is always present |
| DocxPages.IdentifyMapping | services/docreader/src/parser/docx_parser.py:323-455 | more than 1000 paragraphs give the heuristic mapping, otherwise the standard one |
| DocxPages.ReachedFirst | services/docreader/src/parser/docx_parser.py:380-382 | the scan reaches at least one paragraph exactly when the document has one |
| DocxPages.ReachedPages | services/docreader/src/parser/docx_parser.py:411-415 | every paragraph the scan reaches is on a page no later than `max_page` (0 for a negative limit) |
| DocxPages.StandardMappingShape | services/docreader/src/parser/docx_parser.py:380-431 | every page listed is non-empty (for a document with paragraphs), in increasing order, holds only paragraphs whose break count is that page, and lies between 0 and `max_page` |
| DocxPages.StandardMappingCovers | services/docreader/src/parser/docx_parser.py:380-382 | every paragraph the scan reaches is listed on the page of its break count |
| DocxPages.HeuristicShape | services/docreader/src/parser/docx_parser.py:353-364 | every paragraph mapped heuristically is on page `p // 25`, and no page holds more than 25 paragraphs |
| DocxPages.PagesIn | services/docreader/src/parser/docx_parser.py:589-590 | the pages of the mapping in a range, each once and in increasing order |
| DocxPages.ApplyPageLimit | services/docreader/src/parser/docx_parser.py:565-612 | exactly the mapped pages p with from_page <= p < to_page, in increasing order |
| DocxPages.OptimalWorkers | services/docreader/src/parser/docx_parser.py:675-694 | never more workers than pages; at most cpu_count - 1 without images or with fewer pages than CPUs; exactly cpu_count with images and enough pages; at least 1 when there are pages and CPUs |
| DocxParser.MergeNoAdjacent | services/docreader/src/parser/docx_parser.py:1338-1355 | the content sequence never holds two text entries in a row |
| DocxParser.MergeNoEmpty | services/docreader/src/parser/docx_parser.py:1326-1354 | merging keeps every text entry non-empty |
| DocxParser.MergeTexts | services/docreader/src/parser/docx_parser.py:1329-1355 | merging loses and adds no text: the concatenated texts are unchanged |
| DocxParser.MergePictures | services/docreader/src/parser/docx_parser.py:1344 | merging keeps the pictures and their order |
| DocxParser.PagePiecesNonEmpty | services/docreader/src/parser/docx_parser.py:1325-1329 | a paragraph contributes text only when it is non-blank, and that text is non-empty |
| DocxParser.AddText | services/docreader/src/parser/docx_parser.py:1324-1330 | a non-blank paragraph appends its cleaned text and a newline to the pending text |
| DocxParser.AddParagraph | services/docreader/src/parser/docx_parser.py:1321-1345 | one paragraph extends the content sequence by its text line and then its picture, merged |
| DocxParser.ExtractPageContent | services/docreader/src/parser/docx_parser.py:1280-1377 | the content sequence is the merged pieces of the page's paragraphs (indices past the document skipped); the images are its pictures in order and the text its text entries joined by a blank line |
| DocxParser.SplitContent | services/docreader/src/parser/docx_parser.py:1365-1373 | the text entries and the pictures of the content sequence, each in order |
| DocxParser.PageContentShape | services/docreader/src/parser/docx_parser.py:1306-1377 | the page's content alternates text and pictures, has no empty text, and holds exactly the paragraphs' texts and pictures |
| DocxParser.TextOnlyPage | services/docreader/src/parser/docx_parser.py:1333 | without multimodal processing a page has no pictures and at most one text entry |
| DocxParser.SpanAt | services/docreader/src/parser/docx_parser.py:1033-1039 | the span of a cell is one plus the number of later equal cells in the row, and rendering resumes after the last of them |
| DocxParser.RowCellsHtml | services/docreader/src/parser/docx_parser.py:1030-1045 | the cells of one row rendered as the spanned cells the loop selects |
| DocxParser.ConvertTableToHtml | services/docreader/src/parser/docx_parser.py:1019-1047 | the table's rows rendered, in order, inside one table element |
| DocxParser.SpannedCellsBound | services/docreader/src/parser/docx_parser.py:1032-1039 | a row renders no more cells than it has |
| DocxParser.DistinctRowPlain | services/docreader/src/parser/docx_parser.py:1036-1044 | a row of pairwise different cells renders each cell once, without colspan |
| DocxParser.NonAdjacentSpanDropsCell | services/docreader/src/parser/docx_parser.py:1035-1039 | the row "", "x", "" renders as one cell of span 2 standing for "", "": the "x" is lost |
| DocxParser.MergedCellsExpand | services/docreader/src/parser/docx_parser.py:1032-1044 | the corrected rendering merges only adjacent equal cells, and expanding its spans gives the row back |
| DocxParser.AllImages | services/docreader/src/parser/docx_parser.py:854-878 | every image collected belongs to one of the lines |
| DocxParser.LinksAfterKeys | services/docreader/src/parser/docx_parser.py:879 | every path in the link map is non-empty and exists |
| DocxParser.LinksGrow | services/docreader/src/parser/docx_parser.py:879-905 | the loop never removes a link |
| DocxParser.NewUrlOnce | services/docreader/src/parser/docx_parser.py:879-890 | an image that gets a new URL is linked to it, and no later image with the same path is uploaded |
| DocxParser.LinksAfterWitness | services/docreader/src/parser/docx_parser.py:879-905 | every link is the link of the non-empty URL some image with that path ends up with |
| DocxParser.UploadOne | services/docreader/src/parser/docx_parser.py:878-905 | the image's URL becomes the uploaded URL exactly when its path is set, exists and is not yet linked, it has no URL and the upload returned one, and is otherwise kept; an existing image not yet linked gets a Markdown link of its own or the uploaded URL; a failed upload adds nothing; no other link changes |
| DocxParser.UploadImages | services/docreader/src/parser/docx_parser.py:864-910 | the link map is the one the loop builds over the images in order; each image ends with exactly the URL the loop gives it (an upload only for the first unlinked, existing, URL-less image of its path); every link is the link of a linked image's URL |
| DocxParser.UnlinkedImageOmitted | services/docreader/src/parser/docx_parser.py:924-929 | an image that has no link adds nothing to the rebuilt text |
| DocxParser.LineParts | services/docreader/src/parser/docx_parser.py:919-929 | the parts of a line's content sequence: each text, and each linked image's link |
| DocxParser.RebuiltShape | services/docreader/src/parser/docx_parser.py:912-933 | rebuilding keeps every line and its images in place, replaces its text by the non-empty parts joined by a blank line, and keeps the page number of every line with a content sequence |
| DocxParser.RebuildLines | services/docreader/src/parser/docx_parser.py:912-933 | the rebuilt lines, page numbers carried over from the last line that had a content sequence |
| DocxParser.SortByPage | services/docreader/src/parser/docx_parser.py:938 | sorting by page is a permutation of the lines |
| DocxParser.InsertStable | services/docreader/src/parser/docx_parser.py:938 | inserting a line keeps the order of the lines on each page |
| DocxParser.SortByPageCorrect | services/docreader/src/parser/docx_parser.py:938 | the sort orders the lines by page, is a permutation, and keeps the lines of each page in their original order, as Python's stable sort does |
| DocxParser.AnyImages | services/docreader/src/parser/docx_parser.py:856-862 | true exactly when some line has images |
| DocxParser.ProcessResults | services/docreader/src/parser/docx_parser.py:841-943 | without images the lines are only sorted by page; with images they are rebuilt with the upload links and then sorted; every image ends with exactly the URL the upload loop gives it |
| DocxParser.ImagePartsKeys | services/docreader/src/parser/docx_parser.py:155-158 | the image map has a key exactly for each non-empty image URL, mapped to an image with that URL |
| DocxParser.StrippedNonBlank | services/docreader/src/parser/docx_parser.py:212-234 | the stripped non-blank texts, none of them empty |
| DocxParser.TableLines | services/docreader/src/parser/docx_parser.py:231-238 | a table contributes one non-empty line per row with some non-blank cell |
| DocxParser.TablesLines | services/docreader/src/parser/docx_parser.py:226-238 | the lines of all tables, none of them empty |
| DocxParser.RowTextEmptyIff | services/docreader/src/parser/docx_parser.py:233-236 | a row's line is empty exactly when all its cells are blank |
| DocxParser.StrippedNonBlankEmptyIff | services/docreader/src/parser/docx_parser.py:215-217 | no text is kept exactly when every text is blank |
| DocxParser.SimpleValue | services/docreader/src/parser/docx_parser.py:189-268 | the simple reader always hands back a (text, {}) pair, "" for an unreadable document |
| DocxParser.ParseIntoTextAsWritten | services/docreader/src/parser/docx_parser.py:100-187 | when the page pipeline raises, the value is a pair whose first element is itself a pair |
| DocxParser.RaisedPipelineUnreadable | services/docreader/src/parser/docx_parser.py:183-187 | that value is not a text, so parsing it fails |
| DocxParser.ParseIntoText | services/docreader/src/parser/docx_parser.py:100-187 | corrected (see ## Findings): the value is always a (text, map) pair; a non-empty section text comes with the image map of the lines' images; otherwise, and when the pipeline raises, the simple reader's value |
| DocxParser.SectionTextEmptyIff | services/docreader/src/parser/docx_parser.py:145-173 | the combined text is empty exactly when no line has non-empty text |
| QaDataset.QrelsWithQid | dataset/qa_dataset.py:76 | exactly the qrels whose query id is in the set |
| QaDataset.QrelsWithPid | dataset/qa_dataset.py:80 | exactly the qrels whose passage id is in the set |
| QaDataset.RowsWithId | dataset/qa_dataset.py:96-97 | exactly the rows whose id is in the set |
| QaDataset.DistinctCard | dataset/qa_dataset.py:85 | a list without repeats has as many distinct members as entries |
| QaDataset.SampleSize | dataset/qa_dataset.py:84-85 | min(nq, number of distinct valid query ids) queries are sampled |
| QaDataset.SampleTakesLargest | dataset/qa_dataset.py:84-85 | every sampled query has at least as many valid qrels as any query left out |
| QaDataset.SampleTables | dataset/qa_dataset.py:74-96 | the valid qrels are those whose query and passage both exist; the sampled qrels are the valid ones of sampled queries; the sampled queries are the rows of the sampled ids |
| QaDataset.SampleCorpusCovers | dataset/qa_dataset.py:87-97 | every sampled qrel's passage is in the sampled corpus |
| QaDataset.ToMap | dataset/qa_dataset.py:123-124 | the dictionary has a key for each row id |
| QaDataset.ToMapLastWins | dataset/qa_dataset.py:123-124 | for a repeated id the last row's text is kept |
| QaDataset.PidsOf | dataset/qa_dataset.py:125 | the passages listed for a query, one per qrel of it |
| QaDataset.Texts | dataset/qa_dataset.py:142-144 | the texts of the listed passages the corpus has, no more than the passages |
| QaDataset.GetContextForQid | dataset/qa_dataset.py:127-146 | raises exactly for a query id with no qrels |
| QaDataset.ContextEmptyIff | dataset/qa_dataset.py:140-146 | the context is "" exactly when no listed passage has a text, or the only one has an empty text |
| QaDataset.AnswerQuestion | dataset/qa_dataset.py:148-180 | a ValueError exactly for an unknown query or an empty context; otherwise the reply of the call, or its API error |
| QaDataset.FirstAnswer | dataset/qa_dataset.py:256-280 | the first successful attempt, after failed ones; a ValueError exactly when there is an attempt and the query is not answerable; giving up only after every attempt up to max_retries failed |
| QaDataset.GenerateAppends | dataset/qa_dataset.py:248-269 | existing answers and pairs are kept as a prefix; each new answer gets the next id, is paired with a query of the list that was not processed before, and that query is answerable |
| QaDataset.GenerateAnswersExactly | dataset/qa_dataset.py:248-269 | the run answers exactly the queries before the first one that raises which were not processed and got a reply, once each and in order, each with its reply's text; it ends with an error exactly when such a raising query exists |
| QaDataset.AppendsExactlyCons | dataset/qa_dataset.py:256-269 | one answer followed by the rest of the run is that answer then the rest, seen from before it |
| QaDataset.GenerateWithoutError | dataset/qa_dataset.py:248-269 | a run that ends without an error answers every unprocessed query that got a reply, with that reply's text |
| QaDataset.GenerateRaises | dataset/qa_dataset.py:252-270 | the run raises exactly when max_retries >= 0 and an unprocessed query is not answerable |
| QaDataset.QueryIds | dataset/qa_dataset.py:252 | the ids of the queries, in order |
| QaDataset.GenerateAnswers | dataset/qa_dataset.py:217-285 | the answers, pairs and any raised error are those of the answer-generation fold over the queries, starting from the existing ones and skipping processed ids |
| PyStr.LStrip | services/docreader/src/parser/web_parser.py:114 | the longest suffix that does not start with whitespace; everything removed is whitespace |
| PyStr.RStrip | services/docreader/src/parser/web_parser.py:114 | the longest prefix that does not end with whitespace; everything removed is whitespace |
| PyStr.StripNonEmptyIff | services/docreader/src/parser/ocr_engine.py:137-140 | a stripped string is non-empty exactly when the string has a non-whitespace character |
| PyStr.StripShape | services/docreader/src/parser/web_parser.py:114 | a stripped string is empty or has no whitespace at either end, and occurs in the original |
| PyStr.StripFixed | services/docreader/src/parser/web_parser.py:114 | stripping a string with no whitespace at either end leaves it unchanged |
| PyStr.StripChar | services/docreader/src/parser/storage.py:211-218 | `strip("/")` leaves a string that neither starts nor ends with "/", no longer than the input |
| PyStr.RFind | services/docreader/src/parser/storage.py:138 | the last position of the character, or -1 when it does not occur |
| PyStr.Basename | services/docreader/src/parser/storage.py:138 | the part of the path after its last "/", which holds no "/" |
| PyStr.SplitExt | services/docreader/src/parser/storage.py:140 | the root and the extension rebuild the path; the extension is empty or a single dot followed by no dot and no "/" |
| PyStr.ConcatAppend | services/docreader/src/parser/base_parser.py:834-909 | joining two lists of parts with "" is joining each and concatenating |
| PyStr.JoinEmptyIff | services/docreader/src/parser/docx_parser.py:170-173 | joining non-empty parts gives "" exactly when there are none |
| PyStr.ConcatNonEmpty | services/docreader/src/parser/docx_parser.py:932 | dropping empty parts does not change their concatenation |
| PyStr.Split | services/docreader/src/utils/request.py:96 | `str.split(c)`: at least one piece, none containing the separator |
| PyStr.JoinSplit | services/docreader/src/utils/request.py:96 | joining the pieces of a split by the separator gives the string back |
| PyStr.SplitJoin | services/docreader/src/utils/request.py:96 | splitting the join of pieces free of the separator gives the pieces back |
| PyStr.ReplaceChar | services/docreader/src/parser/docx_parser.py:1328 | after replacing every occurrence by a text without the character, it no longer occurs; a string without it is unchanged |
| PyStr.SplitLines | services/docreader/src/parser/web_parser.py:113 | `str.splitlines()`: no line holds a line break |
| PyStr.Lower | services/docreader/src/parser/parser.py:70 | same length, each character lowered |
| PyStr.LowerIdempotent | services/docreader/src/parser/parser.py:70 | lowering twice is lowering once |
| PyStr.NatToStr | services/docreader/src/parser/docx_parser.py:1043 | the decimal digits of a natural number, at least one |
| PyStr.IntToStr | services/docreader/src/utils/request.py:107-113 | the decimal rendering of an integer is never empty |

## Left out

- Network I/O enters as success/failure outcomes or oracle parameters. This covers the MinerU health probe and POST, the VLM/Ollama/OpenAI calls, the Playwright scrape, the COS and MinIO client calls, and the image download and upload in `download_and_upload_image`.
- The MCP REST client and tool dispatcher are a thin HTTP wrapper and are not part of this model.
- Foreign libraries enter as data:
  - pdfplumber's `find_tables`/`filter`/`extract_text`/`extract` give table bboxes, grids, positioned objects and text;
  - python-docx XML is abstract paragraph records;
  - PIL decoding and `base64.b64decode` are outcomes.
- The regex engine is not modelled. Protected-structure matches and image-reference matches arrive as lists of ranges. The separator split on literal separators is modelled exactly.
- Concurrency is not modelled: the `ProcessPoolExecutor`/`Manager` fan-out, the `as_completed` order, the asyncio image pipeline (`process_chunks_images` and its semaphore and `gather`) and the gRPC thread pool. Worker results arrive as a list in any order, and the reassembly sorts them as the code does.
- Floats are not modelled: image scaling, the float sizes in `_safe_concat_images`, and rerank scores. PDF coordinates are Dafny reals, so the vertical-centre band test is exact where Python compares floats. Elapsed time is an integer number of milliseconds given as a parameter, and so are `time.time()` readings.
- Filesystem work is not modelled: temporary files and directories, `doc_parser.py` subprocesses, `read_text_with_fallback` and `image_utils.py`.
- The `decode_bytes` codec cascade is left out because it depends on Python codecs. `text_parser.py`, `markdown_parser.py` and `image_parser.py` only wrap calls that are left out.
- Logging configuration and packaging entry points are left out; they hold no logic to state.
- Random `extra_pids` sampling and the pandas tie order of the most frequent qids are inputs to `QaDataset`.
- `PyStr.Lower` is ASCII A–Z plus U+212A (Kelvin sign) → `k`; other Unicode case mappings are left out. Every comparison the core makes is against an ASCII constant, and for those this lowering gives the same answers as Python's. The case-insensitive class `[a-z0-9]` of `rmSpace` is not a comparison of that kind; `Utils.IsWordChar` states it on its own, including the three non-ASCII letters the regular-expression engine folds onto `i` and `s`.
- `int()` in `findMaxTm` (Utils.ParseInt) is modelled as surrounding whitespace, an optional sign and ASCII decimal digits. Python also accepts underscores between digits and non-ASCII decimal digits; a line using those is treated as raising, so the running maximum stops there.
- PdfParser.ConvertTableToMarkdown: no parse-back round trip is claimed, since a `|` inside a cell is not escaped.
- DocxParser.UploadImages and DocxParser.ProcessResults require the images to be distinct objects. Aliasing of one `ImageData` by two lines is not modelled; the source creates each image afresh (services/docreader/src/parser/docx_parser.py:1205-1208).
- Chunker.FindCompleteUnits: the size bound is stated only when the returned prefix has at least two units, because the first unit is always taken whatever its size.

## Findings

| source | as written | input that shows it | evidently intended | confidence | as-written member | corrected member |
|---|---|---|---|---|---|---|
| services/docreader/src/parser/docx_parser.py:1032-1044 | the colspan of a cell counts every later cell in the row with the same text, adjacent or not, and scanning resumes after the last of them | the row `["", "x", ""]` renders as one `<td colspan='2'></td>`, so the cell `x` is lost | only a run of adjacent equal cells merges into one spanned cell | not executed | DocxParser.NonAdjacentSpanDropsCell | DocxParser.MergedCellsExpand |
| services/docreader/src/parser/docx_parser.py:183-187 | when the pipeline raises, the handler returns `fallback_text, {}` where `fallback_text` is already the `(text, {})` pair returned by `_parse_using_simple_method` | any document whose DOCX pipeline raises: the result is `((text, {}), {})`, and the text handed to chunking is a tuple | return the fallback's `(text, images)` pair itself | not executed | DocxParser.ParseIntoTextAsWritten | DocxParser.ParseIntoText |
