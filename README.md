# langchain-ChatGLM API service: document store, streaming chat and reply formatting

This project models the decision logic of the langchain-ChatGLM HTTP/WebSocket
service (`api.py`) in Dafny and proves properties of it. The filesystem, the
answer engine and the transport are abstract:

- **Document store** (`document_store.dfy`, module `DocumentStore`). The class
  `DocStore` holds the upload root as a map from knowledge-base id to a folder.
  A folder maps file names to bytes. A separate set records the ids whose vector
  index exists. The path helpers `get_folder_path`, `get_vs_path` and
  `get_file_path` are these keys. The methods model `single_upload_file`,
  `upload_file`, `list_docs` and `delete_docs`. Each states the response code and
  message, the new store, and which indexing call was made. The engine's two
  indexing calls (`init_knowledge_vector_store`, `add_files_to_knowledge_vector_store`)
  are function values. Each returns the files it loaded, a subset of those it was
  given. The batch upload's effect is also stated as pure functions
  (`BatchFolder`, `BatchQueue`), and lemmas about them prove it only appends.
  With distinct names, a batch acts like independent uploads. A repeated file is
  judged against what the batch has just written.
- **Conversation** (`streaming.dfy`, module `Streaming`). `stream_chat` runs as
  a loop over the questions a client sends. Each turn is a loop over the
  engine's accumulated partial answers, and it sends only the new suffix of
  each. The lemmas prove two things. The suffixes reassemble the final answer
  when each partial extends the last. Turns are numbered 1, 2, … with matching
  start and end markers. The single-shot `chat` returns what a streaming turn
  delivers.
- **Source citations** (`citations.dfy`, module `SourceCitations`). This module
  builds the "出处 [n] basename：…相关度：…" strings. The proofs show that there
  is one entry per retrieved document, in order, and that the ordinal read back
  from entry i is i + 1.
- **Reply content** (`feishu_reply.dfy`, module `FeishuReply`). This module
  builds the `{"text":"…"}` content posted back to the chat platform. It is read
  back with a JSON string-body reader following section 7 of RFC 8259.

`common.dfy` holds `Option` and Python's `str.join`.

## Model

| member | source | states |
|---|---|---|
| DocumentStore.DocStore.SingleUpload | api.py:96-123 | Duplicate (same name, same byte length): the store is unchanged, no index call is made, and the reply is 200 "already exists". Otherwise the file's bytes are replaced by the upload. The call is an extend if the knowledge base has an index, else a build. The reply is 200 with the matching message exactly when the call loaded a file, else 500; the written file stays. A successful build registers the index. |
| DocumentStore.DocStore.WriteBatch | api.py:132-144 | The batch's write loop creates the folder if missing. The folder becomes `BatchFolder` of the old one, the collected names are `BatchQueue`, and the index set is untouched. |
| DocumentStore.DocStore.Upload | api.py:132-151 | The folder becomes `BatchFolder` of the old folder, with each file appended unless it duplicates what the batch has left so far. The index build receives exactly `BatchQueue`; with an empty queue there is no call. The reply is 200 naming the loaded files exactly when some were loaded, else 500. Every name reported was uploaded in the batch. |
| DocumentStore.DocStore.ListDocs | api.py:157-177 | A non-empty id without a folder gives code 1 "not found". An existing id lists each of its files exactly once. No id (the empty string counts as none) lists each knowledge-base id exactly once. |
| DocumentStore.DocStore.DeleteDocs | api.py:188-206 | An unknown knowledge base or document gives code 1 and changes nothing. With no document name, the folder is removed and the index set is untouched. With a name, only that file is removed. The knowledge base is then torn down if nothing remains; otherwise a build is called with an enumeration of exactly the remaining files. This is the corrected rule; see Findings. |
| DocumentStore.DocStore.DeleteDocsAsWritten | api.py:188-206 | The handler as written. Deleting a named, existing document removes that file, then fails at the subscript of the listing object: the reply is a 500 server error, nothing else in the folder changes, and no index call is made. Unknown ids and documents give code 1 as in the corrected rule; without a name the folder is removed. |
| DocumentStore.UploadSameFileTwice | api.py:103-108 | Sending the same file twice to the single upload: the second call answers "already exists", makes no index call, and leaves the folders and the index set as the first call left them. |
| DocumentStore.BatchKeys | api.py:136-144 | After a batch upload the folder holds exactly its old names plus the uploaded names. |
| DocumentStore.BatchOnlyAppends | api.py:136-144 | A batch upload only appends: every old file's bytes are a prefix of its new bytes, and files not uploaded are untouched. |
| DocumentStore.BatchQueueEmpty | api.py:140-145 | A batch that passes nothing to indexing (every file a duplicate) leaves the folder unchanged. |
| DocumentStore.BatchFront | api.py:138-144 | Read front to back, a batch judges its first file against the folder as it was; if that file is not a duplicate it is appended ("ab+") and its name heads the queue. The rest of the batch then runs on the folder that file left. |
| DocumentStore.BatchQueueFromUploads | api.py:135-146 | The list passed to indexing has at most one entry per file sent, and each entry names an uploaded file. |
| DocumentStore.BatchOfDistinctNames | api.py:136-146 | With pairwise distinct names, the queue is exactly the non-duplicates judged against the folder before the batch, in upload order. Each non-duplicate's new bytes are its old bytes followed by the upload; each duplicate keeps its old bytes. |
| DocumentStore.FileSentTwiceInBatch | api.py:138-144 | A file sent twice in one batch is queued as often as when sent once exactly when the folder had no such file, an empty one, or one of the same length (in the last case it is not queued at all). In those cases the batch's folder equals sending it once. |
| DocumentStore.ListDir | api.py:161-175 | The directory listing names every entry exactly once, in an order left open. |
| DocumentStore.AsWrittenAlwaysTearsDown | api.py:197-199 | The second defect, hidden behind the failing subscript: for every successful listing (code 200), the teardown test as written holds. The intended test holds exactly when the listing is empty. |
| DocumentStore.AsWrittenDeletesRemainingDocument | api.py:197-203 | Witness for the second defect: a listing of 200 with ["b.txt"] still remaining would be torn down by the test as written, but not by the intended test. |
| SourceCitations.BasenameIsLastComponent | api.py:233 | `Basename` of a path has no '/'. It is a suffix of the path, preceded by a '/' when shorter than the path: everything after the last '/'. |
| SourceCitations.Decimal | api.py:233 | The ordinal's text is non-empty decimal digits with no leading zero. |
| SourceCitations.DecimalValue | api.py:233 | Reading the decimal text of n back as digits gives n. |
| SourceCitations.CitationsFromEntries | api.py:232-236 | One citation per document, in order; entry i is the citation of document i with ordinal start + i. |
| SourceCitations.CitationOrdinal | api.py:233 | The ordinal read back from a citation is the one it was made with. |
| SourceCitations.CitationsNumbered | api.py:287-291 | The citation list has one entry per source document. Entry i carries ordinal i + 1, the basename of document i's source, its excerpt and its score. |
| Streaming.DeltasReassemble | api.py:280-285 | When each partial answer extends the previous one, the text frames sent from `last_print_len` on concatenate to the final answer from that position: no gap, no repetition. |
| Streaming.TurnMarkers | api.py:278-303 | A turn has exactly one start and one end marker, both carrying its question and turn number. |
| Streaming.TurnReassembles | api.py:278-303 | One turn transmits exactly the final answer. Its start and end frames carry the same question and turn number. |
| Streaming.SessionTurns | api.py:274-304 | A session's start markers carry the questions in arrival order, question k as turn k + 1, so numbers rise by one per turn. The end markers carry the same list. |
| Streaming.StreamTurn | api.py:278-304 | The loop with `last_print_len` reset to 0 sends `TurnFrames`: the start frame, one suffix per partial answer, then the end frame with the citations. By `TurnReassembles`, with extending partials the text sent is the final answer. |
| Streaming.StreamChat | api.py:265-304 | A knowledge base without an index gets only the not-found frame. Otherwise the frames are `SessionFrames` from the first question: turns numbered from 1, each answered with the history the previous turn returned. |
| Streaming.Chat | api.py:222-243 | Without the index the handler raises and there is no answer. With it, the answer carries the question, the last step's text and history, and the citations of the last step's sources. |
| Streaming.ChatSourcesNumbered | api.py:232-236 | The single-shot answer cites each source document of the last step once, in order, numbered from 1. |
| Streaming.ChatMatchesStreamTurn | api.py:228-243 | The single-shot chat answers with the text a streaming turn for the same question transmits, and with the citations of that turn's end frame. |
| FeishuReply.EscapeNewlines | api.py:345 | Replacing newlines leaves no newline, and the text grows by one character per newline. |
| FeishuReply.ReplyContent | api.py:345 | The reply content holds no raw newline. |
| FeishuReply.ReplyContentReadsBack | api.py:345 | For an answer without '"', '\\' and control characters other than newline, the content is a JSON object whose `text` reads back as the answer. |
| FeishuReply.ReplyContentMisreads | api.py:345 | Witnesses: the answer `"` gives content that is not valid JSON, and the answer `\n` (backslash, n) reads back as a newline. |
| FeishuReply.JsonEscape | api.py:345 | The corrected string body holds no raw newline. |
| FeishuReply.JsonReplyRoundTrip | api.py:345 | The corrected content holds no raw newline and reads back as the answer, for every answer. |

## Left out

- FastAPI routing, the pydantic response classes, the documentation redirect and startup (`main`, argument parsing, uvicorn). They are framework wiring. The response classes become the `Response` and `ChatMessage` datatypes.
- The answer engine (retrieval, embeddings, the language model) is a parameter. For a question and history it yields a non-empty sequence of steps. The indexing calls return an arbitrary subset of their files.
- WebSocket transport (accept, receive, send, close) and JSON framing of the frames. A session is the list of questions a client sends before closing. Frames are a datatype.
- Files in a folder are the only entries, and knowledge-base folders are the only entries of the upload root. So the "regular file" and "directory" filters of `list_docs` keep everything. Stray files and subdirectories placed by hand are not modelled.
- DocumentStore.DocStore.ListDocs: an absent upload root and an empty one both list as `[]`. The model has no separate "root absent" state.
- DocumentStore.DocStore.DeleteDocs: the corrected rule reads `remain_docs["code"]` and `remain_docs["data"]` as the listing's code and data fields. As written the subscript raises on the response object (see Findings and `DeleteDocsAsWritten`).
- DocumentStore.DocStore.DeleteDocs: the rebuild passes the folder path where a file list is expected. The model passes the enumeration of the remaining files to the abstract build.
- DocumentStore.DocStore.WriteBatch: the appended bytes are stored in the folder map once, after the loop, rather than file by file. Nothing reads the folder in between, so the resulting store is the same.
- The batch upload's indexing call is not awaited, yet its result is used. The model treats it as returning its loaded list.
- Path quirks of `os.path.join` (absolute ids, `..`, names holding '/') and filesystem errors from creating or removing directories. Ids and file names are plain map keys.
- Empty knowledge-base ids on the form endpoints (upload, single upload, delete) are rejected by the framework before the handler runs; hence `requires kb != ""`.
- `no_knowledge_chat` runs the engine and discards the result, so it returns nothing. Its loop has no observable effect to model.
- The `chat` and webhook handlers read a fixed index path rather than one derived from the id. `Chat` takes the existence of that index as a boolean.
- The webhook's parsing of the incoming event, the authentication request and its credentials, the outgoing post, and the fire-and-forget background task. Only the reply content string is modelled.
- Relevance scores are floats in the service; they are kept as opaque text in citations.
- DocumentStore.IndexAfter: the engine is assumed to save an index for a knowledge base exactly when a build loads at least one file; a build that loads nothing leaves no index, and an extend never creates one. The engine's storage is not modelled.
- Concurrency between handlers: the model is sequential.
- FeishuReply.DecodeBody refuses `\u` escapes naming surrogate code points, because Dafny characters are Unicode scalar values. Neither encoder produces them.

## Findings

| source | as written | input that shows it | evidently intended | confidence | as-written member | corrected member |
|---|---|---|---|---|---|---|
| api.py:193-203 | After removing the named file, the handler subscripts the listing like a dictionary. For an existing knowledge base the listing is a response object without item access, so the handler raises there. Behind that, a second defect: the test tears down unless the code is 0, while successful listings carry 200 (api.py:27, 166), so every named delete would remove the whole folder. | A folder with `a.txt` and `b.txt`; delete `a.txt`. `a.txt` is removed, then the handler fails with a server error; `b.txt` stays and no index is rebuilt. Were the listing read, it is 200 with `["b.txt"]` and the test as written would remove `b.txt` too. | Read the listing's fields; tear down only when the listing failed or is empty; otherwise rebuild the index from the remaining files. | not executed | DocumentStore.DocStore.DeleteDocsAsWritten, DocumentStore.AsWrittenDeletesRemainingDocument | DocumentStore.DocStore.DeleteDocs |
| api.py:345 | The reply content is built by hand, escaping only newlines. A '"' or '\\' in the answer yields invalid JSON or a different text. | The answer `"` gives `{"text":"""}`, which is not valid JSON. The answer `\n` (backslash, n) reads back as a newline. | Encode the answer as a JSON string, so the content's `text` is the answer. | not executed | FeishuReply.ReplyContentMisreads | FeishuReply.JsonReplyRoundTrip |
