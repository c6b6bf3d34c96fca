/**
 * The knowledge-base document store and the index decisions around it:
 * single-file upload (overwrite), batch upload (append), listing and
 * deletion, each with the response code and message the service returns.
 *
 * The upload root is a map from knowledge-base id to its folder, a folder a
 * map from file name to the bytes on disk; `get_folder_path` and
 * `get_file_path` become these two keys. The vector-store root is the set
 * of ids whose index exists. The engine's two indexing calls are function
 * values that report which of the given files they loaded.
 */
module DocumentStore {
  import opened Common

  newtype byte = x: int | 0 <= x < 256
  type Bytes = seq<byte>
  type KbId = string
  type FileName = string

  /** The files in one knowledge base's upload folder. */
  type Folder = map<FileName, Bytes>

  /** A file in an upload request: its name and its bytes. */
  datatype UploadedFile = UploadedFile(name: FileName, content: Bytes)

  const SUCCESS: int := 200
  const NOT_FOUND: int := 1
  const FAILURE: int := 500

  datatype Message =
    | Success
    | AlreadyExists(name: FileName)
    | LoadedIntoExisting(name: FileName)
    | LoadedIntoNew(name: FileName)
    | UploadFailed
    | BatchLoaded(names: seq<FileName>)
    | BatchFailed
    | KbNotFound(kb: KbId)
    | DocNotFound(doc: FileName)
    | ServerError   // an exception escaped the handler; the framework answers 500
  {
    /** The message text the service sends. */
    function Text(): string {
      match this
      case Success => "success"
      case AlreadyExists(name) => "文件 " + name + " 已存在。"
      case LoadedIntoExisting(name) => "文件 " + name + " 已上传并已加载知识库，请开始提问。"
      case LoadedIntoNew(name) => "文件 " + name + " 已上传至新的知识库，并已加载知识库，请开始提问。"
      case UploadFailed => "文件上传失败，请重新上传"
      case BatchLoaded(names) => "已上传 " + Join("、", names) + " 至知识库，并已加载知识库，请开始提问"
      case BatchFailed => "文件未成功加载，请重新上传文件"
      case KbNotFound(kb) => "Knowledge base " + kb + " not found"
      case DocNotFound(doc) => "document " + doc + " not found"
      case ServerError => "Internal Server Error"
    }
  }

  /** A response: status code, message and, for listings, the names listed. */
  datatype Response = Response(code: int, msg: Message, data: Option<seq<string>>)

  /** Which indexing call an operation made, and with which files. */
  datatype IndexCall =
    | NoCall
    | Build(kb: KbId, files: seq<FileName>)   // init_knowledge_vector_store
    | Extend(kb: KbId, files: seq<FileName>)  // add_files_to_knowledge_vector_store

  /** The engine's two indexing calls; each returns the files it loaded. */
  datatype Indexer = Indexer(
    build: (KbId, seq<FileName>) -> seq<FileName>,
    extend: (KbId, seq<FileName>) -> seq<FileName>)
  {
    /** The engine only reports files it was given. */
    ghost predicate Valid() {
      && (forall kb, files, f :: f in build(kb, files) ==> f in files)
      && (forall kb, files, f :: f in extend(kb, files) ==> f in files)
    }
  }

  /** What the engine reports for `call`. */
  function Loaded(ix: Indexer, call: IndexCall): seq<FileName> {
    match call
    case NoCall => []
    case Build(kb, files) => ix.build(kb, files)
    case Extend(kb, files) => ix.extend(kb, files)
  }

  /** A build that loads at least one file saves an index for its knowledge base. */
  function IndexAfter(indexed: set<KbId>, call: IndexCall, loaded: seq<FileName>): set<KbId> {
    if call.Build? && loaded != [] then indexed + {call.kb} else indexed
  }

  /** The folder of `kb`, empty when it does not exist yet. */
  function FolderOf(folders: map<KbId, Folder>, kb: KbId): Folder {
    if kb in folders then folders[kb] else map[]
  }

  /** The duplicate rule: a file of the same name and the same byte length exists. */
  predicate IsDuplicate(folder: Folder, file: UploadedFile) {
    file.name in folder && |folder[file.name]| == |file.content|
  }

  /** Writing in append mode: the new bytes go after what the file holds. */
  function AppendTo(folder: Folder, file: UploadedFile): Folder {
    folder[file.name := (if file.name in folder then folder[file.name] else []) + file.content]
  }

  /** The folder after a batch upload: files are judged and written one after another. */
  function BatchFolder(folder: Folder, files: seq<UploadedFile>): Folder
    decreases |files|
  {
    if files == [] then folder
    else
      var before := BatchFolder(folder, files[..|files| - 1]);
      var file := files[|files| - 1];
      if IsDuplicate(before, file) then before else AppendTo(before, file)
  }

  /** The names a batch upload passes to indexing: those not skipped as duplicates. */
  function BatchQueue(folder: Folder, files: seq<UploadedFile>): seq<FileName>
    decreases |files|
  {
    if files == [] then []
    else
      var before := BatchFolder(folder, files[..|files| - 1]);
      var file := files[|files| - 1];
      BatchQueue(folder, files[..|files| - 1]) + (if IsDuplicate(before, file) then [] else [file.name])
  }

  /** One more file of the batch: judged against, and written to, the folder the earlier ones left. */
  lemma BatchStep(folder: Folder, files: seq<UploadedFile>, i: nat)
    requires i < |files|
    ensures var before := BatchFolder(folder, files[..i]);
      && BatchFolder(folder, files[..i + 1]) ==
           (if IsDuplicate(before, files[i]) then before else AppendTo(before, files[i]))
      && BatchQueue(folder, files[..i + 1]) ==
           BatchQueue(folder, files[..i]) + (if IsDuplicate(before, files[i]) then [] else [files[i].name])
  {
    assert files[..i + 1][..i] == files[..i];
  }

  /** The folder half of `BatchFront`. */
  lemma {:induction false} BatchFolderFront(folder: Folder, file: UploadedFile, rest: seq<UploadedFile>)
    ensures BatchFolder(folder, [file] + rest)
         == BatchFolder(if IsDuplicate(folder, file) then folder else AppendTo(folder, file), rest)
    decreases |rest|
  {
    var all := [file] + rest;
    if rest == [] {
      assert all[..0] == [];
    } else {
      var init := rest[..|rest| - 1];
      BatchFolderFront(folder, file, init);
      assert all[..|all| - 1] == [file] + init;
      assert all[|all| - 1] == rest[|rest| - 1];
    }
  }

  /**
   * The batch read front to back: the first file is judged against the
   * folder as it was, and the rest of the batch runs on what it left.
   */
  lemma {:induction false} BatchFront(folder: Folder, file: UploadedFile, rest: seq<UploadedFile>)
    ensures var next := if IsDuplicate(folder, file) then folder else AppendTo(folder, file);
      && BatchFolder(folder, [file] + rest) == BatchFolder(next, rest)
      && BatchQueue(folder, [file] + rest) ==
           (if IsDuplicate(folder, file) then [] else [file.name]) + BatchQueue(next, rest)
    decreases |rest|
  {
    BatchFolderFront(folder, file, rest);
    var next := if IsDuplicate(folder, file) then folder else AppendTo(folder, file);
    var head := if IsDuplicate(folder, file) then [] else [file.name];
    var all := [file] + rest;
    if rest == [] {
      assert all[..0] == [];
      assert BatchQueue(folder, all) == head;
    } else {
      var init := rest[..|rest| - 1];
      var last := rest[|rest| - 1];
      BatchFront(folder, file, init);
      assert all[..|all| - 1] == [file] + init;
      assert all[|all| - 1] == last;
      var tail := if IsDuplicate(BatchFolder(next, init), last) then [] else [last.name];
      assert BatchQueue(folder, all) == (head + BatchQueue(next, init)) + tail;
      assert BatchQueue(next, rest) == BatchQueue(next, init) + tail;
    }
  }

  function Names(files: seq<UploadedFile>): set<FileName> {
    set i | 0 <= i < |files| :: files[i].name
  }

  /** The names of a batch are those of all but its last file, and the last one's. */
  lemma NamesOfSnoc(files: seq<UploadedFile>)
    requires files != []
    ensures Names(files) == Names(files[..|files| - 1]) + {files[|files| - 1].name}
  {
    var init := files[..|files| - 1];
    forall n | n in Names(files) ensures n in Names(init) + {files[|files| - 1].name} {
      var i :| 0 <= i < |files| && files[i].name == n;
      if i < |files| - 1 {
        assert init[i] == files[i];
      }
    }
    forall n | n in Names(init) ensures n in Names(files) {
      var i :| 0 <= i < |init| && init[i].name == n;
      assert files[i] == init[i];
    }
  }

  /** After a batch upload the folder holds exactly its old names and the uploaded ones. */
  lemma {:induction false} BatchKeys(folder: Folder, files: seq<UploadedFile>)
    ensures BatchFolder(folder, files).Keys == folder.Keys + Names(files)
    decreases |files|
  {
    if files != [] {
      BatchKeys(folder, files[..|files| - 1]);
      NamesOfSnoc(files);
    }
  }

  /**
   * A batch upload only appends: every file's old bytes stay as a prefix of
   * its new bytes, and files not uploaded are untouched.
   */
  lemma {:induction false} BatchOnlyAppends(folder: Folder, files: seq<UploadedFile>)
    ensures forall n :: n in folder ==> n in BatchFolder(folder, files) && folder[n] <= BatchFolder(folder, files)[n]
    ensures forall n :: n in folder && n !in Names(files) ==> BatchFolder(folder, files)[n] == folder[n]
    decreases |files|
  {
    if files != [] {
      var init := files[..|files| - 1];
      var file := files[|files| - 1];
      BatchOnlyAppends(folder, init);
      NamesOfSnoc(files);
      var before := BatchFolder(folder, init);
      if !IsDuplicate(before, file) {
        forall n | n in folder ensures folder[n] <= BatchFolder(folder, files)[n] {
          if n == file.name {
            assert before[n] <= before[n] + file.content;
          }
        }
      }
    }
  }

  /** A batch that queues nothing for indexing leaves the folder as it was. */
  lemma {:induction false} BatchQueueEmpty(folder: Folder, files: seq<UploadedFile>)
    ensures BatchQueue(folder, files) == [] ==> BatchFolder(folder, files) == folder
    decreases |files|
  {
    if files != [] {
      BatchQueueEmpty(folder, files[..|files| - 1]);
    }
  }

  /** Every queued name was uploaded in the batch, and no more names are queued than files sent. */
  lemma {:induction false} BatchQueueFromUploads(folder: Folder, files: seq<UploadedFile>)
    ensures |BatchQueue(folder, files)| <= |files|
    ensures forall n :: n in BatchQueue(folder, files) ==> n in Names(files)
    decreases |files|
  {
    if files != [] {
      var init := files[..|files| - 1];
      BatchQueueFromUploads(folder, init);
      forall n | n in Names(init) ensures n in Names(files) {
        var i :| 0 <= i < |init| && init[i].name == n;
        assert files[i] == init[i];
      }
      assert files[|files| - 1].name in Names(files);
    }
  }

  /** The names of the files that are not duplicates of what `folder` holds, in order. */
  function FreshNames(folder: Folder, files: seq<UploadedFile>): seq<FileName>
    decreases |files|
  {
    if files == [] then []
    else
      var file := files[|files| - 1];
      FreshNames(folder, files[..|files| - 1]) + (if IsDuplicate(folder, file) then [] else [file.name])
  }

  predicate DistinctNames(files: seq<UploadedFile>) {
    forall i, j :: 0 <= i < j < |files| ==> files[i].name != files[j].name
  }

  /**
   * With pairwise different names, a batch behaves like independent
   * uploads: each file is judged against the folder as it was before the
   * batch, the queue lists exactly the non-duplicates in upload order, and
   * each non-duplicate's bytes are appended to what the file held.
   */
  lemma {:induction false} BatchOfDistinctNames(folder: Folder, files: seq<UploadedFile>)
    requires DistinctNames(files)
    ensures BatchQueue(folder, files) == FreshNames(folder, files)
    ensures forall i :: 0 <= i < |files| ==>
      files[i].name in BatchFolder(folder, files) &&
      BatchFolder(folder, files)[files[i].name] ==
        if IsDuplicate(folder, files[i]) then folder[files[i].name]
        else AppendTo(folder, files[i])[files[i].name]
    decreases |files|
  {
    if files != [] {
      var init := files[..|files| - 1];
      var file := files[|files| - 1];
      assert DistinctNames(init);
      BatchOfDistinctNames(folder, init);
      BatchKeys(folder, init);
      BatchOnlyAppends(folder, init);
      forall i | 0 <= i < |init| ensures init[i].name != file.name {
        assert init[i] == files[i];
      }
      assert file.name !in Names(init);
      var before := BatchFolder(folder, init);
      assert file.name in before <==> file.name in folder;
      assert file.name in folder ==> before[file.name] == folder[file.name];
      assert IsDuplicate(before, file) == IsDuplicate(folder, file);
      var after := BatchFolder(folder, files);
      assert after == if IsDuplicate(before, file) then before else AppendTo(before, file);
      forall i | 0 <= i < |files|
        ensures files[i].name in after &&
          after[files[i].name] ==
          if IsDuplicate(folder, files[i]) then folder[files[i].name]
          else AppendTo(folder, files[i])[files[i].name]
      {
        if i < |files| - 1 {
          assert init[i] == files[i];
          assert files[i].name != file.name;
          assert files[i].name in before;
          assert after[files[i].name] == before[files[i].name];
        }
      }
    }
  }

  /**
   * The same file sent twice in one batch: the second copy is judged
   * against what the first just wrote, so it is skipped exactly when the
   * folder held no non-empty copy of another size; then the batch has the
   * effect of sending it once.
   */
  lemma FileSentTwiceInBatch(folder: Folder, file: UploadedFile)
    ensures BatchQueue(folder, [file, file]) == BatchQueue(folder, [file])
      <==> (file.name !in folder || |folder[file.name]| == 0 || |folder[file.name]| == |file.content|)
    ensures (file.name !in folder || |folder[file.name]| == 0 || |folder[file.name]| == |file.content|)
      ==> BatchFolder(folder, [file, file]) == BatchFolder(folder, [file])
  {
    assert [file, file][..1] == [file];
    assert [file][..0] == [];
  }

  /** A directory listing names every entry once. */
  ghost predicate Enumerates(names: seq<string>, entries: set<string>) {
    && (forall i, j :: 0 <= i < j < |names| ==> names[i] != names[j])
    && (forall x :: x in names <==> x in entries)
  }

  /**
   * `os.listdir`: every entry exactly once, in an order the model leaves
   * open (each run of the loop may pick any remaining entry).
   */
  method ListDir(entries: set<string>) returns (names: seq<string>)
    ensures Enumerates(names, entries)
    ensures |names| == |entries|
  {
    names := [];
    var rest := entries;
    while rest != {}
      invariant rest <= entries
      invariant forall x :: x in names <==> x in entries - rest
      invariant forall i, j :: 0 <= i < j < |names| ==> names[i] != names[j]
      invariant |names| + |rest| == |entries|
      decreases rest
    {
      var x :| x in rest;
      names := names + [x];
      rest := rest - {x};
    }
  }

  /**
   * The test after a named document is removed, as written: tear the
   * knowledge base down unless the listing's code is 0 and it is non-empty.
   */
  predicate TearsDownAsWritten(remaining: Response) {
    remaining.code != 0 || remaining.data.None? || |remaining.data.value| == 0
  }

  /** The test as intended: tear down unless the listing succeeded and is non-empty. */
  predicate TearsDown(remaining: Response) {
    remaining.code != SUCCESS || remaining.data.None? || |remaining.data.value| == 0
  }

  /**
   * The teardown test behind the failing subscript. Were the listing read,
   * a successful one carries code 200, never 0, so as written every named
   * delete would tear the knowledge base down, even when documents remain;
   * the intended test tears down exactly when the listing is empty.
   */
  lemma AsWrittenAlwaysTearsDown(remaining: Response)
    requires remaining.code == SUCCESS
    ensures TearsDownAsWritten(remaining)
    ensures TearsDown(remaining) <==> (remaining.data.None? || remaining.data.value == [])
  {
  }

  /** The witness: "b.txt" is still listed after "a.txt" was deleted, and the test as written would remove it too. */
  lemma AsWrittenDeletesRemainingDocument()
    ensures var remaining := Response(SUCCESS, Success, Some(["b.txt"]));
            TearsDownAsWritten(remaining) && !TearsDown(remaining)
  {
  }

  lemma EnumeratesEmpty(names: seq<string>, entries: set<string>)
    requires Enumerates(names, entries)
    ensures names == [] <==> entries == {}
  {
    if names != [] {
      assert names[0] in entries;
    }
  }

  /** The upload folders and the indexes of all knowledge bases. */
  class DocStore {
    var folders: map<KbId, Folder>
    var indexed: set<KbId>

    constructor (folders: map<KbId, Folder>, indexed: set<KbId>)
      ensures this.folders == folders && this.indexed == indexed
    {
      this.folders := folders;
      this.indexed := indexed;
    }

    /**
     * `single_upload_file`. A duplicate changes nothing and makes no index
     * call. Otherwise the file is overwritten with the upload; the index is
     * extended when the knowledge base has one and built otherwise, and the
     * answer is 200 exactly when that call loaded a file (the written file
     * stays either way).
     */
    method SingleUpload(kb: KbId, file: UploadedFile, ix: Indexer) returns (resp: Response, call: IndexCall)
      requires kb != ""
      modifies this
      ensures IsDuplicate(FolderOf(old(folders), kb), file) ==>
        && folders == old(folders) && indexed == old(indexed) && call == NoCall
        && resp == Response(SUCCESS, AlreadyExists(file.name), None)
      ensures !IsDuplicate(FolderOf(old(folders), kb), file) ==>
        && folders == old(folders)[kb := FolderOf(old(folders), kb)[file.name := file.content]]
        && call == (if kb in old(indexed) then Extend(kb, [file.name]) else Build(kb, [file.name]))
        && indexed == IndexAfter(old(indexed), call, Loaded(ix, call))
        && resp == (if Loaded(ix, call) == [] then Response(FAILURE, UploadFailed, None)
                    else if call.Extend? then Response(SUCCESS, LoadedIntoExisting(file.name), None)
                    else Response(SUCCESS, LoadedIntoNew(file.name), None))
    {
      if kb !in folders {
        folders := folders[kb := map[]];
      }
      if IsDuplicate(folders[kb], file) {
        return Response(SUCCESS, AlreadyExists(file.name), None), NoCall;
      }
      folders := folders[kb := folders[kb][file.name := file.content]];
      if kb in indexed {
        call := Extend(kb, [file.name]);
        var added := ix.extend(kb, [file.name]);
        if |added| > 0 {
          return Response(SUCCESS, LoadedIntoExisting(file.name), None), call;
        }
      } else {
        call := Build(kb, [file.name]);
        var loaded := ix.build(kb, [file.name]);
        if |loaded| > 0 {
          indexed := indexed + {kb};
          return Response(SUCCESS, LoadedIntoNew(file.name), None), call;
        }
      }
      resp := Response(FAILURE, UploadFailed, None);
    }

    /**
     * The write loop of `upload_file`: each file is judged against the
     * folder as the batch has left it so far and, unless a duplicate,
     * appended; the names written are collected in order. The loop works
     * on the folder's contents and stores them once at the end (the folder
     * is created when missing); nothing reads the folder in between.
     */
    method WriteBatch(kb: KbId, files: seq<UploadedFile>) returns (queue: seq<FileName>)
      modifies this
      ensures folders == old(folders)[kb := BatchFolder(FolderOf(old(folders), kb), files)]
      ensures queue == BatchQueue(FolderOf(old(folders), kb), files)
      ensures indexed == old(indexed)
    {
      var folder := FolderOf(folders, kb);
      ghost var start := folder;
      queue := [];
      var i := 0;
      while i < |files|
        invariant 0 <= i <= |files|
        invariant folder == BatchFolder(start, files[..i])
        invariant queue == BatchQueue(start, files[..i])
        modifies {}
      {
        var file := files[i];
        BatchStep(start, files, i);
        if !IsDuplicate(folder, file) {
          folder := AppendTo(folder, file);
          queue := queue + [file.name];
        }
        i := i + 1;
      }
      assert files[..|files|] == files;
      folders := folders[kb := folder];
    }

    /**
     * `upload_file`. The batch is written by `WriteBatch`; the names
     * written are built into the index, and the answer is 200 exactly when
     * the engine loaded at least one, naming the loaded files.
     */
    method Upload(kb: KbId, files: seq<UploadedFile>, ix: Indexer) returns (resp: Response, call: IndexCall)
      requires kb != ""
      requires ix.Valid()
      modifies this
      ensures folders == old(folders)[kb := BatchFolder(FolderOf(old(folders), kb), files)]
      ensures var queue := BatchQueue(FolderOf(old(folders), kb), files);
              call == if queue == [] then NoCall else Build(kb, queue)
      ensures indexed == IndexAfter(old(indexed), call, Loaded(ix, call))
      ensures resp == if Loaded(ix, call) == [] then Response(FAILURE, BatchFailed, None)
                      else Response(SUCCESS, BatchLoaded(Loaded(ix, call)), None)
      ensures resp.code == SUCCESS ==> forall n :: n in resp.msg.names ==> n in Names(files)
    {
      var queue := WriteBatch(kb, files);
      BatchQueueFromUploads(FolderOf(old(folders), kb), files);
      call := NoCall;
      if queue != [] {
        call := Build(kb, queue);
        var loaded := ix.build(kb, queue);
        if |loaded| > 0 {
          indexed := indexed + {kb};
          return Response(SUCCESS, BatchLoaded(loaded), None), call;
        }
      }
      resp := Response(FAILURE, BatchFailed, None);
    }

    /**
     * `list_docs`. With an id: not found when its folder is missing,
     * otherwise the names of its files. Without one (the empty string
     * counts as none): the ids of all knowledge bases, which is the empty
     * list when the upload root holds nothing.
     */
    method ListDocs(kb: string) returns (resp: Response)
      ensures kb != "" && kb !in folders ==> resp == Response(NOT_FOUND, KbNotFound(kb), None)
      ensures kb != "" && kb in folders ==>
        && resp.code == SUCCESS && resp.msg == Success && resp.data.Some?
        && Enumerates(resp.data.value, folders[kb].Keys)
      ensures kb == "" ==>
        && resp.code == SUCCESS && resp.msg == Success && resp.data.Some?
        && Enumerates(resp.data.value, folders.Keys)
    {
      if kb != "" {
        if kb !in folders {
          return Response(NOT_FOUND, KbNotFound(kb), None);
        }
        var names := ListDir(folders[kb].Keys);
        resp := Response(SUCCESS, Success, Some(names));
      } else {
        var ids := ListDir(folders.Keys);
        resp := Response(SUCCESS, Success, Some(ids));
      }
    }

    /**
     * `delete_docs`. An unknown knowledge base or document is reported
     * with code 1 and changes nothing. Without a document name the whole
     * folder goes and the index is left alone. With one, that file goes;
     * then the knowledge base is torn down when nothing remains, and
     * otherwise its index is rebuilt from the remaining files (the rule as
     * intended, see `TearsDown`).
     */
    method DeleteDocs(kb: KbId, docName: FileName, ix: Indexer) returns (resp: Response, call: IndexCall)
      requires kb != ""
      modifies this
      ensures kb !in old(folders) ==>
        && resp == Response(NOT_FOUND, KbNotFound(kb), None)
        && folders == old(folders) && indexed == old(indexed) && call == NoCall
      ensures kb in old(folders) && docName == "" ==>
        && resp == Response(SUCCESS, Success, None)
        && folders == old(folders) - {kb} && indexed == old(indexed) && call == NoCall
      ensures kb in old(folders) && docName != "" && docName !in old(folders)[kb] ==>
        && resp == Response(NOT_FOUND, DocNotFound(docName), None)
        && folders == old(folders) && indexed == old(indexed) && call == NoCall
      ensures kb in old(folders) && docName != "" && docName in old(folders)[kb] ==>
        && resp == Response(SUCCESS, Success, None)
        && var remaining := old(folders)[kb] - {docName};
           if remaining == map[] then
             folders == old(folders) - {kb} && indexed == old(indexed) && call == NoCall
           else
             && folders == old(folders)[kb := remaining]
             && call.Build? && call.kb == kb && Enumerates(call.files, remaining.Keys)
             && indexed == IndexAfter(old(indexed), call, Loaded(ix, call))
    {
      if kb !in folders {
        return Response(NOT_FOUND, KbNotFound(kb), None), NoCall;
      }
      call := NoCall;
      if docName != "" {
        if docName in folders[kb] {
          folders := folders[kb := folders[kb] - {docName}];
        } else {
          return Response(NOT_FOUND, DocNotFound(docName), None), NoCall;
        }
        var remaining := ListDocs(kb);
        EnumeratesEmpty(remaining.data.value, folders[kb].Keys);
        if TearsDown(remaining) {
          assert folders[kb] == map[];
          folders := folders - {kb};
        } else {
          var names := ListDir(folders[kb].Keys);
          call := Build(kb, names);
          var loaded := ix.build(kb, names);
          if loaded != [] {
            indexed := indexed + {kb};
          }
        }
      } else {
        folders := folders - {kb};
      }
      resp := Response(SUCCESS, Success, None);
    }
    /**
     * `delete_docs` as written. With a document name, the file is removed and
     * then the listing is subscripted like a dictionary. For an existing
     * knowledge base `list_docs` answers with a response object, which has no
     * item access, so the handler raises there: the named file is gone,
     * nothing else changes, no index call is made and the client gets a
     * server error. The teardown test behind the subscript
     * (`TearsDownAsWritten`) is a second defect that this one hides.
     */
    method DeleteDocsAsWritten(kb: KbId, docName: FileName) returns (resp: Response, call: IndexCall)
      requires kb != ""
      modifies this
      ensures kb !in old(folders) ==>
        && resp == Response(NOT_FOUND, KbNotFound(kb), None)
        && folders == old(folders) && call == NoCall
      ensures kb in old(folders) && docName != "" && docName !in old(folders)[kb] ==>
        && resp == Response(NOT_FOUND, DocNotFound(docName), None)
        && folders == old(folders) && call == NoCall
      ensures kb in old(folders) && docName != "" && docName in old(folders)[kb] ==>
        && resp == Response(FAILURE, ServerError, None)
        && folders == old(folders)[kb := old(folders)[kb] - {docName}] && call == NoCall
      ensures kb in old(folders) && docName == "" ==>
        && resp == Response(SUCCESS, Success, None)
        && folders == old(folders) - {kb} && call == NoCall
      ensures indexed == old(indexed)
    {
      if kb !in folders {
        return Response(NOT_FOUND, KbNotFound(kb), None), NoCall;
      }
      call := NoCall;
      if docName != "" {
        if docName in folders[kb] {
          folders := folders[kb := folders[kb] - {docName}];
        } else {
          return Response(NOT_FOUND, DocNotFound(docName), None), NoCall;
        }
        var remaining := ListDocs(kb);
        if remaining.code == NOT_FOUND {
          // only the not-found answer of `list_docs` is a dictionary
          assert false;
        }
        // `remain_docs["code"]` on a response object raises
        return Response(FAILURE, ServerError, None), NoCall;
      } else {
        folders := folders - {kb};
      }
      resp := Response(SUCCESS, Success, None);
    }
  }

  /**
   * Sending the same file twice to the single-file upload: the second call
   * reports that the file already exists, makes no index call, and leaves
   * the folders and the index set as the first call left them.
   */
  method UploadSameFileTwice(store: DocStore, kb: KbId, file: UploadedFile, ix: Indexer)
    returns (firstCall: IndexCall, second: Response, secondCall: IndexCall)
    requires kb != ""
    modifies store
    ensures IsDuplicate(FolderOf(old(store.folders), kb), file) ==>
      store.folders == old(store.folders) && firstCall == NoCall
    ensures !IsDuplicate(FolderOf(old(store.folders), kb), file) ==>
      && store.folders == old(store.folders)[kb := FolderOf(old(store.folders), kb)[file.name := file.content]]
      && firstCall == (if kb in old(store.indexed) then Extend(kb, [file.name]) else Build(kb, [file.name]))
    ensures store.indexed == IndexAfter(old(store.indexed), firstCall, Loaded(ix, firstCall))
    ensures second == Response(SUCCESS, AlreadyExists(file.name), None) && secondCall == NoCall
  {
    var first;
    first, firstCall := store.SingleUpload(kb, file, ix);
    ghost var afterFirst := store.folders;
    ghost var indexedAfterFirst := store.indexed;
    assert IsDuplicate(FolderOf(afterFirst, kb), file);
    second, secondCall := store.SingleUpload(kb, file, ix);
    assert store.folders == afterFirst && store.indexed == indexedAfterFirst;
  }
}
