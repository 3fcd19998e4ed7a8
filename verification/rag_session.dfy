/**
 * The server's session bookkeeping (model/app.py): which files were
 * ingested, with which content hash, where each file's documents sit in the
 * global document list, the candidate filtering of `/ask`, and
 * `clear_session`.
 *
 * Document extraction (PDF, Word, transcription), embeddings, the vector
 * index and the on-disk cache are not modelled: for each incoming file the
 * cache lookup and the extraction result are inputs, and the vector index is
 * represented by its size.
 */
module RagSession {
  import opened Common
  import opened Text

  /** A stored document; its other fields (page, times, image) are not modelled. */
  datatype Doc = Doc(sourceFilename: string, text: string)

  /** An entry of `session_file_indices`: the file's documents are `metadata[start..end]`. */
  datatype IndexRange = IndexRange(start: nat, end: nat, count: nat)

  /** What extracting a file produced: its documents, or the exception it raised. */
  datatype Processing = Produced(docs: seq<Doc>) | Raised(message: string)

  /**
   * One file of an upload batch: its name, the SHA-256 of its bytes, the
   * documents found in the cache under that hash, and what extraction would
   * produce.
   */
  datatype IncomingFile = IncomingFile(filename: string, hash: string, cached: Option<seq<Doc>>, processing: Processing)

  datatype FileKind = Pdf | Word | Audio

  const AudioExtensions := [".mp3", ".wav", ".m4a", ".ogg"]

  /** The extension dispatch of `upload_file`, on the lower-cased name. */
  function UploadKind(filename: string): Option<FileKind> {
    var lower := ToLowerAscii(filename);
    if EndsWith(lower, ".pdf") then Some(Pdf)
    else if EndsWith(lower, ".docx") then Some(Word)
    else if EndsWithAny(lower, AudioExtensions) then Some(Audio)
    else None
  }

  // ---------------------------------------------------------------------------
  // One upload batch, file by file

  /** `session_uploaded_files`, `session_file_hashes` and `session_file_indices`. */
  datatype Books = Books(uploaded: set<string>, hashes: map<string, string>, indices: map<string, IndexRange>)

  const NoBooks := Books({}, map[], map[])

  /** A file already uploaded in this session with the same content. */
  predicate IsDuplicate(b: Books, filename: string, hash: string) {
    filename in b.uploaded && filename in b.hashes && b.hashes[filename] == hash
  }

  /** What happens to one non-duplicate file. */
  datatype FileOutcome = Skip | Take(docs: seq<Doc>) | Fail(message: string)

  /** Every document attributed to `filename`, as done to documents loaded from the cache. */
  function Relabel(docs: seq<Doc>, filename: string): (r: seq<Doc>)
    ensures |r| == |docs|
  {
    seq(|docs|, i requires 0 <= i < |docs| => docs[i].(sourceFilename := filename))
  }

  /**
   * A cache hit is taken as it is, even with no documents; otherwise a file
   * of an unknown kind, or one whose extraction finds nothing, is skipped,
   * and an extraction exception aborts the batch.
   */
  function Outcome(f: IncomingFile): FileOutcome {
    match f.cached
    case Some(docs) => Take(Relabel(docs, f.filename))
    case None =>
      if UploadKind(f.filename).None? then Skip
      else
        match f.processing
        case Raised(m) => Fail(m)
        case Produced(docs) => if docs == [] then Skip else Take(docs)
  }

  /**
   * How a non-duplicate file is decided. A cache hit is always taken, with
   * every cached document attributed to the uploaded name and its text kept.
   * Without a cache hit: a file of an unsupported extension is skipped
   * whatever its extraction would do, so it never aborts the batch; only an
   * extraction exception of a supported file fails; and what is taken from
   * extraction is exactly the extracted documents, never none.
   */
  lemma OutcomeCases(f: IncomingFile)
    ensures f.cached.Some? ==>
      var r := Outcome(f);
      r.Take? && |r.docs| == |f.cached.value|
      && forall i | 0 <= i < |r.docs| ::
           r.docs[i].sourceFilename == f.filename && r.docs[i].text == f.cached.value[i].text
    ensures f.cached.None? && UploadKind(f.filename).None? ==> Outcome(f) == Skip
    ensures Outcome(f).Fail? <==> f.cached.None? && UploadKind(f.filename).Some? && f.processing.Raised?
    ensures Outcome(f).Take? && f.cached.None? ==>
      f.processing.Produced? && Outcome(f).docs == f.processing.docs && Outcome(f).docs != []
  {
  }

  /** A file recorded by the batch: name, hash, index range and documents. */
  datatype Registration = Registration(filename: string, hash: string, range: IndexRange, docs: seq<Doc>)

  /**
   * The state of the batch loop: the books, `all_new_docs`, the files
   * registered so far (whose names are `processed_filenames`) and the
   * exception that ended the loop, if any.
   */
  datatype Intake = Intake(books: Books, newDocs: seq<Doc>, registered: seq<Registration>, error: Option<string>)

  /** One iteration of the batch loop; `base` is `len(all_documents_metadata)`. */
  function IntakeStep(base: nat, st: Intake, f: IncomingFile): Intake {
    if st.error.Some? || IsDuplicate(st.books, f.filename, f.hash) then st
    else
      match Outcome(f)
      case Skip => st
      case Fail(m) => st.(error := Some(m))
      case Take(docs) => Register(base, st, f, docs)
  }

  /** Recording `f` with `docs`: its range follows the documents of the batch so far. */
  function Register(base: nat, st: Intake, f: IncomingFile, docs: seq<Doc>): Intake {
    var start := base + |st.newDocs|;
    var range := IndexRange(start, start + |docs|, |docs|);
    var b := st.books;
    Intake(Books(b.uploaded + {f.filename}, b.hashes[f.filename := f.hash], b.indices[f.filename := range]),
           st.newDocs + docs, st.registered + [Registration(f.filename, f.hash, range, docs)], st.error)
  }

  /** A step either leaves the books and the batch's lists alone or registers the file. */
  lemma IntakeStepCases(base: nat, st: Intake, f: IncomingFile)
    ensures var n := IntakeStep(base, st, f);
      (n.books == st.books && n.newDocs == st.newDocs && n.registered == st.registered)
      || (st.error.None? && !IsDuplicate(st.books, f.filename, f.hash) && Outcome(f).Take? && n == Register(base, st, f, Outcome(f).docs))
  {
  }

  /** The batch loop over `files`. */
  function IntakeAll(base: nat, books: Books, files: seq<IncomingFile>): Intake {
    if files == [] then Intake(books, [], [], None)
    else IntakeStep(base, IntakeAll(base, books, files[..|files| - 1]), files[|files| - 1])
  }

  lemma IntakeAllSnoc(base: nat, books: Books, files: seq<IncomingFile>, i: nat)
    requires i < |files|
    ensures IntakeAll(base, books, files[..i + 1]) == IntakeStep(base, IntakeAll(base, books, files[..i]), files[i])
  {
    assert files[..i + 1][..i] == files[..i];
  }

  /** The names of the registered files: the `filenames` of the reply. */
  function Names(regs: seq<Registration>): (r: seq<string>)
    ensures |r| == |regs|
  {
    seq(|regs|, i requires 0 <= i < |regs| => regs[i].filename)
  }

  // ---------------------------------------------------------------------------
  // What a batch guarantees

  /** A registration's range lies in `[base, base + |newDocs|)`, counts its length and selects its documents. */
  predicate Covers(base: nat, reg: Registration, newDocs: seq<Doc>) {
    var r := reg.range;
    base <= r.start <= r.end <= base + |newDocs| && r.count == r.end - r.start
    && newDocs[r.start - base..r.end - base] == reg.docs
  }

  /** Each registration's range covers its documents. */
  predicate AllCover(base: nat, regs: seq<Registration>, newDocs: seq<Doc>) {
    forall i | 0 <= i < |regs| :: Covers(base, regs[i], newDocs)
  }

  /** Each range ends where the next one starts. */
  predicate Contiguous(regs: seq<Registration>) {
    forall i | 0 <= i < |regs| - 1 :: regs[i].range.end == regs[i + 1].range.start
  }

  /** The ranges start at `base` and end at `base + |newDocs|`; with no registration there are no documents. */
  predicate Spans(base: nat, regs: seq<Registration>, newDocs: seq<Doc>) {
    (regs == [] ==> newDocs == [])
    && (regs != [] ==> regs[0].range.start == base && regs[|regs| - 1].range.end == base + |newDocs|)
  }

  /**
   * The registrations' ranges tile `[base, base + |newDocs|)` in order: each
   * covers its file's documents, the first starts at `base`, each ends where
   * the next starts, and the last ends at `base + |newDocs|`.
   */
  predicate Tiled(base: nat, regs: seq<Registration>, newDocs: seq<Doc>) {
    AllCover(base, regs, newDocs) && Contiguous(regs) && Spans(base, regs, newDocs)
  }

  /** No later registration in `regs` has the name of `regs[i]`. */
  predicate Latest(regs: seq<Registration>, i: nat)
    requires i < |regs|
  {
    forall j | i < j < |regs| :: regs[j].filename != regs[i].filename
  }

  /** The newest registration of each name is what the books record for it. */
  predicate Recorded(b: Books, regs: seq<Registration>) {
    forall i | 0 <= i < |regs| && Latest(regs, i) ::
      IsDuplicate(b, regs[i].filename, regs[i].hash)
      && regs[i].filename in b.indices && b.indices[regs[i].filename] == regs[i].range
  }

  /** A range that covers its documents still does once more documents follow. */
  lemma CoversGrow(base: nat, reg: Registration, newDocs: seq<Doc>, docs: seq<Doc>)
    requires Covers(base, reg, newDocs)
    ensures Covers(base, reg, newDocs + docs)
  {
    var r := reg.range;
    assert (newDocs + docs)[r.start - base..r.end - base] == newDocs[r.start - base..r.end - base];
  }

  lemma AllCoverSnoc(base: nat, regs: seq<Registration>, newDocs: seq<Doc>, reg: Registration, docs: seq<Doc>)
    requires AllCover(base, regs, newDocs)
    requires reg.docs == docs && reg.range == IndexRange(base + |newDocs|, base + |newDocs| + |docs|, |docs|)
    ensures AllCover(base, regs + [reg], newDocs + docs)
  {
    var regs', all := regs + [reg], newDocs + docs;
    forall i | 0 <= i < |regs'| ensures Covers(base, regs'[i], all) {
      if i < |regs| {
        assert regs'[i] == regs[i];
        CoversGrow(base, regs[i], newDocs, docs);
      } else {
        assert all[|newDocs|..] == docs;
      }
    }
  }

  lemma ContiguousSnoc(regs: seq<Registration>, reg: Registration)
    requires Contiguous(regs) && (regs != [] ==> regs[|regs| - 1].range.end == reg.range.start)
    ensures Contiguous(regs + [reg])
  {
    var regs' := regs + [reg];
    forall i | 0 <= i < |regs'| - 1 ensures regs'[i].range.end == regs'[i + 1].range.start {
      assert regs'[i] == regs[i];
    }
  }

  lemma SpansSnoc(base: nat, regs: seq<Registration>, newDocs: seq<Doc>, reg: Registration, docs: seq<Doc>)
    requires Spans(base, regs, newDocs)
    requires reg.range == IndexRange(base + |newDocs|, base + |newDocs| + |docs|, |docs|)
    ensures Spans(base, regs + [reg], newDocs + docs)
  {
    var regs' := regs + [reg];
    assert regs'[|regs'| - 1] == reg;
    if regs != [] {
      assert regs'[0] == regs[0];
    }
  }

  lemma TiledSnoc(base: nat, st: Intake, f: IncomingFile, docs: seq<Doc>)
    requires Tiled(base, st.registered, st.newDocs)
    ensures var n := Register(base, st, f, docs); Tiled(base, n.registered, n.newDocs)
  {
    var regs, newDocs := st.registered, st.newDocs;
    var start := base + |newDocs|;
    var reg := Registration(f.filename, f.hash, IndexRange(start, start + |docs|, |docs|), docs);
    var n := Register(base, st, f, docs);
    assert n.registered == regs + [reg] && n.newDocs == newDocs + docs;
    AllCoverSnoc(base, regs, newDocs, reg, docs);
    ContiguousSnoc(regs, reg);
    SpansSnoc(base, regs, newDocs, reg, docs);
  }

  /**
   * Within a batch the index ranges are contiguous and disjoint, in the order
   * the files were registered, and start at the current number of documents;
   * each covers exactly its file's documents.
   */
  lemma {:induction false} IntakeTiles(base: nat, books: Books, files: seq<IncomingFile>)
    ensures var r := IntakeAll(base, books, files); Tiled(base, r.registered, r.newDocs)
  {
    if files != [] {
      var prev := IntakeAll(base, books, files[..|files| - 1]);
      var f := files[|files| - 1];
      IntakeTiles(base, books, files[..|files| - 1]);
      IntakeStepCases(base, prev, f);
      if Outcome(f).Take? {
        TiledSnoc(base, prev, f, Outcome(f).docs);
      }
    }
  }

  lemma RecordedSnoc(base: nat, st: Intake, f: IncomingFile, docs: seq<Doc>)
    requires Recorded(st.books, st.registered)
    ensures var n := Register(base, st, f, docs); Recorded(n.books, n.registered)
  {
    var n := Register(base, st, f, docs);
    var regs, regs' := st.registered, n.registered;
    forall i | 0 <= i < |regs'| && Latest(regs', i)
      ensures IsDuplicate(n.books, regs'[i].filename, regs'[i].hash)
      ensures regs'[i].filename in n.books.indices && n.books.indices[regs'[i].filename] == regs'[i].range
    {
      if i < |regs| {
        assert regs' == regs + [regs'[|regs|]];
        assert regs'[i] == regs[i];
        assert regs'[|regs|].filename == f.filename;
        forall j | i < j < |regs| ensures regs[j].filename != regs[i].filename {
          assert regs'[j] == regs[j];
        }
      }
    }
  }

  /**
   * After a batch, every file it registered is recorded under its name with
   * its hash (so uploading the same content again is a duplicate) and with
   * its index range, for the last registration of each name.
   */
  lemma {:induction false} IntakeRecords(base: nat, books: Books, files: seq<IncomingFile>)
    ensures var r := IntakeAll(base, books, files); Recorded(r.books, r.registered)
  {
    if files != [] {
      var prev := IntakeAll(base, books, files[..|files| - 1]);
      var f := files[|files| - 1];
      IntakeRecords(base, books, files[..|files| - 1]);
      IntakeStepCases(base, prev, f);
      if Outcome(f).Take? {
        RecordedSnoc(base, prev, f, Outcome(f).docs);
      }
    }
  }

  /** A batch of files all already uploaded with the same content changes nothing and registers nothing. */
  lemma {:induction false} DuplicatesSkipped(base: nat, books: Books, files: seq<IncomingFile>)
    requires forall i | 0 <= i < |files| :: IsDuplicate(books, files[i].filename, files[i].hash)
    ensures IntakeAll(base, books, files) == Intake(books, [], [], None)
  {
    if files != [] {
      DuplicatesSkipped(base, books, files[..|files| - 1]);
    }
  }

  /**
   * Ingestion is not atomic. When a later file of the batch raises, the
   * earlier file stays recorded, with an index range beyond the documents
   * actually stored (they are added only at the end of the batch), and an
   * upload of the same file again is skipped as a duplicate, so its
   * documents are never stored.
   */
  lemma FailedBatchKeepsEarlierFile(base: nat, books: Books, f: IncomingFile, g: IncomingFile)
    requires !IsDuplicate(books, f.filename, f.hash) && g.filename != f.filename && !IsDuplicate(books, g.filename, g.hash)
    requires Outcome(f).Take? && Outcome(f).docs != [] && Outcome(g).Fail?
    ensures var r := IntakeAll(base, books, [f, g]);
      r.error == Some(Outcome(g).message)
      && f.filename in r.books.indices && r.books.indices[f.filename].end > base
      && IntakeAll(base, r.books, [f]) == Intake(r.books, [], [], None)
  {
    assert [f, g][..1] == [f];
    assert [f][..0] == [];
    assert IntakeAll(base, books, []) == Intake(books, [], [], None);
    var s1 := IntakeAll(base, books, [f]);
    assert s1 == IntakeStep(base, Intake(books, [], [], None), f);
    assert s1.error.None? && IsDuplicate(s1.books, f.filename, f.hash) && !IsDuplicate(s1.books, g.filename, g.hash);
    var r := IntakeAll(base, books, [f, g]);
    assert r == IntakeStep(base, s1, g) == s1.(error := Some(Outcome(g).message));
    DuplicatesSkipped(base, r.books, [f]);
  }

  // ---------------------------------------------------------------------------
  // Candidate filtering and the top-k choice of /ask

  const ImageKeywords := ["image", "graph", "chart", "diagram", "picture", "show"]

  /** The question, lower-cased, mentions one of the image keywords. */
  predicate MentionsImage(question: string) {
    exists k | 0 <= k < |ImageKeywords| :: Contains(ToLowerAscii(question), ImageKeywords[k])
  }

  /** How many reranked documents become context: 3 for image questions, else 2. */
  function TopK(question: string): nat {
    if MentionsImage(question) then 3 else 2
  }

  /** The top-k is 3 exactly for questions that mention an image keyword in any letter case, else 2. */
  lemma TopKChoice(question: string)
    ensures TopK(question) == 3 <==> MentionsImage(question)
    ensures TopK(question) == 2 <==> !MentionsImage(question)
    ensures TopK(ToLowerAscii(question)) == TopK(question)
  {
    ToLowerIdempotent(question);
  }

  /** The result of `/ask` up to the reranking. */
  datatype AskReply =
    | AskRefused(status: nat, error: string)
    | NothingFound(html: string)                    // the fixed reply when no candidate survives
    | Candidates(ids: set<int>, topK: nat)          // `all_documents_metadata[i]` for these ids go to the reranker

  const NothingFoundHtml :=
    "<div><p>I couldn't find any relevant information in the uploaded documents to answer your question.</p></div>"

  /** Id `i` came back from one of the searches and indexes a stored document (the padding id -1 never does). */
  predicate Retrieved(i: int, ids: seq<seq<int>>, total: nat) {
    0 <= i < total && exists l | 0 <= l < |ids| :: i in ids[l]
  }

  /**
   * The nested loop over the search results: every id of every result list
   * that is not -1 and indexes the document list, without repetition.
   */
  method CandidateIds(ids: seq<seq<int>>, total: nat) returns (unique: set<int>)
    ensures forall i :: i in unique <==> Retrieved(i, ids, total)
  {
    unique := {};
    var l := 0;
    while l < |ids|
      invariant 0 <= l <= |ids|
      invariant forall i :: i in unique <==> 0 <= i < total && exists m | 0 <= m < l :: i in ids[m]
    {
      var idList := ids[l];
      var k := 0;
      while k < |idList|
        invariant 0 <= k <= |idList|
        invariant forall i :: i in unique <==>
          0 <= i < total && ((exists m | 0 <= m < l :: i in ids[m]) || i in idList[..k])
      {
        var i := idList[k];
        if i != -1 && 0 <= i < total {
          unique := unique + {i};
        }
        assert idList[..k + 1] == idList[..k] + [i];
        k := k + 1;
      }
      assert idList[..k] == ids[l];
      l := l + 1;
    }
  }

  // ---------------------------------------------------------------------------
  // The session

  /** The body of an `/upload` reply. */
  datatype UploadReply = Processed(filenames: seq<string>) | UploadRefused(error: string)

  const NoFilesProvided := "No files provided"
  const NoDocumentsYet := "No documents uploaded yet"
  const NoQuestion := "No question provided"

  /** The module-level state of the server. */
  class Session {
    var metadata: seq<Doc>          // all_documents_metadata
    var storeSize: Option<nat>      // vector_store: None, or the number of vectors it holds
    var uploaded: set<string>       // session_uploaded_files
    var hashes: map<string, string> // session_file_hashes
    var indices: map<string, IndexRange> // session_file_indices

    function Bookkeeping(): Books
      reads this
    {
      Books(uploaded, hashes, indices)
    }

    /**
     * The vector index holds one vector per stored document and exists once
     * anything was stored; a name is recorded with a hash exactly when it is
     * listed as uploaded; every index entry belongs to an uploaded name and
     * counts its own range.
     */
    predicate Valid()
      reads this
    {
      (storeSize.Some? ==> storeSize.value == |metadata|)
      && (storeSize.None? ==> metadata == [])
      && uploaded == hashes.Keys
      && indices.Keys <= uploaded
      && forall n | n in indices :: indices[n].end == indices[n].start + indices[n].count
    }

    constructor ()
      ensures Valid()
      ensures metadata == [] && storeSize == None && Bookkeeping() == NoBooks
    {
      metadata := [];
      storeSize := None;
      uploaded := {};
      hashes := map[];
      indices := map[];
    }

    /** The per-document relabelling loop for documents loaded from the cache. */
    static method RelabelDocs(docs: seq<Doc>, filename: string) returns (relabelled: seq<Doc>)
      ensures relabelled == Relabel(docs, filename)
    {
      relabelled := docs;
      var k := 0;
      while k < |docs|
        invariant 0 <= k <= |docs| && |relabelled| == |docs|
        invariant forall j | 0 <= j < |docs| :: relabelled[j] == if j < k then docs[j].(sourceFilename := filename) else docs[j]
      {
        relabelled := relabelled[k := relabelled[k].(sourceFilename := filename)];
        k := k + 1;
      }
    }

    /** What becomes of a file that is not a duplicate: the cache, then the extension dispatch, then extraction. */
    static method DecideFile(f: IncomingFile) returns (outcome: FileOutcome)
      ensures outcome == Outcome(f)
    {
      match f.cached {
        case Some(cachedDocs) =>
          var docs := RelabelDocs(cachedDocs, f.filename);
          return Take(docs);
        case None =>
          var kind := UploadKind(f.filename);
          if kind.None? {
            return Skip;
          }
          match f.processing {
            case Raised(m) =>
              return Fail(m);
            case Produced(produced) =>
              if produced == [] {
                return Skip;
              }
              return Take(produced);
          }
      }
    }

    /** One file of the batch, recorded in the books; the batch's own lists are returned. */
    method IngestFile(base: nat, newDocs: seq<Doc>, ghost registered: seq<Registration>, filenames: seq<string>, f: IncomingFile)
      returns (newDocs': seq<Doc>, ghost registered': seq<Registration>, filenames': seq<string>, error: Option<string>)
      requires filenames == Names(registered)
      requires Valid()
      modifies this
      ensures Valid()
      ensures var st := IntakeStep(base, Intake(old(Bookkeeping()), newDocs, registered, None), f);
        Bookkeeping() == st.books && newDocs' == st.newDocs && registered' == st.registered && error == st.error
        && filenames' == Names(registered')
      ensures metadata == old(metadata) && storeSize == old(storeSize)
    {
      newDocs', registered', filenames', error := newDocs, registered, filenames, None;
      if f.filename in uploaded && f.filename in hashes && hashes[f.filename] == f.hash {
        return;
      }
      var outcome := DecideFile(f);
      var docs;
      match outcome {
        case Skip => return;
        case Fail(m) => return newDocs, registered, filenames, Some(m);
        case Take(taken) => docs := taken;
      }
      var start := base + |newDocs|;
      var range := IndexRange(start, start + |docs|, |docs|);
      indices := indices[f.filename := range];
      newDocs' := newDocs + docs;
      uploaded := uploaded + {f.filename};
      hashes := hashes[f.filename := f.hash];
      registered' := registered + [Registration(f.filename, f.hash, range, docs)];
      filenames' := filenames + [f.filename];
      assert Names(registered') == Names(registered) + [f.filename];
    }

    /** Adding a batch's vectors to the index (creating it if need be) and its documents to the list. */
    method Store(newDocs: seq<Doc>)
      requires Valid()
      modifies this
      ensures Valid()
      ensures metadata == old(metadata) + newDocs && storeSize == Some(|metadata|)
      ensures Bookkeeping() == old(Bookkeeping())
    {
      storeSize := Some(|metadata| + |newDocs|);
      metadata := metadata + newDocs;
    }

    /**
     * `upload_file`. Without a `files` field the reply is a 400. Otherwise the
     * files are taken in order: duplicates and unusable files are skipped, the
     * others recorded with their index ranges; the documents are stored only
     * when the whole batch went through. An exception ends the batch with a
     * 500, keeping what was recorded before it.
     */
    method UploadFile(files: Option<seq<IncomingFile>>) returns (status: nat, reply: UploadReply)
      requires Valid()
      modifies this
      ensures Valid()
      ensures files.None? ==>
        status == 400 && reply == UploadRefused(NoFilesProvided)
        && metadata == old(metadata) && storeSize == old(storeSize) && Bookkeeping() == old(Bookkeeping())
      ensures files.Some? ==>
        var r := IntakeAll(|old(metadata)|, old(Bookkeeping()), files.value);
        Bookkeeping() == r.books
        && (r.error.None? ==>
              status == 200 && reply == Processed(Names(r.registered))
              && metadata == old(metadata) + r.newDocs
              && storeSize == if r.registered == [] then old(storeSize) else Some(|metadata|))
        && (r.error.Some? ==>
              status == 500 && reply == UploadRefused(r.error.value)
              && metadata == old(metadata) && storeSize == old(storeSize))
    {
      if files.None? {
        return 400, UploadRefused(NoFilesProvided);
      }
      var batch := files.value;
      var base := |metadata|;
      ghost var books0 := Bookkeeping();
      var allNewDocs: seq<Doc> := [];
      ghost var registered: seq<Registration> := [];
      var processedFilenames: seq<string> := [];
      var i := 0;
      while i < |batch|
        invariant 0 <= i <= |batch|
        invariant Intake(Bookkeeping(), allNewDocs, registered, None) == IntakeAll(base, books0, batch[..i])
        invariant processedFilenames == Names(registered)
        invariant metadata == old(metadata) && storeSize == old(storeSize) && base == |metadata|
        invariant Valid()
      {
        IntakeAllSnoc(base, books0, batch, i);
        var error;
        allNewDocs, registered, processedFilenames, error := IngestFile(base, allNewDocs, registered, processedFilenames, batch[i]);
        if error.Some? {
          StaysFailed(base, books0, batch, i + 1);
          return 500, UploadRefused(error.value);
        }
        i := i + 1;
      }
      assert batch[..i] == batch;
      IntakeTiles(base, books0, batch);
      if processedFilenames != [] {
        Store(allNewDocs);
      }
      return 200, Processed(processedFilenames);
    }

    /**
     * `/ask` up to the reranking. `ids` are the result lists of the vector
     * search for the expanded queries. Without a non-empty index or a
     * question the reply is a 400; otherwise the candidates are the valid
     * ids, and none of them gives the fixed "nothing found" reply.
     */
    method Ask(question: Option<string>, ids: seq<seq<int>>) returns (reply: AskReply)
      requires Valid()
      ensures storeSize.None? || storeSize == Some(0) ==> reply == AskRefused(400, NoDocumentsYet)
      ensures storeSize.Some? && storeSize.value > 0 && (question.None? || question == Some("")) ==>
        reply == AskRefused(400, NoQuestion)
      ensures storeSize.Some? && storeSize.value > 0 && question.Some? && question.value != "" ==>
        (reply.NothingFound? || reply.Candidates?)
        && (reply.NothingFound? ==> reply.html == NothingFoundHtml && forall i :: !Retrieved(i, ids, |metadata|))
        && (reply.Candidates? ==>
              reply.ids != {} && reply.topK == TopK(question.value)
              && forall i :: i in reply.ids <==> Retrieved(i, ids, |metadata|))
    {
      if storeSize.None? || storeSize.value == 0 {
        return AskRefused(400, NoDocumentsYet);
      }
      if question.None? || question.value == "" {
        return AskRefused(400, NoQuestion);
      }
      var unique := CandidateIds(ids, |metadata|);
      if unique == {} {
        forall i ensures !Retrieved(i, ids, |metadata|) {
          assert i !in unique;
        }
        return NothingFound(NothingFoundHtml);
      }
      return Candidates(unique, TopK(question.value));
    }

    /** `clear_session`: every document, the index and all the books are dropped. */
    method ClearSession()
      modifies this
      ensures Valid()
      ensures metadata == [] && storeSize == None && Bookkeeping() == NoBooks
    {
      metadata := [];
      storeSize := None;
      uploaded := {};
      hashes := map[];
      indices := map[];
    }
  }

  /** Once a file has raised, the rest of the batch changes nothing. */
  lemma {:induction false} StaysFailed(base: nat, books: Books, files: seq<IncomingFile>, i: nat)
    requires i <= |files| && IntakeAll(base, books, files[..i]).error.Some?
    ensures IntakeAll(base, books, files) == IntakeAll(base, books, files[..i])
    decreases |files| - i
  {
    if i < |files| {
      IntakeAllSnoc(base, books, files, i);
      StaysFailed(base, books, files, i + 1);
    } else {
      assert files[..i] == files;
    }
  }
}
