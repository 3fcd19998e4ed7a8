/**
 * The uploaded-files list of the chat page (src/pages/ChatApp.jsx,
 * `handleFileUpload`). The list holds plain names, as returned by `/files`,
 * and entries added by an upload, which carry an `uploading` flag. An upload
 * appends one uploading entry per chosen file, then, once the server has
 * answered, either clears the flag of the entries whose names the server
 * returned or removes every entry named like a file of the batch.
 */
module ChatUploads {

  /** An entry of `uploadedFiles`: a plain name, or an object `{ name, uploading }`. */
  datatype FileEntry = Listed(name: string) | Tracked(name: string, uploading: bool)

  /** The answer to `POST /upload`: a 2xx reply with `filenames`, another reply with `error`, or a thrown error. */
  datatype UploadResponse = Accepted(filenames: seq<string>) | Refused(error: string) | Thrown(message: string)

  /** One uploading entry per chosen file, in order. */
  function Temps(batch: seq<string>): (r: seq<FileEntry>)
    ensures |r| == |batch|
    ensures forall i | 0 <= i < |batch| :: r[i].Tracked? && r[i].name == batch[i] && r[i].uploading
  {
    seq(|batch|, i requires 0 <= i < |batch| => Tracked(batch[i], true))
  }

  /** The entry is an upload entry named like one of `tempFiles` (the `find` of the failure path). */
  predicate NamedIn(e: FileEntry, tempFiles: seq<FileEntry>) {
    e.Tracked? && exists k | 0 <= k < |tempFiles| :: tempFiles[k].name == e.name
  }

  /** The success path: every upload entry whose name the server returned stops uploading. */
  function Confirm(entries: seq<FileEntry>, filenames: seq<string>): (r: seq<FileEntry>)
    ensures |r| == |entries|
  {
    if entries == [] then []
    else
      var e := entries[0];
      [if e.Tracked? && e.name in filenames then e.(uploading := false) else e] + Confirm(entries[1..], filenames)
  }

  /** The failure paths: the list without the upload entries named like a file of the batch. */
  function Rollback(entries: seq<FileEntry>, tempFiles: seq<FileEntry>): (r: seq<FileEntry>)
    ensures |r| <= |entries|
  {
    if entries == [] then []
    else (if NamedIn(entries[0], tempFiles) then [] else [entries[0]]) + Rollback(entries[1..], tempFiles)
  }

  // ---------------------------------------------------------------------------
  // What the two updaters do

  /**
   * Confirming keeps every entry in place with its name; plain names are
   * untouched; an upload entry is still uploading exactly when it was and its
   * name was not returned.
   */
  lemma {:induction false} ConfirmPointwise(entries: seq<FileEntry>, filenames: seq<string>)
    ensures var r := Confirm(entries, filenames);
      forall i | 0 <= i < |entries| ::
        r[i].name == entries[i].name && r[i].Tracked? == entries[i].Tracked?
        && (entries[i].Listed? ==> r[i] == entries[i])
        && (entries[i].Tracked? ==> r[i].uploading == (entries[i].uploading && entries[i].name !in filenames))
  {
    if entries != [] {
      ConfirmPointwise(entries[1..], filenames);
      var r := Confirm(entries, filenames);
      assert r[1..] == Confirm(entries[1..], filenames);
    }
  }

  /** Confirming twice with the same reply is confirming once. */
  lemma {:induction false} ConfirmIdempotent(entries: seq<FileEntry>, filenames: seq<string>)
    ensures Confirm(Confirm(entries, filenames), filenames) == Confirm(entries, filenames)
  {
    if entries != [] {
      ConfirmIdempotent(entries[1..], filenames);
      assert Confirm(entries, filenames)[1..] == Confirm(entries[1..], filenames);
    }
  }

  /** Confirming works entry by entry: it distributes over concatenation. */
  lemma {:induction false} ConfirmAppend(a: seq<FileEntry>, b: seq<FileEntry>, filenames: seq<string>)
    ensures Confirm(a + b, filenames) == Confirm(a, filenames) + Confirm(b, filenames)
  {
    if a != [] {
      assert (a + b)[1..] == a[1..] + b;
      ConfirmAppend(a[1..], b, filenames);
    } else {
      assert a + b == b;
    }
  }

  /**
   * Rolling back keeps exactly the entries that are not upload entries named
   * like a file of the batch.
   */
  lemma {:induction false} RollbackKeeps(entries: seq<FileEntry>, tempFiles: seq<FileEntry>)
    ensures forall e :: e in Rollback(entries, tempFiles) <==> e in entries && !NamedIn(e, tempFiles)
  {
    if entries != [] {
      RollbackKeeps(entries[1..], tempFiles);
      assert entries == [entries[0]] + entries[1..];
    }
  }

  /** Rolling back works entry by entry: it distributes over concatenation, so the order is kept. */
  lemma {:induction false} RollbackAppend(a: seq<FileEntry>, b: seq<FileEntry>, tempFiles: seq<FileEntry>)
    ensures Rollback(a + b, tempFiles) == Rollback(a, tempFiles) + Rollback(b, tempFiles)
  {
    if a != [] {
      assert (a + b)[1..] == a[1..] + b;
      RollbackAppend(a[1..], b, tempFiles);
    } else {
      assert a + b == b;
    }
  }

  /** A list with no upload entry named like a file of the batch is left as it is. */
  lemma {:induction false} RollbackUntouched(entries: seq<FileEntry>, tempFiles: seq<FileEntry>)
    requires forall i | 0 <= i < |entries| :: !NamedIn(entries[i], tempFiles)
    ensures Rollback(entries, tempFiles) == entries
  {
    if entries != [] {
      RollbackUntouched(entries[1..], tempFiles);
    }
  }

  /** A list of upload entries all named like files of the batch is emptied. */
  lemma {:induction false} RollbackAllNamed(entries: seq<FileEntry>, tempFiles: seq<FileEntry>)
    requires forall i | 0 <= i < |entries| :: NamedIn(entries[i], tempFiles)
    ensures Rollback(entries, tempFiles) == []
  {
    if entries != [] {
      RollbackAllNamed(entries[1..], tempFiles);
    }
  }

  /** The batch's own entries are all removed by its rollback. */
  lemma RollbackRemovesTemps(batch: seq<string>)
    ensures Rollback(Temps(batch), Temps(batch)) == []
  {
    var t := Temps(batch);
    forall i | 0 <= i < |t| ensures NamedIn(t[i], t) {
      assert t[i].name == t[i].name;
    }
    RollbackAllNamed(t, t);
  }

  // ---------------------------------------------------------------------------
  // A whole upload when nothing else touches the list meanwhile

  /** The list after an upload of `batch` answered by `response`, with no other update in between. */
  function UploadRound(entries: seq<FileEntry>, batch: seq<string>, response: UploadResponse): seq<FileEntry> {
    if batch == [] then entries
    else
      var started := entries + Temps(batch);
      if response.Accepted? then Confirm(started, response.filenames)
      else Rollback(started, Temps(batch))
  }

  /**
   * A failed upload of names new to the list restores the list exactly; an
   * accepted one appends one entry per file, still uploading exactly when
   * the server did not return its name.
   */
  lemma UploadRoundOutcome(entries: seq<FileEntry>, batch: seq<string>, response: UploadResponse)
    requires batch != []
    ensures response.Accepted? ==>
      var r := UploadRound(entries, batch, response);
      |r| == |entries| + |batch|
      && forall i | 0 <= i < |batch| :: r[|entries| + i] == Tracked(batch[i], batch[i] !in response.filenames)
    ensures !response.Accepted? && (forall i | 0 <= i < |entries| :: !NamedIn(entries[i], Temps(batch))) ==>
      UploadRound(entries, batch, response) == entries
  {
    var t := Temps(batch);
    if response.Accepted? {
      ConfirmAppend(entries, t, response.filenames);
      ConfirmPointwise(t, response.filenames);
    } else {
      RollbackAppend(entries, t, t);
      RollbackRemovesTemps(batch);
      if forall i | 0 <= i < |entries| :: !NamedIn(entries[i], t) {
        RollbackUntouched(entries, t);
      }
    }
  }

  /**
   * A failed upload of a name that an earlier upload already brought in
   * removes that earlier, finished entry as well: the file disappears from
   * the list although the server still holds it.
   */
  lemma FailedReuploadHidesEarlierFile(entries: seq<FileEntry>, name: string, response: UploadResponse)
    requires Tracked(name, false) in entries && !response.Accepted?
    ensures Tracked(name, false) !in UploadRound(entries, [name], response)
  {
    var t := Temps([name]);
    assert NamedIn(Tracked(name, false), t) by { assert t[0].name == name; }
    RollbackKeeps(entries + t, t);
  }

  // ---------------------------------------------------------------------------
  // The handler

  const UploadErrorPrefix := "Error uploading file: "
  const NetworkErrorPrefix := "Network error: "

  /** The list shown beside the chat, and the alerts shown to the user. */
  class UploadPanel {
    var entries: seq<FileEntry>
    var alerts: seq<string>

    constructor (listed: seq<string>)
      ensures |entries| == |listed| && forall i | 0 <= i < |listed| :: entries[i] == Listed(listed[i])
      ensures alerts == []
    {
      entries := seq(|listed|, i requires 0 <= i < |listed| => Listed(listed[i]));
      alerts := [];
    }

    /**
     * The part of `handleFileUpload` before the request: nothing for an empty
     * choice, otherwise one uploading entry per file appended to the list.
     * The returned entries are `tempFiles`.
     */
    method BeginUpload(batch: seq<string>) returns (tempFiles: seq<FileEntry>)
      modifies this
      ensures tempFiles == Temps(batch)
      ensures entries == if batch == [] then old(entries) else old(entries) + tempFiles
      ensures alerts == old(alerts)
    {
      tempFiles := [];
      if batch == [] {
        return;
      }
      var k := 0;
      while k < |batch|
        invariant 0 <= k <= |batch|
        invariant tempFiles == Temps(batch[..k])
      {
        assert Temps(batch[..k + 1]) == Temps(batch[..k]) + [Tracked(batch[k], true)];
        tempFiles := tempFiles + [Tracked(batch[k], true)];
        k := k + 1;
      }
      assert batch[..k] == batch;
      entries := entries + tempFiles;
    }

    /**
     * The part after the request, applied to the list as it is then: an
     * accepted reply confirms the returned names; a refused reply or a thrown
     * error removes the batch's names and raises an alert.
     */
    method FinishUpload(tempFiles: seq<FileEntry>, response: UploadResponse)
      modifies this
      ensures response.Accepted? ==> entries == Confirm(old(entries), response.filenames) && alerts == old(alerts)
      ensures response.Refused? ==>
        entries == Rollback(old(entries), tempFiles) && alerts == old(alerts) + [UploadErrorPrefix + response.error]
      ensures response.Thrown? ==>
        entries == Rollback(old(entries), tempFiles) && alerts == old(alerts) + [NetworkErrorPrefix + response.message]
    {
      match response {
        case Accepted(filenames) =>
          entries := Confirm(entries, filenames);
        case Refused(error) =>
          entries := Rollback(entries, tempFiles);
          alerts := alerts + [UploadErrorPrefix + error];
        case Thrown(message) =>
          entries := Rollback(entries, tempFiles);
          alerts := alerts + [NetworkErrorPrefix + message];
      }
    }

    /** `handleFileUpload` when no other update reaches the list while the request is under way. */
    method HandleFileUpload(batch: seq<string>, response: UploadResponse)
      modifies this
      ensures entries == UploadRound(old(entries), batch, response)
      ensures alerts == if batch == [] || response.Accepted? then old(alerts)
                        else old(alerts) + [(if response.Refused? then UploadErrorPrefix + response.error
                                             else NetworkErrorPrefix + response.message)]
    {
      var tempFiles := BeginUpload(batch);
      if batch == [] {
        return;
      }
      FinishUpload(tempFiles, response);
    }
  }
}
