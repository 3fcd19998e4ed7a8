# A verified model of the chat assistant's session logic

The system is a document chat assistant. A Flask server (`model/app.py`)
ingests PDF, Word and audio files into a vector index, answers questions over
them and transcribes voice questions. A React page (`src/pages/ChatApp.jsx`)
uploads files, streams answers and plays or shows the cited sources. This
project models the deterministic parts of both, in Dafny, and proves what they
promise.

| module | file | what it models |
|---|---|---|
| `Common` | `common.dfy` | `Option`, for JavaScript `undefined`/`null` and Python `None` |
| `Text` | `text.dfy` | the string built-ins the code relies on: `trim` (JavaScript) and `strip` (Python), each with its own white-space set; `replace` with a string and with `/g`; lower-casing; `String(n).padStart(2, "0")` and `f"{n:02d}"`; `int()` as truncation; `" ".join` |
| `ChatStream` | `chat_stream.dfy` | `askQuestion`: the message list, the read loop, envelope detection with `/\{[\s\S]*\}$/`, cleaning, the final, error and no-body updates |
| `ChatUploads` | `chat_uploads.dfy` | `handleFileUpload`: the optimistic entries, confirmation by name, rollback by name |
| `ChatCitations` | `chat_citations.dfy` | `handleSourceClick`: one effect per citation type |
| `ChatHelpers` | `chat_helpers.dfy` | `formatTime` and `getFileIcon` |
| `ChatVoice` | `chat_voice.dfy` | `handleVoiceButton`: a class over the refs and the recording flag, with one method per browser event |
| `Transcript` | `transcript.dfy` | the segment normalisation and chunk packing of `process_audio`, and `format_timestamp` |
| `RagSession` | `rag_session.dfy` | the session globals as a class: `upload_file`'s duplicate skip, extension dispatch and index ranges; the candidate filter and top-k of `ask_question`; `clear_session` |
| `Consistency` | `consistency.dfy` | where the page and the server describe the same thing |

The imperative code keeps its form. The read loop of `askQuestion`, the
segment loop and the overlap loop of `process_audio`, the file loop of
`upload_file` and the nested id loop of `ask_question` are `while` loops. Each
is proved equal to a fold, or, for the id loop, to the set `Retrieved`
describes, and the properties of the fold are proved as lemmas. The
module globals of the server, the upload list and the refs of the voice
button are class fields, changed by methods with `modifies` clauses. The
state updaters passed to `setMessages` and `setUploadedFiles`, `formatTime`,
`getFileIcon`, the citation dispatch and `format_timestamp` are functions.

Browser and library calls are parameters:
- `JSON.parse` is a function from the envelope text to an optional parsed value.
- `decodeURIComponent` is a function to an optional string; `None` means it threw.
- Fetch replies are datatypes.
- A file's cache entry and its extraction result are fields of the incoming file.
- The vector index is represented by its size.

## Model

| member | source | states |
|---|---|---|
| ChatStream.AskQuestion | src/pages/ChatApp.jsx:101-199 | an empty trimmed question changes neither the messages nor the input; otherwise the input is cleared and exactly two entries are appended, the trimmed question and, at the prior length + 1, the outcome of the reply |
| ChatStream.Outcome | src/pages/ChatApp.jsx:116-198 | computes the message left at the placeholder for each way the request ends; its meaning is stated by FinalContentIsLastNonEmpty and EnvelopeSplitInvariant |
| ChatStream.Detect | src/pages/ChatApp.jsx:145-158 | computes one envelope detection on the buffer; characterised by DetectCutsAtFirstBrace |
| ChatStream.Clean | src/pages/ChatApp.jsx:160-163 | computes the displayed text; characterised by CleanIsFenceFree and CleanKeepsBrace |
| ChatStream.Feed | src/pages/ChatApp.jsx:141-176 | computes one iteration of the read loop; its fold is characterised by ShownWhileStreaming, StreamedIsLastNonEmpty and PrefixState |
| ChatStream.Settle | src/pages/ChatApp.jsx:116-198 | only the placeholder's index changes: a thrown fetch gives "Error: " + message, a missing body gives "Streaming not supported!", a read error gives "Error: " + message, a completed stream gives the final message |
| ChatStream.ReadFragments | src/pages/ChatApp.jsx:135-177 | the read loop leaves the buffer, streamed content, sources and the shown entry equal to the fold `FeedAll` over the fragments, with every other entry untouched |
| ChatStream.MatchEnvelope | src/pages/ChatApp.jsx:145-158 | the regex match, parse and cut of one iteration give exactly `Detect` of the buffer |
| ChatStream.EnvelopeStartIsLeftmostMatch | src/pages/ChatApp.jsx:146 | the match starts at the leftmost position where `{` is followed by a buffer ending in `}`, and there is none when the buffer does not end in `}` |
| ChatStream.DetectCutsAtFirstBrace | src/pages/ChatApp.jsx:145-158 | detection fires exactly when the buffer ends with `}` and holds a `{`; a sources envelope from the first `{` sets the sources and leaves exactly the prefix before that `{`; a failed parse or another type leaves buffer and sources unchanged |
| ChatStream.CleanIsFenceFree | src/pages/ChatApp.jsx:160-163 | the cleaned text never contains a triple backtick and neither starts nor ends with white space |
| ChatStream.ShownWhileStreaming | src/pages/ChatApp.jsx:164-176 | while streaming, the shown entry is the placeholder exactly when nothing non-empty was streamed, and otherwise a streaming system message with the streamed, fence-free text and sources |
| ChatStream.StreamedIsLastNonEmpty | src/pages/ChatApp.jsx:164-165 | the streamed content is the last non-empty cleaned text, or "" when there is none |
| ChatStream.FinalContentIsLastNonEmpty | src/pages/ChatApp.jsx:179-188 | the final message holds the last non-empty cleaned text, or "" (no fallback text) |
| ChatStream.DetectOnProse | src/pages/ChatApp.jsx:146-158 | a buffer without `{` is never cut and keeps its sources |
| ChatStream.DetectOnPrefix | src/pages/ChatApp.jsx:145-158 | for prose without `{` followed by an envelope none of whose proper prefixes parses as sources, detection on a prefix of the answer cuts only once the whole envelope has arrived, and then leaves the prose and the envelope's content |
| ChatStream.PrefixState | src/pages/ChatApp.jsx:141-177 | for prose without `{` and an envelope none of whose proper prefixes parses as sources, however the answer is split into fragments: until the envelope is complete the buffer is everything received and the sources are empty; once it is complete the buffer is the prose and the sources its content |
| ChatStream.EnvelopeSplitInvariant | src/pages/ChatApp.jsx:141-188 | for prose without `{` and an envelope none of whose proper prefixes parses as sources: when the cleaned prose is non-empty, the final message is the cleaned prose with the envelope's sources, whatever the split |
| ChatStream.CleanKeepsBrace | src/pages/ChatApp.jsx:160-164 | a buffer starting with `{` cleans to a non-empty text, so a partial envelope is shown |
| ChatStream.EnvelopeCut | src/pages/ChatApp.jsx:148-154 | a buffer that is one whole sources envelope is cut to "" and its content taken |
| ChatStream.EnvelopeSentWhole | src/pages/ChatApp.jsx:179-188 | an answer that is only the envelope, in one fragment, ends with empty content |
| ChatStream.EnvelopeSentInTwo | src/pages/ChatApp.jsx:160-188 | the same envelope sent in two fragments ends with the cleaned partial envelope as content: the outcome depends on the split |
| ChatStream.ProseBraceLeaksEnvelope | src/pages/ChatApp.jsx:145-158 | a `{` in the prose makes the match start there; when that text does not parse as sources (as `JSON.parse` throws on it), the envelope is never cut: the buffer keeps the raw envelope and the answer ends with no citations |
| ChatStream.PartialShown | src/pages/ChatApp.jsx:160-176 | an incomplete envelope is kept in the buffer and shown as text, with no sources |
| ChatUploads.UploadPanel.BeginUpload | src/pages/ChatApp.jsx:45-57 | an empty choice changes nothing; otherwise one uploading entry per file, in order, is appended and returned |
| ChatUploads.UploadPanel.FinishUpload | src/pages/ChatApp.jsx:66-85 | an accepted reply confirms the returned names; a refused reply or a thrown error rolls back the batch's names and adds the matching alert |
| ChatUploads.UploadPanel.HandleFileUpload | src/pages/ChatApp.jsx:45-90 | with no update in between, the list becomes `UploadRound` of the old list, and an alert is added exactly on failure |
| ChatUploads.Confirm | src/pages/ChatApp.jsx:66-73 | computes the success updater, keeping the length; characterised by ConfirmPointwise, ConfirmIdempotent and ConfirmAppend |
| ChatUploads.Rollback | src/pages/ChatApp.jsx:74-85 | computes the failure updater, never lengthening the list; characterised by RollbackKeeps, RollbackAppend and RollbackUntouched |
| ChatUploads.UploadRound | src/pages/ChatApp.jsx:45-85 | computes the list after one upload with no update in between; characterised by UploadRoundOutcome |
| ChatUploads.ConfirmPointwise | src/pages/ChatApp.jsx:66-73 | confirming keeps length, order and names; plain names are untouched; an upload entry stays uploading exactly when it was and its name was not returned |
| ChatUploads.ConfirmIdempotent | src/pages/ChatApp.jsx:66-73 | confirming twice with the same reply is confirming once |
| ChatUploads.ConfirmAppend | src/pages/ChatApp.jsx:66-73 | confirming distributes over concatenation |
| ChatUploads.RollbackKeeps | src/pages/ChatApp.jsx:74-85 | the rolled-back list holds exactly the entries that are not upload entries named like a batch file, older ones included; plain names are kept |
| ChatUploads.RollbackAppend | src/pages/ChatApp.jsx:74-85 | rollback distributes over concatenation, so relative order is preserved |
| ChatUploads.RollbackUntouched | src/pages/ChatApp.jsx:74-85 | a list with no upload entry named like a batch file is left as it is |
| ChatUploads.RollbackAllNamed | src/pages/ChatApp.jsx:74-85 | a list of upload entries all named like batch files is emptied |
| ChatUploads.RollbackRemovesTemps | src/pages/ChatApp.jsx:74-85 | the batch's own entries are all removed by its rollback |
| ChatUploads.UploadRoundOutcome | src/pages/ChatApp.jsx:45-85 | an accepted upload appends one entry per file, uploading exactly when the server did not return its name; a failed upload of names new to the list restores the list |
| ChatUploads.FailedReuploadHidesEarlierFile | src/pages/ChatApp.jsx:74-85 | a failed upload of a name an earlier upload brought in also removes that earlier, finished entry |
| ChatCitations.SourceClick | src/pages/ChatApp.jsx:279-312 | one effect per type, each in both directions: `pdf` exactly opens a tab on the file under the temp directory at `#page=` + page number; `docx`/`text` exactly show a text modal, titled "Source from: " + file name, with no newline left unless it shows the placeholder; `audio` exactly plays or shows the player, playing seeks to `start_time`; `image`/`standalone_image` exactly show the image modal on the image path under the temp directory; any other type is ignored |
| ChatCitations.AudioReusesLoadedSource | src/pages/ChatApp.jsx:296-307 | an audio citation replaces the player's source exactly when the decoded current file name differs, with the file under the temp directory, then seeks to its start time |
| ChatCitations.TextCitationShowsContent | src/pages/ChatApp.jsx:286-295 | a `docx` or `text` citation shows a modal; missing or empty content gives the placeholder; content without `<` is recovered from the HTML by turning `<br>` back into newlines |
| ChatCitations.LastPathSegment | src/pages/ChatApp.jsx:298 | `split("/").pop()` is a suffix of the URL without `/`, preceded by `/` when it is not the whole URL |
| Text.BreaksRoundTrip | src/pages/ChatApp.jsx:289 | turning newlines into `<br>` is undone by the reverse replacement on text without `<` |
| Text.NewlinesToBreaksHasNoNewline | src/pages/ChatApp.jsx:289 | after `replace(/\n/g, "<br>")` no newline is left |
| ChatHelpers.FormatTimeReadsBack | src/pages/ChatApp.jsx:92-99 | a non-negative time's label is "MM:SS" reading back as its whole minutes and its remaining whole seconds, the latter below 60 |
| ChatHelpers.FormatTime | src/pages/ChatApp.jsx:92-99 | computes the "MM:SS" label; characterised by FormatTimeReadsBack and, against the server, TimeLabelsAgree |
| ChatHelpers.MinutesAndSeconds | src/pages/ChatApp.jsx:93-94 | for a non-negative time, `Math.floor(t / 60)` is the whole minutes and `Math.floor(t % 60)` the remaining whole seconds |
| ChatHelpers.IconIgnoresCase | src/pages/ChatApp.jsx:259-277 | the icon of a name and of its lower-cased form are the same |
| ChatHelpers.GetFileIcon | src/pages/ChatApp.jsx:259-277 | computes the icon by the first matching extension test on the lower-cased name; characterised by IconIgnoresCase and OggHasArticleIcon |
| Text.ToLowerIdempotent | src/pages/ChatApp.jsx:260 | lower-casing twice is lower-casing once |
| ChatVoice.VoiceCapture.Press | src/pages/ChatApp.jsx:201-207 | while recording, the recorder in the ref is asked to stop and the flag cleared; otherwise only a microphone request is added; a recorder dropped from the ref stays recording |
| ChatVoice.VoiceCapture.MicrophoneGranted | src/pages/ChatApp.jsx:208-246 | the new stream and recorder replace both refs, the chunk list is emptied, recording starts; earlier recorders keep recording |
| ChatVoice.VoiceCapture.MicrophoneDenied | src/pages/ChatApp.jsx:247-249 | the alert "Error accessing microphone: " + message, nothing else |
| ChatVoice.VoiceCapture.RecorderStopped | src/pages/ChatApp.jsx:217-229 | the last data joins the chunk list in the ref and that whole list is sent for transcription |
| ChatVoice.VoiceCapture.TranscribeSettled | src/pages/ChatApp.jsx:231-242 | a transcript becomes the question input; an error reply adds "Error: " + error; both stop the tracks of the stream in the ref at that moment; a thrown error releases nothing |
| ChatVoice.OneRecording | src/pages/ChatApp.jsx:201-252 | one press, grant, press, stop and transcript: the transcript becomes the question, no recorder records and no stream runs |
| ChatVoice.DoublePressLeavesRecorderRunning | src/pages/ChatApp.jsx:201-246 | two presses before the microphone answers leave the first recorder recording outside the ref, and its stream running, after the next press |
| ChatVoice.LateReplyStopsNewStream | src/pages/ChatApp.jsx:239-241 | a transcription answered after the next recording started stops the tracks of the new stream, the one in the ref, while the stream it was recorded on keeps running |
| Transcript.ProcessAudio | model/app.py:364-452 | the normalisation and packing loops return exactly the chunks of the fold `TranscriptChunks` over the stripped segments, and `[]` for no segments |
| Transcript.NormalizeSegments | model/app.py:364-370 | the normalisation loop yields each segment with its text stripped and its times kept |
| Transcript.NormalizeStrips | model/app.py:364-370 | after normalisation every text is stripped, the length and the times are kept |
| Transcript.PackSegment | model/app.py:388-438 | one iteration of the packing loop is one step of the fold, and `current_length` stays the length of the current text |
| Transcript.BuildOverlap | model/app.py:404-412 | the backward overlap loop with `insert(0, …)` builds exactly `Overlap` of the closed chunk's segments |
| Transcript.OverlapIsFittingSuffix | model/app.py:404-412 | the overlap is a suffix of the segments, in their order, whose texts total at most the budget |
| Transcript.OverlapIsLongest | model/app.py:404-412 | no longer suffix fits the budget |
| Transcript.StepFlushesOnOverflow | model/app.py:392-438 | a step emits a chunk exactly when the segment overflows a chunk with text; the emitted chunk is the closed one, numbered next; the new chunk is the longest fitting suffix of the closed chunk's segments followed by the segment, its text their texts joined by single spaces and stripped, from its first segment's start to the segment's end; otherwise the segment is appended, its text after a single space (or alone when the chunk has no text), the start time kept once set and the end time moved to the segment's end |
| Transcript.Step | model/app.py:388-438 | computes one iteration of the packing loop; characterised by StepFlushesOnOverflow and StepConsistent |
| Transcript.Reopen | model/app.py:404-424 | computes the chunk that follows a closed one; characterised by StepFlushesOnOverflow, OverlapIsFittingSuffix and OverlapIsLongest |
| Transcript.Append | model/app.py:426-438 | computes the current chunk with the segment added; characterised by StepFlushesOnOverflow |
| Transcript.StepConsistent | model/app.py:388-438 | each step keeps the emitted chunks numbered and well-formed, keeps the current chunk without times while it has no segment and otherwise from its first segment's start to its last segment's end, and its text, when non-empty, with a segment and no leading white space |
| Transcript.StepAllConsistent | model/app.py:388-438 | every state of the loop is consistent in that sense |
| Transcript.ChunksNumberedAndTimed | model/app.py:388-452 | the chunks are numbered 1, 2, …, n in emission order; each has non-empty stripped text, both times, and a duration equal to their difference |
| Transcript.NoChunksOnlyForSilence | model/app.py:372-373 | no chunk is returned exactly when every stripped segment text is empty |
| Transcript.ProcessAudioChunks | model/app.py:364-452 | from raw segments: no chunk exactly when every stripped text is empty; otherwise well-formed chunks numbered from 1 |
| Transcript.NonEmptyPacks | model/app.py:426-438 | packing leaves text in an emitted or the current chunk unless every segment text is empty |
| Transcript.SilencePacksNothing | model/app.py:426-441 | segments without text emit nothing and leave the current text empty |
| Transcript.EmitWellFormed | model/app.py:394-402 | an emitted chunk with text is stripped, non-empty, has both times and their difference as duration |
| Transcript.OneOverMaxChunkSize | model/app.py:392 | two stripped segments whose lengths sum to 1000 make one chunk of 1001 characters, since the test ignores the joining space |
| Transcript.FirstTwoSteps | model/app.py:426-438 | the first segment is appended to the empty chunk and the second is then packed |
| Transcript.FormatTimestampReadsBack | model/app.py:464-468 | a missing time reads "00:00"; a non-negative time reads back as ⌊s⌋ div 60 and ⌊s⌋ mod 60, both at least two digits, the minutes with no leading zero beyond two digits, the seconds below 60 |
| Transcript.FormatTimestamp | model/app.py:464-468 | computes the server's time label; characterised by FormatTimestampReadsBack and TimeLabelsAgree |
| Text.ClockReadsBack | model/app.py:467-468 | a "MM:SS" label with seconds below 60 reads back as its two numbers, with no surplus leading zero in the minutes |
| Text.TwoDigitsReadsBack | model/app.py:468 | a non-negative field is at least two digits, exactly two below 100, with no leading zero beyond two digits, and reads back as its number |
| Text.DecimalRoundTrip | model/app.py:468 | writing a natural number in decimal and reading it back gives the number |
| Text.ZeroPadValue | src/pages/ChatApp.jsx:95-98 | zero-padding a numeral keeps it all digits and keeps its value |
| Text.TrimWithSpec | model/app.py:367 | trimming removes only a white-space prefix and a white-space suffix: the result is the input from the first non-white character on, with only white space before and after it; it is empty exactly when the input is all white space, and otherwise neither starts nor ends with white space |
| Text.TrimFenceFree | src/pages/ChatApp.jsx:160-163 | trimming a fence-free text leaves it fence-free |
| Text.RemoveFencesIsFenceFree | src/pages/ChatApp.jsx:162 | removing every triple backtick leaves none, even where removals bring backticks together |
| Text.ReplaceFirstCutsAtFirst | src/pages/ChatApp.jsx:153 | replacing the suffix from the first occurrence of a character by "" leaves exactly the prefix before it |
| RagSession.Session.UploadFile | model/app.py:552-647 | no `files` field gives 400 and changes nothing; otherwise the books become those of the batch fold; a batch that goes through answers 200 with the registered names and appends its documents, creating the index when something was registered; a raised error answers 500 and stores no document |
| RagSession.Session.IngestFile | model/app.py:565-628 | one iteration of the file loop is one step of the batch fold and keeps the session invariant |
| RagSession.OutcomeCases | model/app.py:574-608 | a cache hit is always taken, every cached document attributed to the uploaded name with its text kept; without one, an unsupported extension is skipped whatever extraction would do; only an extraction exception of a supported file fails the batch; what is taken from extraction is exactly the extracted documents and never none |
| RagSession.Outcome | model/app.py:574-608 | computes the decision for a non-duplicate file; characterised by OutcomeCases |
| RagSession.UploadKind | model/app.py:597-605 | computes the extension dispatch on the lower-cased name; OggIsAudio states the `.ogg` case |
| RagSession.Session.RelabelDocs | model/app.py:581-582 | the cached documents are all attributed to the uploaded name |
| RagSession.Session.Store | model/app.py:630-638 | a batch's documents are appended and the index holds one vector per document |
| RagSession.IntakeTiles | model/app.py:616-624 | within a batch the index ranges start at the current number of documents, follow one another without gap or overlap in registration order, end at the batch's last document, and each covers exactly its file's documents |
| RagSession.IntakeRecords | model/app.py:616-628 | after a batch, the last registration of each name is recorded with its hash and index range |
| RagSession.DuplicatesSkipped | model/app.py:570-572 | files already uploaded with the same content change nothing and are not listed |
| RagSession.FailedBatchKeepsEarlierFile | model/app.py:565-647 | when a later file raises, an earlier file stays recorded with a range beyond the stored documents, and uploading it again is skipped as a duplicate |
| RagSession.IntakeStepCases | model/app.py:565-628 | a step either leaves the books and the batch's lists alone or registers the file |
| RagSession.StaysFailed | model/app.py:644-647 | once a file has raised, the rest of the batch changes nothing |
| RagSession.CandidateIds | model/app.py:670-674 | the nested loop collects exactly the ids returned by some search that are not -1 and index a stored document |
| RagSession.Session.Ask | model/app.py:651-690 | no index or an empty index gives 400 "No documents uploaded yet"; no question gives 400 "No question provided"; otherwise the fixed "nothing found" reply exactly when no id survives, else those candidates with the top-k |
| RagSession.TopKChoice | model/app.py:690 | the top-k is 3 exactly when the lower-cased question contains an image keyword, else 2, and lower-casing the question first changes nothing |
| RagSession.TopK | model/app.py:690 | computes the number of reranked documents kept; characterised by TopKChoice |
| RagSession.Session.ClearSession | model/app.py:791-802 | every document, the index and all the books are dropped |
| Consistency.TimeLabelsAgree | model/app.py:464-468 | for a non-negative time the server's `format_timestamp` and the page's `formatTime` write the same label |
| Consistency.OggIsAudio | model/app.py:602 | a `.ogg` upload is dispatched as audio |
| Consistency.OggHasArticleIcon | src/pages/ChatApp.jsx:264-266 | the page shows a `.ogg` file with the plain article icon, since its audio list lacks the extension |

## Left out

- Browser APIs are not modelled: `fetch`, `TextDecoder`, `MediaRecorder`, `getUserMedia`, `alert`, `window.open`, `setTimeout` and the modal state. Their results are inputs and their effects are recorded values.
- `JSON.parse` and `decodeURIComponent` are oracles. What an envelope's `content` holds beyond a list of citations is not checked.
- `response.json()` failing counts as a thrown error, as the `catch` treats it. A 2xx upload reply without `filenames` is not modelled.
- React rendering and the order in which queued `setState` updaters run are left out. Each handler is modelled as if nothing else touched the state while it awaits. The upload handler is also split at its `await`, so another update can run between its two halves.
- ChatStream.AskQuestion: the placeholder sits at `messages.length + 1` only when no other message was added in between. Other updates during the stream are not modelled.
- ChatVoice.VoiceCapture.TranscribeSettled: stopping a stream's tracks does not stop the recorder on it, and the `stop` event of a recorder whose stream ended is not modelled.
- The file-input reset after an upload and the scroll effect are UI-only and left out.
- Whisper, PDF, Word and image extraction, embeddings, FAISS, the reranker and the LLM are not modelled. A file's extraction result is an input (its documents, or the exception it raises). The index is represented by its size, and the reranker's order by the candidate set and the top-k.
- Cache reads and writes and `secure_filename` are not modelled. The audio file name given to the chunker is the already secured name.
- Times are exact reals, so float rounding of `start`, `end` and `duration` is not modelled.
- RagSession.TopKChoice: Python's `lower()` is modelled as ASCII lower-casing. That agrees on every input for the keywords the code looks for.
- ChatHelpers.GetFileIcon: JavaScript's `toLowerCase()` is modelled as ASCII lower-casing. That agrees for the extensions the code compares against.
- Candidates are a set, as in the server. The order in which Python iterates it, and so the reranker's input order, is not modelled.
- `expand_query`, the prompt and the streamed LLM answer are left out. The search results are the `ids` input of `Ask`.
