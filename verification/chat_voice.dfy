/**
 * Voice questions on the chat page (src/pages/ChatApp.jsx,
 * `handleVoiceButton`). The button toggles recording: when not recording it
 * asks for the microphone, and once access is granted it keeps the stream and
 * a new recorder in two refs, empties the chunk list and starts recording;
 * when recording it stops the recorder in the ref. The recorder's stop event
 * sends the chunks to `/transcribe`; once the reply is read, the transcript
 * becomes the question (or an alert shows the error) and the tracks of the
 * stream in the ref at that moment are stopped.
 *
 * The browser is represented by the events the handler reacts to: the
 * answer to the microphone request, the recorder's stop event and the answer
 * of `/transcribe` each become a method, called in any order the browser
 * could produce. A stream and the recorder made for it share one number.
 */
module ChatVoice {
  import opened Common

  /** One `dataavailable` blob. */
  type Chunk = seq<bv8>

  /** How reading the `/transcribe` reply ends. */
  datatype TranscribeOutcome = Transcribed(transcription: string) | Failed(error: string) | Thrown

  const MicrophoneErrorPrefix := "Error accessing microphone: "
  const TranscribeErrorPrefix := "Error: "

  class VoiceCapture {
    var isRecording: bool
    var streamRef: Option<nat>      // streamRef.current
    var recorderRef: Option<nat>    // mediaRecorderRef.current; recorder n records stream n
    var chunks: seq<Chunk>          // audioChunksRef.current
    var requested: nat              // microphone requests not answered yet
    var recording: set<nat>         // recorders that are recording
    var stopping: set<nat>          // recorders asked to stop whose stop event has not fired yet
    var live: set<nat>              // streams whose tracks still run
    var inFlight: seq<seq<Chunk>>   // recordings sent to /transcribe and not answered yet
    var questionInput: string
    var alerts: seq<string>
    var nextId: nat                 // the number of streams granted so far

    /**
     * Both refs name the same, already granted stream; every recorder and
     * stream was granted; a recorder is never both recording and stopping;
     * while the button shows "recording" the recorder in the ref records.
     */
    predicate Valid()
      reads this
    {
      streamRef == recorderRef
      && (streamRef.Some? ==> streamRef.value < nextId)
      && (forall n | n in recording :: n < nextId)
      && (forall n | n in stopping :: n < nextId)
      && (forall n | n in live :: n < nextId)
      && recording !! stopping
      && (isRecording ==> recorderRef.Some? && recorderRef.value in recording)
    }

    /** A recorder that records but is no longer in the ref: no press of the button can stop it. */
    predicate Abandoned(n: nat)
      reads this
    {
      n in recording && recorderRef != Some(n)
    }

    constructor ()
      ensures Valid()
      ensures !isRecording && streamRef == None && recorderRef == None && chunks == []
      ensures requested == 0 && recording == {} && stopping == {} && live == {} && inFlight == []
      ensures questionInput == "" && alerts == [] && nextId == 0
    {
      isRecording := false;
      streamRef, recorderRef := None, None;
      chunks := [];
      requested := 0;
      recording, stopping, live := {}, {}, {};
      inFlight := [];
      questionInput := "";
      alerts := [];
      nextId := 0;
    }

    /**
     * A press of the button. While recording, the recorder in the ref is
     * asked to stop and the button goes back; otherwise the microphone is
     * requested and nothing else changes until the answer.
     */
    method Press()
      requires Valid()
      modifies this
      ensures Valid()
      ensures old(isRecording) ==>
        !isRecording && recording == old(recording) - {old(recorderRef).value}
        && stopping == old(stopping) + {old(recorderRef).value} && requested == old(requested)
      ensures !old(isRecording) ==>
        isRecording == old(isRecording) && recording == old(recording) && stopping == old(stopping)
        && requested == old(requested) + 1
      ensures streamRef == old(streamRef) && recorderRef == old(recorderRef) && chunks == old(chunks)
      ensures live == old(live) && inFlight == old(inFlight) && nextId == old(nextId)
      ensures questionInput == old(questionInput) && alerts == old(alerts)
      ensures forall n :: old(Abandoned(n)) ==> Abandoned(n)
    {
      if isRecording {
        if recorderRef.Some? {
          var r := recorderRef.value;
          recording := recording - {r};
          stopping := stopping + {r};
        }
        isRecording := false;
      } else {
        requested := requested + 1;
      }
    }

    /**
     * The microphone is granted: the new stream and its recorder replace the
     * refs, whatever they held, the chunk list is emptied and recording starts.
     */
    method MicrophoneGranted()
      requires Valid() && requested > 0
      modifies this
      ensures Valid()
      ensures streamRef == Some(old(nextId)) && recorderRef == Some(old(nextId)) && nextId == old(nextId) + 1
      ensures isRecording && chunks == [] && requested == old(requested) - 1
      ensures recording == old(recording) + {old(nextId)} && live == old(live) + {old(nextId)}
      ensures stopping == old(stopping) && inFlight == old(inFlight)
      ensures questionInput == old(questionInput) && alerts == old(alerts)
      ensures forall n :: old(Abandoned(n)) ==> Abandoned(n)
    {
      var n := nextId;
      nextId := nextId + 1;
      requested := requested - 1;
      streamRef := Some(n);
      recorderRef := Some(n);
      chunks := [];
      live := live + {n};
      recording := recording + {n};
      isRecording := true;
      forall m | old(Abandoned(m)) ensures Abandoned(m) {
        assert m < n;
      }
    }

    /** The microphone request fails: an alert with the error's message, nothing else. */
    method MicrophoneDenied(message: string)
      requires Valid() && requested > 0
      modifies this
      ensures Valid()
      ensures requested == old(requested) - 1 && alerts == old(alerts) + [MicrophoneErrorPrefix + message]
      ensures isRecording == old(isRecording) && streamRef == old(streamRef) && recorderRef == old(recorderRef)
      ensures chunks == old(chunks) && recording == old(recording) && stopping == old(stopping)
      ensures live == old(live) && inFlight == old(inFlight) && nextId == old(nextId)
      ensures questionInput == old(questionInput)
    {
      requested := requested - 1;
      alerts := alerts + [MicrophoneErrorPrefix + message];
    }

    /**
     * Recorder `n` delivers its last data and fires its stop event: the data
     * joins the chunk list in the ref, and the whole list is sent.
     */
    method RecorderStopped(n: nat, data: Chunk)
      requires Valid() && n in stopping
      modifies this
      ensures Valid()
      ensures chunks == old(chunks) + [data] && inFlight == old(inFlight) + [chunks]
      ensures stopping == old(stopping) - {n}
      ensures isRecording == old(isRecording) && streamRef == old(streamRef) && recorderRef == old(recorderRef)
      ensures requested == old(requested) && recording == old(recording) && live == old(live)
      ensures nextId == old(nextId) && questionInput == old(questionInput) && alerts == old(alerts)
    {
      chunks := chunks + [data];
      inFlight := inFlight + [chunks];
      stopping := stopping - {n};
    }

    /**
     * The reply to the `k`-th pending transcription is read. A transcript
     * becomes the question; an error reply raises an alert; in both cases the
     * tracks of the stream in the ref NOW are stopped. A thrown error ends the
     * handler before anything of that.
     */
    method TranscribeSettled(k: nat, outcome: TranscribeOutcome)
      requires Valid() && k < |inFlight|
      modifies this
      ensures Valid()
      ensures inFlight == old(inFlight[..k] + inFlight[k + 1..])
      ensures outcome.Transcribed? ==> questionInput == outcome.transcription && alerts == old(alerts)
      ensures outcome.Failed? ==> questionInput == old(questionInput) && alerts == old(alerts) + [TranscribeErrorPrefix + outcome.error]
      ensures outcome.Thrown? ==> questionInput == old(questionInput) && alerts == old(alerts) && live == old(live)
      ensures !outcome.Thrown? ==> live == if old(streamRef).Some? then old(live) - {old(streamRef).value} else old(live)
      ensures isRecording == old(isRecording) && streamRef == old(streamRef) && recorderRef == old(recorderRef)
      ensures chunks == old(chunks) && requested == old(requested) && recording == old(recording)
      ensures stopping == old(stopping) && nextId == old(nextId)
    {
      inFlight := inFlight[..k] + inFlight[k + 1..];
      match outcome {
        case Transcribed(t) => questionInput := t;
        case Failed(e) => alerts := alerts + [TranscribeErrorPrefix + e];
        case Thrown => return;
      }
      if streamRef.Some? {
        live := live - {streamRef.value};
      }
    }
  }

  // ---------------------------------------------------------------------------
  // Runs of the button

  /**
   * One recording from start to end: the recorded data is what gets sent,
   * the transcript becomes the question, and afterwards no recorder records
   * and no stream runs.
   */
  method OneRecording(data: Chunk, transcript: string) returns (v: VoiceCapture)
    ensures v.Valid()
    ensures v.questionInput == transcript && v.alerts == [] && !v.isRecording
    ensures v.recording == {} && v.stopping == {} && v.live == {} && v.inFlight == []
  {
    v := new VoiceCapture();
    v.Press();
    v.MicrophoneGranted();
    v.Press();
    v.RecorderStopped(0, data);
    v.TranscribeSettled(0, Transcribed(transcript));
  }

  /**
   * Two presses before the microphone answers give two grants: the first
   * recorder is dropped from the ref while recording, so the next press stops
   * only the second one and the first keeps the microphone open for good.
   */
  method DoublePressLeavesRecorderRunning() returns (v: VoiceCapture)
    ensures v.Valid()
    ensures !v.isRecording && v.recorderRef == Some(1)
    ensures v.Abandoned(0) && 0 in v.live && v.stopping == {1}
  {
    v := new VoiceCapture();
    v.Press();
    v.Press();
    v.MicrophoneGranted();
    v.MicrophoneGranted();
    v.Press();
  }

  /**
   * A transcription answered after the next recording started stops the
   * tracks of the new stream, the one in the ref, while the stream it was
   * recorded on keeps running.
   */
  method LateReplyStopsNewStream(data: Chunk, transcript: string) returns (v: VoiceCapture)
    ensures v.Valid()
    ensures v.streamRef == Some(1) && v.recorderRef == Some(1)
    ensures 1 !in v.live && 0 in v.live
    ensures v.questionInput == transcript
  {
    v := new VoiceCapture();
    v.Press();
    v.MicrophoneGranted();
    v.Press();
    v.RecorderStopped(0, data);
    v.Press();
    v.MicrophoneGranted();
    v.TranscribeSettled(0, Transcribed(transcript));
  }
}
