/**
 * The transcript chunker of the server's audio ingestion (`process_audio` in
 * model/app.py) and the `format_timestamp` label of audio citations.
 *
 * The speech recogniser is not modelled: its timed segments are the input.
 * Each segment's text is stripped, then the segments are packed, in order,
 * into chunks of about `MaxChunkSize` characters. When a chunk is closed, the
 * next one starts with an overlap of the closed chunk's last segments.
 */
module Transcript {
  import opened Common
  import opened Text

  /** A timed piece of the transcription. Times are seconds. */
  datatype Segment = Segment(text: string, start: real, end: real)

  /** One audio document as `process_audio` emits it (its `type` is always "audio"). */
  datatype AudioChunk = AudioChunk(
    text: string,
    sourceFilename: string,
    startTime: Option<real>,
    endTime: Option<real>,
    duration: real,
    pageNum: nat)

  const MaxChunkSize: nat := 1000
  const OverlapSize: nat := 150

  /** The normalisation loop: each segment's text stripped, times kept. */
  function Normalize(raw: seq<Segment>): seq<Segment> {
    seq(|raw|, i requires 0 <= i < |raw| => Segment(Strip(raw[i].text), raw[i].start, raw[i].end))
  }

  /** A stripped segment text: empty, or neither starting nor ending with white space. */
  predicate Stripped(s: string) {
    s != [] ==> !IsPySpace(s[0]) && !IsPySpace(s[|s| - 1])
  }

  /** After normalisation every segment text is stripped and the times are untouched. */
  lemma NormalizeStrips(raw: seq<Segment>)
    ensures var segs := Normalize(raw);
      |segs| == |raw|
      && forall i | 0 <= i < |segs| ::
           Stripped(segs[i].text) && segs[i].start == raw[i].start && segs[i].end == raw[i].end
  {
    forall i | 0 <= i < |raw| {
      TrimWithSpec(raw[i].text, IsPySpace);
    }
  }

  /** Total text length of some segments. */
  function TextLength(segs: seq<Segment>): nat {
    if segs == [] then 0 else TextLength(segs[..|segs| - 1]) + |segs[|segs| - 1].text|
  }

  /** The segments' texts, in order. */
  function Texts(segs: seq<Segment>): seq<string> {
    seq(|segs|, i requires 0 <= i < |segs| => segs[i].text)
  }

  // ---------------------------------------------------------------------------
  // The overlap carried into the next chunk

  /**
   * The overlap within a budget: segments taken from the end while their
   * texts still fit, stopping at the first one that does not.
   */
  function OverlapWithin(segs: seq<Segment>, budget: nat): seq<Segment> {
    if segs == [] then []
    else
      var last := segs[|segs| - 1];
      if |last.text| <= budget then OverlapWithin(segs[..|segs| - 1], budget - |last.text|) + [last]
      else []
  }

  /** The overlap of a closed chunk's segments. */
  function Overlap(segs: seq<Segment>): seq<Segment> {
    OverlapWithin(segs, OverlapSize)
  }

  /** Splitting off the first of the segments from `k` on. */
  lemma TextLengthFrom(segs: seq<Segment>, k: nat)
    requires k < |segs|
    ensures TextLength(segs[k..]) == TextLength(segs[k..|segs| - 1]) + |segs[|segs| - 1].text|
  {
    assert segs[k..][..|segs[k..]| - 1] == segs[k..|segs| - 1];
  }

  /** `r` is a suffix of `segs`. */
  predicate IsSuffix(r: seq<Segment>, segs: seq<Segment>) {
    |r| <= |segs| && r == segs[|segs| - |r|..]
  }

  /** A suffix stays a suffix when both gain the same last element. */
  lemma SuffixSnoc(r: seq<Segment>, segs: seq<Segment>, last: Segment)
    requires IsSuffix(r, segs)
    ensures IsSuffix(r + [last], segs + [last])
  {
    var t := segs + [last];
    assert t[|t| - |r| - 1..] == segs[|segs| - |r|..] + [last];
  }

  /** The overlap is a suffix of the segments, in their order, whose texts fit the budget. */
  lemma {:induction false} OverlapIsFittingSuffix(segs: seq<Segment>, budget: nat)
    ensures var r := OverlapWithin(segs, budget);
      IsSuffix(r, segs) && TextLength(r) <= budget
  {
    if segs != [] {
      var init, last := segs[..|segs| - 1], segs[|segs| - 1];
      assert segs == init + [last];
      if |last.text| <= budget {
        var b' := budget - |last.text|;
        OverlapIsFittingSuffix(init, b');
        var r' := OverlapWithin(init, b');
        assert OverlapWithin(segs, budget) == r' + [last];
        assert (r' + [last])[..|r'|] == r';
        SuffixSnoc(r', init, last);
      } else {
        assert OverlapWithin(segs, budget) == [];
      }
    }
  }

  /**
   * The overlap is the longest such suffix: every suffix whose texts fit the
   * budget is no longer than the overlap.
   */
  lemma {:induction false} OverlapIsLongest(segs: seq<Segment>, budget: nat, k: nat)
    requires k <= |segs| && TextLength(segs[k..]) <= budget
    ensures |segs| - k <= |OverlapWithin(segs, budget)|
  {
    if k < |segs| {
      var init, last := segs[..|segs| - 1], segs[|segs| - 1];
      TextLengthFrom(segs, k);
      assert segs[k..|segs| - 1] == init[k..];
      OverlapIsLongest(init, budget - |last.text|, k);
    }
  }

  /**
   * Building the overlap as the server does: walk the closed chunk's
   * segments from the last one back, putting each in front while the running
   * length stays within `OverlapSize`, and stop at the first that does not fit.
   */
  method BuildOverlap(segments: seq<Segment>) returns (overlap: seq<Segment>)
    ensures overlap == Overlap(segments)
  {
    overlap := [];
    var overlapLength := 0;
    var j := |segments|;
    var stopped := false;
    assert segments[..j] == segments;
    while j > 0 && !stopped
      invariant 0 <= j <= |segments|
      invariant overlap == segments[j..]
      invariant overlapLength == TextLength(overlap) <= OverlapSize
      invariant OverlapWithin(segments, OverlapSize) == OverlapWithin(segments[..j], OverlapSize - overlapLength) + overlap
      invariant stopped ==> OverlapWithin(segments[..j], OverlapSize - overlapLength) == []
      decreases j, if stopped then 0 else 1
    {
      var prev := segments[j - 1];
      OverlapWithinStep(segments, j, OverlapSize - overlapLength);
      if overlapLength + |prev.text| <= OverlapSize {
        OverlapLoopStep(segments, j, overlap, overlapLength);
        overlap := [prev] + overlap;
        overlapLength := overlapLength + |prev.text|;
        j := j - 1;
      } else {
        stopped := true;
      }
    }
    assert segments[..0] == [];
  }

  /** The overlap of the first `j` segments, in terms of the overlap of the first `j - 1`. */
  lemma OverlapWithinStep(segs: seq<Segment>, j: nat, budget: nat)
    requires 0 < j <= |segs|
    ensures OverlapWithin(segs[..j], budget) ==
      if |segs[j - 1].text| <= budget then OverlapWithin(segs[..j - 1], budget - |segs[j - 1].text|) + [segs[j - 1]]
      else []
  {
    assert segs[..j][..j - 1] == segs[..j - 1];
  }

  /** One iteration of the overlap loop that takes the segment before the overlap. */
  lemma OverlapLoopStep(segments: seq<Segment>, j: nat, overlap: seq<Segment>, overlapLength: nat)
    requires 0 < j <= |segments| && overlap == segments[j..] && overlapLength == TextLength(overlap)
    requires overlapLength + |segments[j - 1].text| <= OverlapSize
    requires OverlapWithin(segments, OverlapSize) == OverlapWithin(segments[..j], OverlapSize - overlapLength) + overlap
    ensures var taken := [segments[j - 1]] + overlap; var takenLength := overlapLength + |segments[j - 1].text|;
      taken == segments[j - 1..] && takenLength == TextLength(taken)
      && OverlapWithin(segments, OverlapSize) == OverlapWithin(segments[..j - 1], OverlapSize - takenLength) + taken
  {
    var prev := segments[j - 1];
    var rest := OverlapWithin(segments[..j - 1], OverlapSize - overlapLength - |prev.text|);
    OverlapWithinStep(segments, j, OverlapSize - overlapLength);
    assert OverlapWithin(segments[..j], OverlapSize - overlapLength) == rest + [prev];
    assert (rest + [prev]) + overlap == rest + ([prev] + overlap);
    assert [prev] + overlap == segments[j - 1..];
    TextLengthPrepend(prev, overlap);
  }

  /** Putting a segment in front adds its text length. */
  lemma {:induction false} TextLengthPrepend(s: Segment, segs: seq<Segment>)
    ensures TextLength([s] + segs) == |s.text| + TextLength(segs)
  {
    if segs != [] {
      assert ([s] + segs)[..|segs|] == [s] + segs[..|segs| - 1];
      TextLengthPrepend(s, segs[..|segs| - 1]);
    }
  }

  // ---------------------------------------------------------------------------
  // Packing segments into chunks

  /** `current_chunk`: the chunk being filled. `current_length` is always `|text|`. */
  datatype Current = Current(text: string, startTime: Option<real>, endTime: Option<real>, segments: seq<Segment>)

  const Empty := Current("", None, None, [])

  /** The loop's state: the chunks emitted so far and the chunk being filled. */
  datatype Chunker = Chunker(emitted: seq<AudioChunk>, current: Current)

  /** The emitted form of a chunk: stripped text, times, duration and page number. */
  function Emit(c: Current, filename: string, pageNum: nat): AudioChunk {
    var duration := if c.startTime.Some? && c.endTime.Some? then c.endTime.value - c.startTime.value else 0.0;
    AudioChunk(Strip(c.text), filename, c.startTime, c.endTime, duration, pageNum)
  }

  /** A segment would push the current chunk over `MaxChunkSize` and the chunk has text. */
  predicate Overflows(c: Current, seg: Segment) {
    |c.text| + |seg.text| > MaxChunkSize && c.text != ""
  }

  /**
   * The chunk that follows a closed one: the overlap of the closed chunk's
   * segments, then the segment that did not fit; its text is their texts
   * joined by single spaces and stripped, its times those of its first and
   * last segment.
   */
  function Reopen(closed: Current, seg: Segment): Current {
    var segs := Overlap(closed.segments) + [seg];
    Current(Strip(JoinWith(Texts(segs), " ")), Some(segs[0].start), Some(segs[|segs| - 1].end), segs)
  }

  /** The segment added to the current chunk. */
  function Append(c: Current, seg: Segment): Current {
    Current(
      if c.text != "" then c.text + " " + seg.text else seg.text,
      if c.startTime.None? then Some(seg.start) else c.startTime,
      Some(seg.end),
      c.segments + [seg])
  }

  /** One iteration of the packing loop. */
  function Step(st: Chunker, seg: Segment, filename: string): Chunker {
    if Overflows(st.current, seg) then
      Chunker(st.emitted + [Emit(st.current, filename, |st.emitted| + 1)], Reopen(st.current, seg))
    else Chunker(st.emitted, Append(st.current, seg))
  }

  /** The loop's state after the segments `segs`. */
  function StepAll(segs: seq<Segment>, filename: string): Chunker {
    if segs == [] then Chunker([], Empty) else Step(StepAll(segs[..|segs| - 1], filename), segs[|segs| - 1], filename)
  }

  /** The chunks `process_audio` returns for the normalised segments `segs`. */
  function TranscriptChunks(segs: seq<Segment>, filename: string): seq<AudioChunk> {
    if segs == [] then []
    else
      var st := StepAll(segs, filename);
      if st.current.text != "" then st.emitted + [Emit(st.current, filename, |st.emitted| + 1)] else st.emitted
  }

  /** One more segment extends the fold by one step. */
  lemma StepAllSnoc(segs: seq<Segment>, i: nat, filename: string)
    requires i < |segs|
    ensures StepAll(segs[..i + 1], filename) == Step(StepAll(segs[..i], filename), segs[i], filename)
  {
    assert segs[..i + 1][..i] == segs[..i];
  }

  /** One iteration of the packing loop on the loop's variables. */
  method PackSegment(chunkData: seq<AudioChunk>, current: Current, currentLength: nat, segment: Segment, filename: string)
    returns (newChunkData: seq<AudioChunk>, newCurrent: Current, newLength: nat)
    requires currentLength == |current.text|
    ensures Chunker(newChunkData, newCurrent) == Step(Chunker(chunkData, current), segment, filename)
    ensures newLength == |newCurrent.text|
  {
    var segmentLength := |segment.text|;
    if currentLength + segmentLength > MaxChunkSize && current.text != "" {
      newChunkData := chunkData + [Emit(current, filename, |chunkData| + 1)];
      var overlapSegments := BuildOverlap(current.segments);
      var newSegments := overlapSegments + [segment];
      var newText := Strip(JoinWith(Texts(newSegments), " "));
      newCurrent := Current(newText, Some(newSegments[0].start), Some(newSegments[|newSegments| - 1].end), newSegments);
    } else {
      newChunkData := chunkData;
      var startTime := current.startTime;
      if startTime.None? {
        startTime := Some(segment.start);
      }
      var text := if current.text != "" then current.text + " " + segment.text else segment.text;
      newCurrent := Current(text, startTime, Some(segment.end), current.segments + [segment]);
    }
    newLength := |newCurrent.text|;
  }

  /** Normalising one more segment appends its stripped form. */
  lemma NormalizeSnoc(raw: seq<Segment>, n: nat)
    requires n < |raw|
    ensures Normalize(raw[..n + 1]) == Normalize(raw[..n]) + [Segment(Strip(raw[n].text), raw[n].start, raw[n].end)]
  {
    assert forall i | 0 <= i < n :: raw[..n + 1][i] == raw[..n][i];
  }

  /** The normalisation loop of `process_audio`. */
  method NormalizeSegments(raw: seq<Segment>) returns (timedSegments: seq<Segment>)
    ensures timedSegments == Normalize(raw)
  {
    timedSegments := [];
    var n := 0;
    while n < |raw|
      invariant 0 <= n <= |raw|
      invariant timedSegments == Normalize(raw[..n])
    {
      NormalizeSnoc(raw, n);
      timedSegments := timedSegments + [Segment(Strip(raw[n].text), raw[n].start, raw[n].end)];
      n := n + 1;
    }
    assert raw[..n] == raw;
  }

  /**
   * `process_audio` after transcription: normalise the segments, return []
   * when there are none, pack them, and emit the last chunk when it has text.
   */
  method ProcessAudio(raw: seq<Segment>, filename: string) returns (chunkData: seq<AudioChunk>)
    ensures chunkData == TranscriptChunks(Normalize(raw), filename)
    ensures raw == [] ==> chunkData == []
  {
    var timedSegments := NormalizeSegments(raw);
    if timedSegments == [] {
      return [];
    }

    chunkData := [];
    var current := Empty;
    var currentLength := 0;
    var i := 0;
    while i < |timedSegments|
      invariant 0 <= i <= |timedSegments|
      invariant Chunker(chunkData, current) == StepAll(timedSegments[..i], filename)
      invariant currentLength == |current.text|
    {
      StepAllSnoc(timedSegments, i, filename);
      chunkData, current, currentLength := PackSegment(chunkData, current, currentLength, timedSegments[i], filename);
      i := i + 1;
    }
    assert timedSegments[..i] == timedSegments;
    if current.text != "" {
      chunkData := chunkData + [Emit(current, filename, |chunkData| + 1)];
    }
  }

  // ---------------------------------------------------------------------------
  // What the packing guarantees

  /** An emitted chunk: non-empty stripped text, both times set, duration their difference. */
  predicate WellFormedChunk(c: AudioChunk) {
    c.text != [] && Stripped(c.text)
    && c.startTime.Some? && c.endTime.Some? && c.duration == c.endTime.value - c.startTime.value
  }

  /**
   * The state the packing loop keeps: the emitted chunks are numbered and
   * well-formed; the current chunk has no times while it has no segment and
   * otherwise runs from its first segment's start to its last segment's end;
   * its text, when there is some, does not start with white space.
   */
  predicate Consistent(st: Chunker) {
    var c := st.current;
    (forall i | 0 <= i < |st.emitted| :: st.emitted[i].pageNum == i + 1 && WellFormedChunk(st.emitted[i]))
    && (c.segments == [] ==> c.startTime.None? && c.endTime.None?)
    && (c.segments != [] ==>
          c.startTime == Some(c.segments[0].start) && c.endTime == Some(c.segments[|c.segments| - 1].end))
    && (c.text != [] ==> c.segments != [] && !IsPySpace(c.text[0]))
  }

  /** Emitting a chunk with text gives a well-formed chunk. */
  lemma EmitWellFormed(c: Current, filename: string, pageNum: nat)
    requires c.text != [] && !IsPySpace(c.text[0])
    requires c.startTime.Some? && c.endTime.Some?
    ensures WellFormedChunk(Emit(c, filename, pageNum))
  {
    TrimWithSpec(c.text, IsPySpace);
  }

  /** One step keeps the state consistent. */
  lemma StepConsistent(st: Chunker, seg: Segment, filename: string)
    requires Consistent(st) && Stripped(seg.text)
    ensures Consistent(Step(st, seg, filename))
  {
    var c := st.current;
    if Overflows(c, seg) {
      EmitWellFormed(c, filename, |st.emitted| + 1);
      var segs := Overlap(c.segments) + [seg];
      TrimWithSpec(JoinWith(Texts(segs), " "), IsPySpace);
    } else {
      var n := Append(c, seg);
      if c.text != "" {
        assert n.text[0] == c.text[0];
      }
    }
  }

  /** Every state the loop reaches is consistent. */
  lemma {:induction false} StepAllConsistent(segs: seq<Segment>, filename: string)
    requires forall i | 0 <= i < |segs| :: Stripped(segs[i].text)
    ensures Consistent(StepAll(segs, filename))
  {
    if segs != [] {
      StepAllConsistent(segs[..|segs| - 1], filename);
      StepConsistent(StepAll(segs[..|segs| - 1], filename), segs[|segs| - 1], filename);
    }
  }

  /**
   * The chunks of a recording are numbered 1, 2, ..., n in the order they
   * are emitted, each has non-empty stripped text and both times, and its
   * duration is the difference of its times.
   */
  lemma ChunksNumberedAndTimed(segs: seq<Segment>, filename: string)
    requires forall i | 0 <= i < |segs| :: Stripped(segs[i].text)
    ensures var chunks := TranscriptChunks(segs, filename);
      forall i | 0 <= i < |chunks| :: chunks[i].pageNum == i + 1 && WellFormedChunk(chunks[i])
  {
    if segs != [] {
      StepAllConsistent(segs, filename);
      var st := StepAll(segs, filename);
      StepStartsTimes(StepAll(segs[..|segs| - 1], filename), segs[|segs| - 1], filename);
      if st.current.text != "" {
        EmitWellFormed(st.current, filename, |st.emitted| + 1);
      }
    }
  }

  /**
   * A recording yields no chunk exactly when every stripped segment text is
   * empty (in particular when there are no segments).
   */
  lemma NoChunksOnlyForSilence(segs: seq<Segment>, filename: string)
    requires forall i | 0 <= i < |segs| :: Stripped(segs[i].text)
    ensures TranscriptChunks(segs, filename) == [] <==> forall i | 0 <= i < |segs| :: segs[i].text == []
  {
    if segs != [] {
      NonEmptyPacks(segs, filename);
      if forall i | 0 <= i < |segs| :: segs[i].text == [] {
        SilencePacksNothing(segs, filename);
      }
    }
  }

  /** Segments without text leave nothing emitted and the current chunk without text. */
  lemma {:induction false} SilencePacksNothing(segs: seq<Segment>, filename: string)
    requires forall i | 0 <= i < |segs| :: segs[i].text == []
    ensures StepAll(segs, filename).emitted == [] && StepAll(segs, filename).current.text == []
  {
    if segs != [] {
      SilencePacksNothing(segs[..|segs| - 1], filename);
    }
  }

  /** The whole server path: raw segments in, well-formed numbered chunks out; none only for silence. */
  lemma ProcessAudioChunks(raw: seq<Segment>, filename: string)
    ensures var chunks := TranscriptChunks(Normalize(raw), filename);
      (chunks == [] <==> forall i | 0 <= i < |raw| :: Strip(raw[i].text) == [])
      && forall i | 0 <= i < |chunks| :: chunks[i].pageNum == i + 1 && WellFormedChunk(chunks[i])
  {
    NormalizeStrips(raw);
    ChunksNumberedAndTimed(Normalize(raw), filename);
    NoChunksOnlyForSilence(Normalize(raw), filename);
  }

  /**
   * A step emits a chunk exactly when the segment overflows a chunk with
   * text; the emitted chunk is the closed one, numbered next. The new chunk
   * then holds the longest suffix of the closed chunk's segments whose texts
   * fit in `OverlapSize` characters, in their order, followed by the
   * segment; its text is their texts joined by single spaces and stripped,
   * and it runs from its first segment's start to the segment's end.
   * Otherwise the segment joins the current chunk: its text follows a single
   * space (or is the whole text of a chunk without text), a start time once
   * set is kept, and the end time becomes the segment's end.
   */
  lemma StepFlushesOnOverflow(st: Chunker, seg: Segment, filename: string)
    ensures var n := Step(st, seg, filename);
      (Overflows(st.current, seg) <==> |n.emitted| == |st.emitted| + 1)
      && (!Overflows(st.current, seg) ==> n.emitted == st.emitted)
    ensures !Overflows(st.current, seg) ==>
      var c, n := st.current, Step(st, seg, filename).current;
      n.segments == c.segments + [seg]
      && (c.text == "" ==> n.text == seg.text)
      && (c.text != "" ==> n.text == c.text + " " + seg.text)
      && (c.startTime.Some? ==> n.startTime == c.startTime)
      && (c.startTime.None? ==> n.startTime == Some(seg.start))
      && n.endTime == Some(seg.end)
    ensures Overflows(st.current, seg) ==>
      var n := Step(st, seg, filename);
      var closed := st.current.segments;
      var segs := n.current.segments;
      n.emitted == st.emitted + [Emit(st.current, filename, |st.emitted| + 1)]
      && |segs| >= 1 && segs[|segs| - 1] == seg
      && IsSuffix(segs[..|segs| - 1], closed) && TextLength(segs[..|segs| - 1]) <= OverlapSize
      && (forall k | 0 <= k <= |closed| && TextLength(closed[k..]) <= OverlapSize :: |closed| - k <= |segs| - 1)
      && n.current.text == Strip(JoinWith(Texts(segs), " "))
      && n.current.startTime == Some(segs[0].start) && n.current.endTime == Some(seg.end)
  {
    if Overflows(st.current, seg) {
      var n := Step(st, seg, filename);
      var ov := Overlap(st.current.segments);
      assert n.current.segments[..|n.current.segments| - 1] == ov;
      OverlapIsFittingSuffix(st.current.segments, OverlapSize);
      forall k | 0 <= k <= |st.current.segments| && TextLength(st.current.segments[k..]) <= OverlapSize
        ensures |st.current.segments| - k <= |ov|
      {
        OverlapIsLongest(st.current.segments, OverlapSize, k);
      }
    }
  }

  /** After any step the current chunk has both times. */
  lemma StepStartsTimes(st: Chunker, seg: Segment, filename: string)
    ensures var n := Step(st, seg, filename).current; n.startTime.Some? && n.endTime.Some?
  {
  }

  /**
   * Packing leaves text somewhere, in an emitted chunk or in the current
   * one, unless every segment text is empty.
   */
  lemma {:induction false} NonEmptyPacks(segs: seq<Segment>, filename: string)
    requires forall i | 0 <= i < |segs| :: Stripped(segs[i].text)
    ensures var st := StepAll(segs, filename);
      st.emitted == [] && st.current.text == [] ==> forall i | 0 <= i < |segs| :: segs[i].text == []
  {
    if segs != [] {
      var init := segs[..|segs| - 1];
      NonEmptyPacks(init, filename);
      var prev := StepAll(init, filename);
      var st := StepAll(segs, filename);
      if st.emitted == [] && st.current.text == [] {
        assert !Overflows(prev.current, segs[|segs| - 1]);
        assert prev.emitted == [] && prev.current.text == [];
        assert forall i | 0 <= i < |init| :: segs[i] == init[i];
      }
    }
  }

  /** The fold over two segments: the first one is appended to the empty chunk, then the second is packed. */
  lemma FirstTwoSteps(a: Segment, b: Segment, filename: string)
    ensures StepAll([a], filename) == Chunker([], Current(a.text, Some(a.start), Some(a.end), [a]))
    ensures StepAll([a, b], filename) == Step(StepAll([a], filename), b, filename)
  {
    assert [a][..0] == [];
    assert !Overflows(Empty, a);
    assert StepAll([a], filename) == Step(Chunker([], Empty), a, filename);
    assert [a, b][..1] == [a];
  }

  /**
   * A chunk can exceed `MaxChunkSize` by one: the test compares the current
   * length plus the segment's length with the limit, but appending also adds
   * a space. Two segments whose texts total exactly 1000 characters make one
   * chunk of 1001.
   */
  lemma OneOverMaxChunkSize(a: Segment, b: Segment, filename: string)
    requires a.text != [] && b.text != [] && Stripped(a.text) && Stripped(b.text)
    requires |a.text| + |b.text| == MaxChunkSize
    ensures var chunks := TranscriptChunks([a, b], filename);
      |chunks| == 1 && chunks[0].text == a.text + " " + b.text && |chunks[0].text| == MaxChunkSize + 1
      && chunks[0].startTime == Some(a.start) && chunks[0].endTime == Some(b.end)
  {
    var t := a.text + " " + b.text;
    var first := Current(a.text, Some(a.start), Some(a.end), [a]);
    FirstTwoSteps(a, b, filename);
    assert StepAll([a, b], filename) == Chunker([], Current(t, Some(a.start), Some(b.end), [a, b]));
    TrimWithKeepsTrimmed(t, IsPySpace);
  }

  // ---------------------------------------------------------------------------
  // Time labels

  /**
   * `format_timestamp(seconds)`: "00:00" for a missing time; otherwise
   * `int(seconds)` (truncated toward zero) split by `divmod(_, 60)` (floored,
   * as Dafny's `/` and `%` by a positive divisor are), each field formatted
   * with `02d`.
   */
  function FormatTimestamp(seconds: Option<real>): string {
    match seconds
    case None => "00:00"
    case Some(s) =>
      var whole := Trunc(s);
      Clock(whole / 60, whole % 60)
  }

  /**
   * A missing time reads "00:00"; a non-negative time reads back as its whole
   * minutes and its remaining whole seconds, the latter below 60.
   */
  lemma FormatTimestampReadsBack(s: real)
    requires s >= 0.0
    ensures FormatTimestamp(None) == "00:00"
    ensures ReadsBackAs(FormatTimestamp(Some(s)), s.Floor / 60, s.Floor % 60)
  {
    ClockReadsBack(s.Floor / 60, s.Floor % 60);
  }
}
