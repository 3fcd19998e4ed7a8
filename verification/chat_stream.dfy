/**
 * How the chat page turns a streamed answer into the message list
 * (`askQuestion` in src/pages/ChatApp.jsx). The answer arrives as text
 * fragments; a trailing JSON envelope `{"type": "sources", "content": [...]}`
 * carries the citations. `JSON.parse` is a parameter (`parse`, None meaning it
 * throws), and the network reply is an input value.
 */
module ChatStream {
  import opened Common
  import opened Text
  import opened ChatCitations

  datatype Sender = User | System

  /** One chat message. Absent fields (`sources`, `isStreaming`) are None. */
  datatype Message = Message(sender: Sender, content: string, sources: Option<seq<Source>>, isStreaming: Option<bool>)

  /** What `JSON.parse` yields for an envelope: its `type` (when a string) and its `content`. */
  datatype Parsed = Parsed(kind: Option<string>, content: seq<Source>)

  function UserMessage(question: string): Message {
    Message(User, question, None, None)
  }

  const Thinking := Message(System, "Thinking...", None, Some(true))

  function StreamingMessage(content: string, sources: seq<Source>): Message {
    Message(System, content, Some(sources), Some(true))
  }

  function FinalMessage(content: string, sources: seq<Source>): Message {
    Message(System, content, Some(sources), Some(false))
  }

  function ErrorMessage(message: string): Message {
    Message(System, "Error: " + message, None, None)
  }

  const NotSupported := Message(System, "Streaming not supported!", None, None)

  // ---------------------------------------------------------------------------
  // Envelope detection

  /**
   * The pattern `/\{[\s\S]*\}$/` matches starting at index `i`: a '{' there,
   * any characters, and a '}' that is the last character of the buffer.
   */
  predicate MatchesAt(b: string, i: int) {
    0 <= i && i + 2 <= |b| && b[i] == '{' && b[|b| - 1] == '}'
  }

  /** Where `buffer.match(/\{[\s\S]*\}$/)` finds its match, if anywhere: at the first '{' of a buffer ending in '}'. */
  function EnvelopeStart(b: string): Option<nat> {
    if |b| > 0 && b[|b| - 1] == '}' then IndexOfFrom(b, "{", 0) else None
  }

  /** That is the leftmost match of the pattern, and there is none when it gives None. */
  lemma EnvelopeStartIsLeftmostMatch(b: string)
    ensures var r := EnvelopeStart(b);
      (r.Some? ==> MatchesAt(b, r.value) && forall j | 0 <= j < r.value :: !MatchesAt(b, j) && b[j] != '{')
      && (r.None? ==> forall j :: !MatchesAt(b, j))
  {
    var r := EnvelopeStart(b);
    if |b| > 0 && b[|b| - 1] == '}' {
      if r.Some? {
        assert OccursAt(b, "{", r.value);
        assert forall j | 0 <= j < r.value :: !OccursAt(b, "{", j) && (b[j] == '{' ==> OccursAt(b, "{", j));
      } else {
        assert forall j | 0 <= j < |b| :: !OccursAt(b, "{", j) && (b[j] == '{' ==> OccursAt(b, "{", j));
      }
    }
  }

  /** The parse result is a sources envelope (`parsed.type === "sources"`). */
  predicate IsSources(p: Option<Parsed>) {
    p.Some? && p.value.kind == Some("sources")
  }

  /**
   * One detection step: when the match parses as a sources envelope, its
   * content becomes the citations and the matched text is removed from the
   * buffer (`buffer.replace(jsonMatch[0], "")`), which leaves exactly the text
   * before the first '{'. Otherwise nothing changes.
   */
  function Detect(buffer: string, sources: seq<Source>, parse: string -> Option<Parsed>): (string, seq<Source>) {
    match EnvelopeStart(buffer)
    case None => (buffer, sources)
    case Some(k) =>
      var parsed := parse(buffer[k..]);
      if IsSources(parsed) then (ReplaceFirst(buffer, buffer[k..], ""), parsed.value.content)
      else (buffer, sources)
  }

  /**
   * Detection fires only on a buffer that ends with '}' and contains a '{'.
   * A sources envelope from the first '{' on replaces the citations and cuts
   * the buffer back to the text before that '{'; a parse failure or another
   * type leaves both unchanged.
   */
  lemma DetectCutsAtFirstBrace(buffer: string, sources: seq<Source>, parse: string -> Option<Parsed>)
    ensures var r := Detect(buffer, sources, parse);
      (EnvelopeStart(buffer).None? ==> r == (buffer, sources))
      && (EnvelopeStart(buffer).None? <==> !(|buffer| > 0 && buffer[|buffer| - 1] == '}' && '{' in buffer))
      && (EnvelopeStart(buffer).Some? ==>
            var k := EnvelopeStart(buffer).value;
            buffer[k] == '{' && '{' !in buffer[..k]
            && if IsSources(parse(buffer[k..])) then r == (buffer[..k], parse(buffer[k..]).value.content)
               else r == (buffer, sources))
  {
    EnvelopeStartIsLeftmostMatch(buffer);
    match EnvelopeStart(buffer)
    case None =>
      assert forall j | 0 <= j < |buffer| - 1 :: buffer[j] == '{' ==> MatchesAt(buffer, j) || buffer[|buffer| - 1] != '}';
    case Some(k) =>
      assert forall j | 0 <= j < k :: buffer[..k][j] == buffer[j];
      if IsSources(parse(buffer[k..])) {
        ReplaceFirstCutsAtFirst(buffer, k, '{');
      }
  }

  /**
   * The displayed text: every "```html" removed, then every "```", then
   * trimmed. It never contains "```" and has no surrounding white space.
   */
  function Clean(b: string): string {
    Trim(ReplaceAll(ReplaceAll(b, "```html", ""), Fence, ""))
  }

  /** The cleaned text never contains "```" and has no surrounding white space. */
  lemma CleanIsFenceFree(b: string)
    ensures var r := Clean(b);
      FenceFree(r) && (r != [] ==> !IsJsSpace(r[0]) && !IsJsSpace(r[|r| - 1]))
  {
    var unfenced := ReplaceAll(ReplaceAll(b, "```html", ""), Fence, "");
    RemoveFencesIsFenceFree(ReplaceAll(b, "```html", ""));
    TrimFenceFree(unfenced);
    TrimWithSpec(unfenced, IsJsSpace);
  }

  // ---------------------------------------------------------------------------
  // The assembly of one answer, fragment by fragment

  /**
   * The loop's variables (`buffer`, `streamedContent`, `sources`) and the
   * message currently shown at the placeholder's index.
   */
  datatype Assembly = Assembly(buffer: string, streamed: string, sources: seq<Source>, shown: Message)

  const Start := Assembly("", "", [], Thinking)

  /** One iteration of the read loop for fragment `f`. */
  function Feed(a: Assembly, f: string, parse: string -> Option<Parsed>): Assembly {
    var (buffer, sources) := Detect(a.buffer + f, a.sources, parse);
    var cleaned := Clean(buffer);
    if cleaned != "" then Assembly(buffer, cleaned, sources, StreamingMessage(cleaned, sources))
    else Assembly(buffer, a.streamed, sources, a.shown)
  }

  /** What one iteration does to the shown text, in terms of the new buffer. */
  lemma FeedStep(a: Assembly, f: string, parse: string -> Option<Parsed>)
    ensures var n := Feed(a, f, parse); var cleaned := Clean(n.buffer);
      (n.buffer, n.sources) == Detect(a.buffer + f, a.sources, parse)
      && (cleaned != "" ==> n.streamed == cleaned && n.shown == StreamingMessage(cleaned, n.sources))
      && (cleaned == "" ==> n.streamed == a.streamed && n.shown == a.shown)
  {
  }

  /** One iteration in terms of the result of its detection step. */
  lemma FeedResult(a: Assembly, f: string, parse: string -> Option<Parsed>, buffer: string, sources: seq<Source>)
    requires (buffer, sources) == Detect(a.buffer + f, a.sources, parse)
    ensures var cleaned := Clean(buffer);
      Feed(a, f, parse) == if cleaned != "" then Assembly(buffer, cleaned, sources, StreamingMessage(cleaned, sources))
                           else Assembly(buffer, a.streamed, sources, a.shown)
  {
  }

  /** The loop's state after the fragments `fs`, in order. */
  function FeedAll(a: Assembly, fs: seq<string>, parse: string -> Option<Parsed>): Assembly {
    if fs == [] then a else Feed(FeedAll(a, fs[..|fs| - 1], parse), fs[|fs| - 1], parse)
  }

  /** Feeding one more fragment extends the fold by one step. */
  lemma FeedAllSnoc(fs: seq<string>, i: nat, parse: string -> Option<Parsed>)
    requires i < |fs|
    ensures FeedAll(Start, fs[..i + 1], parse) == Feed(FeedAll(Start, fs[..i], parse), fs[i], parse)
  {
    assert fs[..i + 1][..i] == fs[..i];
  }

  /** How the request ended. */
  datatype StreamEnd = Completed | ReadFailed(message: string)

  /** What the `/ask` request produced, as the page sees it. */
  datatype Reply =
    | FetchFailed(message: string)                     // `fetch` threw
    | NoBody                                           // `response.body` is missing
    | Body(fragments: seq<string>, end: StreamEnd)     // decoded fragments, then the end of the stream or a read error

  /** The message left at the placeholder's index once `askQuestion` has finished. */
  function Outcome(reply: Reply, parse: string -> Option<Parsed>): Message {
    match reply
    case FetchFailed(m) => ErrorMessage(m)
    case NoBody => NotSupported
    case Body(fs, end) =>
      var a := FeedAll(Start, fs, parse);
      match end
      case Completed => FinalMessage(a.streamed, a.sources)
      case ReadFailed(m) => ErrorMessage(m)
  }

  /** The detection step of the read loop, on the loop's variables. */
  method MatchEnvelope(buffer: string, sources: seq<Source>, parse: string -> Option<Parsed>)
    returns (newBuffer: string, newSources: seq<Source>)
    ensures (newBuffer, newSources) == Detect(buffer, sources, parse)
  {
    newBuffer, newSources := buffer, sources;
    var start := EnvelopeStart(buffer);
    if start.Some? {
      var parsed := parse(buffer[start.value..]);
      if IsSources(parsed) {
        newSources := parsed.value.content;
        newBuffer := ReplaceFirst(buffer, buffer[start.value..], "");
      }
    }
  }

  /**
   * The read loop of `askQuestion`: fragment after fragment, the buffer is
   * extended, the envelope detected and the text cleaned; a non-empty cleaned
   * text overwrites the entry at `messageIndex`. No other entry changes.
   */
  method ReadFragments(messages: seq<Message>, messageIndex: nat, fs: seq<string>, parse: string -> Option<Parsed>)
    returns (newMessages: seq<Message>, streamedContent: string, sources: seq<Source>)
    requires messageIndex < |messages| && messages[messageIndex] == Thinking
    ensures var a := FeedAll(Start, fs, parse);
      newMessages == messages[messageIndex := a.shown] && streamedContent == a.streamed && sources == a.sources
  {
    newMessages := messages;
    var buffer := "";
    streamedContent, sources := "", [];
    ghost var shown := Thinking;
    var i := 0;
    while i < |fs|
      invariant 0 <= i <= |fs|
      invariant Assembly(buffer, streamedContent, sources, shown) == FeedAll(Start, fs[..i], parse)
      invariant newMessages == messages[messageIndex := shown]
    {
      FeedAllSnoc(fs, i, parse);
      ghost var before := Assembly(buffer, streamedContent, sources, shown);
      buffer := buffer + fs[i];
      buffer, sources := MatchEnvelope(buffer, sources, parse);
      var cleaned := Clean(buffer);
      FeedResult(before, fs[i], parse, buffer, sources);
      if cleaned != "" {
        streamedContent := cleaned;
        shown := StreamingMessage(streamedContent, sources);
        newMessages := newMessages[messageIndex := StreamingMessage(streamedContent, sources)];
      }
      i := i + 1;
    }
    assert fs[..i] == fs;
  }

  /**
   * Everything `askQuestion` does after appending the placeholder at
   * `messageIndex`: the request, the read loop and the final overwrite.
   */
  method Settle(messages: seq<Message>, messageIndex: nat, reply: Reply, parse: string -> Option<Parsed>)
    returns (newMessages: seq<Message>)
    requires messageIndex < |messages| && messages[messageIndex] == Thinking
    ensures newMessages == messages[messageIndex := Outcome(reply, parse)]
  {
    match reply {
      case FetchFailed(m) =>
        newMessages := messages[messageIndex := ErrorMessage(m)];
      case NoBody =>
        newMessages := messages[messageIndex := NotSupported];
      case Body(fs, end) =>
        var streamedContent, sources;
        newMessages, streamedContent, sources := ReadFragments(messages, messageIndex, fs, parse);
        match end {
          case Completed =>
            newMessages := newMessages[messageIndex := FinalMessage(streamedContent, sources)];
          case ReadFailed(m) =>
            newMessages := newMessages[messageIndex := ErrorMessage(m)];
        }
    }
  }

  /**
   * `askQuestion()`: `messages` is the rendered list when the question is
   * asked and `questionInput` the text field. An empty trimmed question
   * changes nothing. Otherwise the user message and the "Thinking..."
   * placeholder are appended, the field is cleared, and the placeholder (at
   * index `messages.length + 1`) is overwritten while the answer streams in
   * and once more when the request ends.
   */
  method AskQuestion(messages: seq<Message>, questionInput: string, reply: Reply, parse: string -> Option<Parsed>)
    returns (newMessages: seq<Message>, newInput: string)
    ensures Trim(questionInput) == "" ==> newMessages == messages && newInput == questionInput
    ensures Trim(questionInput) != "" ==>
      newInput == "" && newMessages == messages + [UserMessage(Trim(questionInput)), Outcome(reply, parse)]
  {
    var question := Trim(questionInput);
    if question == "" {
      return messages, questionInput;
    }
    newMessages := messages + [UserMessage(question)];
    newInput := "";
    newMessages := newMessages + [Thinking];
    var messageIndex := |messages| + 1;
    newMessages := Settle(newMessages, messageIndex, reply, parse);
    assert newMessages == messages + [UserMessage(question), Outcome(reply, parse)];
  }

  // ---------------------------------------------------------------------------
  // What the assembly guarantees

  /**
   * While the answer streams, the placeholder stays "Thinking..." until the
   * first non-empty cleaned text; from then on it shows the latest such text,
   * marked as streaming. That text never contains "```".
   */
  lemma {:induction false} ShownWhileStreaming(fs: seq<string>, parse: string -> Option<Parsed>)
    ensures var a := FeedAll(Start, fs, parse);
      FenceFree(a.streamed)
      && (a.streamed == "" <==> a.shown == Thinking)
      && (a.streamed != "" ==>
            a.shown.sender == System && a.shown.content == a.streamed
            && a.shown.sources.Some? && a.shown.isStreaming == Some(true))
  {
    if fs != [] {
      ShownWhileStreaming(fs[..|fs| - 1], parse);
      CleanIsFenceFree(FeedAll(Start, fs, parse).buffer);
    }
  }

  /** The cleaned text after each fragment, in order. */
  function CleanedTexts(fs: seq<string>, parse: string -> Option<Parsed>): (r: seq<string>)
    ensures |r| == |fs|
  {
    if fs == [] then [] else CleanedTexts(fs[..|fs| - 1], parse) + [Clean(FeedAll(Start, fs, parse).buffer)]
  }

  /** The last non-empty text of a list, or "" when there is none. */
  function LastNonEmpty(texts: seq<string>): string {
    if texts == [] then ""
    else if texts[|texts| - 1] != "" then texts[|texts| - 1]
    else LastNonEmpty(texts[..|texts| - 1])
  }

  /**
   * There is no fallback answer: the final content is the last non-empty
   * cleaned text seen while streaming, or "" when every one was empty.
   */
  lemma {:induction false} FinalContentIsLastNonEmpty(fs: seq<string>, parse: string -> Option<Parsed>)
    ensures Outcome(Body(fs, Completed), parse).content == LastNonEmpty(CleanedTexts(fs, parse))
  {
    StreamedIsLastNonEmpty(fs, parse);
  }

  lemma {:induction false} StreamedIsLastNonEmpty(fs: seq<string>, parse: string -> Option<Parsed>)
    ensures FeedAll(Start, fs, parse).streamed == LastNonEmpty(CleanedTexts(fs, parse))
  {
    if fs != [] {
      var init := fs[..|fs| - 1];
      StreamedIsLastNonEmpty(init, parse);
      FeedStep(FeedAll(Start, init, parse), fs[|fs| - 1], parse);
      var texts := CleanedTexts(fs, parse);
      assert texts[..|texts| - 1] == CleanedTexts(init, parse);
    }
  }

  /** The fragments joined back into one text. */
  function Concat(fs: seq<string>): string {
    if fs == [] then "" else Concat(fs[..|fs| - 1]) + fs[|fs| - 1]
  }

  /**
   * The conditions under which the way the answer is cut into fragments does
   * not matter: prose without '{', then one envelope that starts with '{',
   * ends with '}', parses as sources, and none of whose proper prefixes does.
   */
  predicate WellFormedAnswer(prose: string, env: string, content: seq<Source>, parse: string -> Option<Parsed>) {
    '{' !in prose
    && |env| >= 2 && env[0] == '{' && env[|env| - 1] == '}'
    && IsSources(parse(env)) && parse(env).value.content == content
    && forall m | 0 < m < |env| :: !IsSources(parse(env[..m]))
  }

  /** Detection on the prose alone changes nothing: it has no '{'. */
  lemma DetectOnProse(prose: string, sources: seq<Source>, parse: string -> Option<Parsed>)
    requires '{' !in prose
    ensures Detect(prose, sources, parse) == (prose, sources)
  {
    DetectCutsAtFirstBrace(prose, sources, parse);
  }

  /**
   * Detection on a prefix of a well-formed answer: the whole answer is cut
   * back to its prose, with the envelope's content; a proper prefix is left
   * alone, since any match is a proper prefix of the envelope.
   */
  lemma DetectOnPrefix(prose: string, env: string, content: seq<Source>, parse: string -> Option<Parsed>, c: string)
    requires WellFormedAnswer(prose, env, content, parse)
    requires |c| <= |prose + env| && (prose + env)[..|c|] == c
    ensures Detect(c, [], parse) == if |c| == |prose + env| then (prose, content) else (c, [])
  {
    DetectCutsAtFirstBrace(c, [], parse);
    if |c| <= |prose| {
      DetectOnProse(c, [], parse) by { PrefixOfProse(prose, env, c); }
    } else {
      var m := |c| - |prose|;
      PrefixSplit(prose, env, c);
      assert c[..|prose|] == prose && c[|prose|..] == env[..m];
      assert c[|prose|] == '{' && c[|c| - 1] == env[m - 1];
      if m == |env| {
        assert c[|c| - 1] == '}' && env[..m] == env;
        EnvelopeStartAfterProse(prose, c);
      } else if EnvelopeStart(c).Some? {
        EnvelopeStartAfterProse(prose, c);
      }
    }
  }

  /** A prefix no longer than the prose is a prefix of the prose, so it has no '{'. */
  lemma PrefixOfProse(prose: string, env: string, c: string)
    requires '{' !in prose
    requires |c| <= |prose| && (prose + env)[..|c|] == c
    ensures '{' !in c
  {
    assert forall j | 0 <= j < |c| :: c[j] == prose[j];
  }

  /** A prefix longer than the prose is the prose followed by a prefix of the envelope. */
  lemma PrefixSplit(prose: string, env: string, c: string)
    requires |prose| < |c| <= |prose + env| && (prose + env)[..|c|] == c
    ensures c[..|prose|] == prose && c[|prose|..] == env[..|c| - |prose|]
  {
    var full := prose + env;
    assert forall j | 0 <= j < |prose| :: c[..|prose|][j] == full[j] == prose[j];
    assert forall t | 0 <= t < |c| - |prose| :: c[|prose|..][t] == full[|prose| + t] == env[t];
  }

  /** With the prose before it, the match starts at the envelope's '{' once the text ends with '}'. */
  lemma EnvelopeStartAfterProse(prose: string, c: string)
    requires '{' !in prose && |prose| < |c| && c[..|prose|] == prose && c[|prose|] == '{'
    requires c[|c| - 1] == '}' || EnvelopeStart(c).Some?
    ensures EnvelopeStart(c) == Some(|prose|)
  {
    EnvelopeStartIsLeftmostMatch(c);
    assert MatchesAt(c, |prose|) by {
      if EnvelopeStart(c).Some? {
        assert |c| > 0 && c[|c| - 1] == '}';
      }
    }
    assert forall j | 0 <= j < |prose| :: c[j] == prose[j] && c[j] != '{';
  }

  /** The state after any fragments that spell a prefix of a well-formed answer. */
  lemma {:induction false} PrefixState(prose: string, env: string, content: seq<Source>, fs: seq<string>,
                                       parse: string -> Option<Parsed>)
    requires WellFormedAnswer(prose, env, content, parse)
    requires |Concat(fs)| <= |prose + env| && (prose + env)[..|Concat(fs)|] == Concat(fs)
    ensures var a := FeedAll(Start, fs, parse);
      if |Concat(fs)| == |prose + env| then
        a.buffer == prose && a.sources == content && (Clean(prose) != "" ==> a.streamed == Clean(prose))
      else
        a.buffer == Concat(fs) && a.sources == []
  {
    var full := prose + env;
    if fs != [] {
      var init, f := fs[..|fs| - 1], fs[|fs| - 1];
      var c', c := Concat(init), Concat(fs);
      assert c == c' + f;
      assert full[..|c'|] == c[..|c'|];
      PrefixState(prose, env, content, init, parse);
      var a' := FeedAll(Start, init, parse);
      FeedStep(a', f, parse);
      if |c'| == |full| {
        assert f == "";
        assert a'.buffer + f == prose;
        DetectOnProse(prose, content, parse);
      } else {
        assert a'.buffer + f == c;
        DetectOnPrefix(prose, env, content, parse, c);
      }
    }
  }

  /**
   * However a well-formed answer is cut into fragments, the stream ends with
   * the prose as the buffer and the envelope's content as the citations; when
   * the cleaned prose is not empty, it is the final text.
   */
  lemma EnvelopeSplitInvariant(prose: string, env: string, content: seq<Source>, fs: seq<string>,
                               parse: string -> Option<Parsed>)
    requires WellFormedAnswer(prose, env, content, parse)
    requires Concat(fs) == prose + env
    ensures var a := FeedAll(Start, fs, parse);
      a.buffer == prose && a.sources == content
      && (Clean(prose) != "" ==> Outcome(Body(fs, Completed), parse) == FinalMessage(Clean(prose), content))
  {
    PrefixState(prose, env, content, fs, parse);
  }

  /** Cleaning keeps a leading '{', so a text that starts with one never cleans to "". */
  lemma CleanKeepsBrace(p: string)
    requires |p| > 0 && p[0] == '{'
    ensures Clean(p) != ""
  {
    var u := ReplaceAll(p, "```html", "");
    assert |u| > 0 && u[0] == '{' by {
      assert |p| >= 7 ==> p[..7] != "```html";
    }
    RemoveFencesKeepsFirst(u);
    var v := ReplaceAll(u, Fence, "");
    assert !IsJsSpace(v[0]);
    TrimWithSpec(v, IsJsSpace);
  }

  /** A whole envelope is cut away entirely. */
  lemma EnvelopeCut(env: string, sources: seq<Source>, parse: string -> Option<Parsed>)
    requires |env| >= 2 && env[0] == '{' && env[|env| - 1] == '}' && IsSources(parse(env))
    ensures Detect(env, sources, parse) == ("", parse(env).value.content) && Clean("") == ""
  {
    assert MatchesAt(env, 0);
    EnvelopeStartIsLeftmostMatch(env);
    DetectCutsAtFirstBrace(env, sources, parse);
    assert env[0..] == env;
  }

  /** With no prose before it, an envelope sent whole leaves an empty answer. */
  lemma EnvelopeSentWhole(env: string, parse: string -> Option<Parsed>)
    requires |env| >= 2 && env[0] == '{' && env[|env| - 1] == '}' && IsSources(parse(env))
    ensures Outcome(Body([env], Completed), parse).content == ""
  {
    EnvelopeCut(env, [], parse);
    FeedStep(Start, env, parse);
    assert Start.buffer + env == env;
    var n := Feed(Start, env, parse);
    assert n.buffer == "" && n.streamed == "";
    assert [env][..0] == [];
    assert FeedAll(Start, [env], parse) == n;
  }

  /**
   * The same envelope sent as everything but its closing '}' and then the
   * '}': the partial envelope is shown as text, and when the envelope is then
   * recognised and cut nothing replaces it, so the partial envelope is the
   * final answer.
   */
  lemma EnvelopeSentInTwo(env: string, parse: string -> Option<Parsed>)
    requires |env| >= 3 && env[0] == '{' && env[|env| - 1] == '}' && env[|env| - 2] != '}'
    requires IsSources(parse(env))
    ensures var partial := env[..|env| - 1];
      Clean(partial) != "" && Outcome(Body([partial, "}"], Completed), parse).content == Clean(partial)
  {
    var partial := env[..|env| - 1];
    assert partial + "}" == env by {
      assert env == partial + [env[|env| - 1]];
    }
    var fs := [partial, "}"];
    assert fs[..1] == [partial] && fs[1] == "}";
    var first := PartialShown(partial, parse);
    EnvelopeCut(env, first.sources, parse);
    FeedStep(first, "}", parse);
    var second := Feed(first, "}", parse);
    assert second.buffer == "" && second.streamed == Clean(partial);
    assert FeedAll(Start, fs, parse) == second;
  }

  /**
   * A '{' in the prose defeats detection: the match then starts at the
   * prose's '{', so whenever that text does not parse as a sources envelope
   * nothing is cut. The raw envelope stays in the buffer, and so in the shown
   * text, and the answer ends with no citations.
   */
  lemma ProseBraceLeaksEnvelope(prose: string, env: string, parse: string -> Option<Parsed>)
    requires |env| >= 2 && env[0] == '{' && env[|env| - 1] == '}' && IsSources(parse(env))
    requires '{' in prose
    requires forall j | 0 <= j < |prose| :: prose[j] == '{' ==> !IsSources(parse((prose + env)[j..]))
    ensures var a := FeedAll(Start, [prose + env], parse);
      a.buffer == prose + env && a.sources == []
      && Outcome(Body([prose + env], Completed), parse).sources == Some([])
  {
    var x := prose + env;
    var j :| 0 <= j < |prose| && prose[j] == '{';
    forall i | 0 <= i <= j && x[i] == '{' ensures !IsSources(parse(x[i..])) {
      assert x[i] == prose[i];
    }
    BraceBeforeNotCut(x, j, parse);
    FeedStep(Start, x, parse);
    assert Start.buffer + x == x;
    assert [x][..0] == [];
    assert FeedAll(Start, [x], parse) == Feed(Start, x, parse);
  }

  /** A buffer whose '{'s up to position `j` start no sources envelope is not cut. */
  lemma BraceBeforeNotCut(x: string, j: nat, parse: string -> Option<Parsed>)
    requires j < |x| && x[j] == '{'
    requires forall i | 0 <= i <= j && x[i] == '{' :: !IsSources(parse(x[i..]))
    ensures Detect(x, [], parse) == (x, [])
  {
    DetectCutsAtFirstBrace(x, [], parse);
  }

  /** The state after a first fragment that starts with '{' and does not end with '}'. */
  lemma PartialShown(partial: string, parse: string -> Option<Parsed>) returns (first: Assembly)
    requires |partial| >= 2 && partial[0] == '{' && partial[|partial| - 1] != '}'
    ensures first == FeedAll(Start, [partial], parse)
    ensures first.buffer == partial && first.streamed == Clean(partial) && Clean(partial) != ""
    ensures first.sources == []
  {
    assert Detect(partial, [], parse) == (partial, []) by {
      assert EnvelopeStart(partial).None?;
    }
    CleanKeepsBrace(partial);
    FeedStep(Start, partial, parse);
    assert Start.buffer + partial == partial;
    first := Feed(Start, partial, parse);
    assert [partial][..0] == [];
    assert FeedAll(Start, [partial], parse) == first;
  }
}
