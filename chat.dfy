/**
 * The chat screen of the DeliteAI iOS example: the message list, the flag that
 * says a model call is running, and the streaming loop that polls the model
 * for text, buffers it and publishes it to the last bot message.
 *
 * The backend is a finite sequence of events. `Poll(r)` is the response the
 * next `get_next_str` call returns. `StopRequest` is a Stop tap whose
 * `stopLLM` runs while the loop is between two polls, in its sleep or while a
 * poll is pending. Once the sequence is used up, every further poll returns no
 * payload. Main-queue blocks run in the order they are queued.
 */
module Chat {
  import opened Options

  /** One row of the conversation: its text and whether the user wrote it. */
  datatype Message = Message(text: string, isUser: bool)

  /** What `get_next_str` returns: no payload at all, or a payload map with or without the two keys the loop reads. */
  datatype Response = NoPayload | Payload(finished: bool, str: Option<string>)

  datatype Event = Poll(response: Response) | StopRequest

  /** `CharacterSet.whitespaces`: tab and the Unicode space separators (category Zs). */
  predicate IsWhitespace(c: char)
  {
    c == '\t' || c == ' ' || c == '\U{00A0}' || c == '\U{1680}' ||
    ('\U{2000}' <= c <= '\U{200A}') || c == '\U{202F}' || c == '\U{205F}' || c == '\U{3000}'
  }

  /** `CharacterSet.whitespacesAndNewlines`: the above, line feed to carriage return, NEL and the line and paragraph separators. */
  predicate IsWhitespaceOrNewline(c: char)
  {
    IsWhitespace(c) || ('\n' <= c <= '\r') || c == '\U{0085}' || c == '\U{2028}' || c == '\U{2029}'
  }

  function WhitespaceCount(s: string): nat
  {
    if s == [] then 0 else (if IsWhitespace(s[0]) then 1 else 0) + WhitespaceCount(s[1..])
  }

  /**
   * `components(separatedBy: .whitespaces)`: the pieces between separator
   * characters, one more than there are separators, empty pieces included.
   */
  function Components(s: string): (r: seq<string>)
    ensures |r| >= 1
  {
    if s == [] then [""]
    else
      var rest := Components(s[1..]);
      if IsWhitespace(s[0]) then [""] + rest else [[s[0]] + rest[0]] + rest[1..]
  }

  /** Each whitespace character ends exactly one piece. */
  lemma {:induction false} ComponentsCount(s: string)
    ensures |Components(s)| == WhitespaceCount(s) + 1
  {
    if s != [] {
      ComponentsCount(s[1..]);
    }
  }

  /** No piece holds a separator, and the pieces are the string with its separators taken out. */
  lemma {:induction false} ComponentsPieces(s: string)
    ensures forall k, j :: 0 <= k < |Components(s)| && 0 <= j < |Components(s)[k]| ==> !IsWhitespace(Components(s)[k][j])
    ensures Concat(Components(s)) == Unspaced(s)
  {
    if s != [] {
      ComponentsPieces(s[1..]);
      var rest := Components(s[1..]);
      if !IsWhitespace(s[0]) {
        ConcatCons(rest);
        ConcatCons([[s[0]] + rest[0]] + rest[1..]);
        assert ([[s[0]] + rest[0]] + rest[1..])[1..] == rest[1..];
      } else {
        assert ([""] + rest)[1..] == rest;
      }
    }
  }

  /** The characters of `s` that are not separators. */
  function Unspaced(s: string): string
  {
    if s == [] then [] else (if IsWhitespace(s[0]) then [] else [s[0]]) + Unspaced(s[1..])
  }

  function Concat(parts: seq<string>): string
  {
    if parts == [] then "" else parts[0] + Concat(parts[1..])
  }

  lemma ConcatCons(parts: seq<string>)
    requires parts != []
    ensures Concat(parts) == parts[0] + Concat(parts[1..])
  {
  }

  // ---------------------------------------------------------------------------
  // trimmingCharacters(in: .whitespacesAndNewlines)

  function TrimStart(s: string): (r: string)
    ensures |r| <= |s| && r == s[|s| - |r|..]
    ensures forall k :: 0 <= k < |s| - |r| ==> IsWhitespaceOrNewline(s[k])
    ensures r != [] ==> !IsWhitespaceOrNewline(r[0])
  {
    if s != [] && IsWhitespaceOrNewline(s[0]) then TrimStart(s[1..]) else s
  }

  function TrimEnd(s: string): (r: string)
    ensures |r| <= |s| && r == s[..|r|]
    ensures forall k :: |r| <= k < |s| ==> IsWhitespaceOrNewline(s[k])
    ensures r != [] ==> !IsWhitespaceOrNewline(r[|r| - 1])
  {
    if s != [] && IsWhitespaceOrNewline(s[|s| - 1]) then TrimEnd(s[..|s| - 1]) else s
  }

  function Trim(s: string): string
  {
    TrimEnd(TrimStart(s))
  }

  /** A string trims to nothing exactly when every character of it is whitespace or a newline. */
  lemma TrimBlank(s: string)
    ensures Trim(s) == [] <==> forall k :: 0 <= k < |s| ==> IsWhitespaceOrNewline(s[k])
  {
    var t := TrimStart(s);
    if Trim(s) != [] {
      var k := |s| - |t|;
      assert t != [] && s[k] == t[0];
    }
  }

  /** The prompt `sendTapped` reads: nothing when the field is nil or its trimmed text is empty. */
  function Prompt(field: Option<string>): (r: Option<string>)
    ensures r.None? <==> field.None? || forall k :: 0 <= k < |field.value| ==> IsWhitespaceOrNewline(field.value[k])
    ensures r.Some? ==> r.value != [] && r.value == Trim(field.value)
  {
    if field.None? then None
    else
      TrimBlank(field.value);
      var text := Trim(field.value);
      if text == [] then None else Some(text)
  }

  // ---------------------------------------------------------------------------
  // The message list

  /**
   * `updateLastBotMessage`: overwrite the text of the last row when it is a
   * bot row, append a bot row otherwise.
   */
  function UpdateLastBot(messages: seq<Message>, text: string): (r: seq<Message>)
    ensures |messages| > 0 && !messages[|messages| - 1].isUser ==> |r| == |messages|
    ensures !(|messages| > 0 && !messages[|messages| - 1].isUser) ==> |r| == |messages| + 1
    ensures r[|r| - 1] == Message(text, false)
    ensures forall k :: 0 <= k < |r| - 1 ==> r[k] == messages[k]
  {
    if |messages| > 0 && !messages[|messages| - 1].isUser then
      messages[..|messages| - 1] + [Message(text, false)]
    else
      messages + [Message(text, false)]
  }

  /** A second update overwrites the first: the bot row the first one left is the one the second rewrites. */
  lemma UpdateLastBotTwice(messages: seq<Message>, a: string, b: string)
    ensures UpdateLastBot(UpdateLastBot(messages, a), b) == UpdateLastBot(messages, b)
  {
    var once := UpdateLastBot(messages, a);
    assert once[..|once| - 1] == UpdateLastBot(messages, b)[..|once| - 1];
  }

  /** The updates one streaming call queues on the main queue, applied in order. */
  function ApplyUpdates(messages: seq<Message>, published: seq<string>): seq<Message>
  {
    if published == [] then messages
    else UpdateLastBot(ApplyUpdates(messages, published[..|published| - 1]), published[|published| - 1])
  }

  lemma ApplyUpdatesSnoc(messages: seq<Message>, published: seq<string>, text: string)
    ensures ApplyUpdates(messages, published + [text]) == UpdateLastBot(ApplyUpdates(messages, published), text)
  {
    assert (published + [text])[..|published|] == published;
  }

  /** However many updates a call queues, together they act as the last one alone. */
  lemma {:induction false} ApplyUpdatesLast(messages: seq<Message>, published: seq<string>)
    ensures ApplyUpdates(messages, published)
            == if published == [] then messages else UpdateLastBot(messages, published[|published| - 1])
  {
    if |published| > 1 {
      var init := published[..|published| - 1];
      ApplyUpdatesLast(messages, init);
      UpdateLastBotTwice(messages, init[|init| - 1], published[|published| - 1]);
    }
  }

  // ---------------------------------------------------------------------------
  // The streaming loop as a function of the backend's events

  /** A response that ends the loop: no payload, or a payload with the "finished" key. */
  predicate Ends(r: Response)
  {
    r.NoPayload? || r.finished
  }

  /**
   * The "str" chunks the loop of `callModelStreaming` consumes from `events`,
   * starting at the top of an iteration with the flag `active`. A stop
   * request clears the flag; a poll that does not end the loop contributes its
   * chunk, and the flag check after it ends the loop once the flag is clear.
   */
  function Run(events: seq<Event>, active: bool): (r: seq<string>)
    ensures |r| <= |events|
    ensures !active ==> |r| <= 1
    decreases |events|
  {
    if events == [] then []
    else match events[0]
      case StopRequest => Run(events[1..], false)
      case Poll(r) =>
        if Ends(r) then []
        else Chunk(r) + (if active then Run(events[1..], true) else [])
  }

  /** The text a payload carries: its "str" value when that is a string, nothing otherwise. */
  function Chunk(r: Response): seq<string>
  {
    if r.Payload? && r.str.Some? then [r.str.value] else []
  }

  /** `Run` from index `i`, one event at a time. */
  lemma RunStep(events: seq<Event>, i: nat, active: bool)
    requires i < |events|
    ensures events[i].StopRequest? ==> Run(events[i..], active) == Run(events[i + 1..], false)
    ensures events[i].Poll? && Ends(events[i].response) ==> Run(events[i..], active) == []
    ensures events[i].Poll? && !Ends(events[i].response) ==>
              Run(events[i..], active) == Chunk(events[i].response) + (if active then Run(events[i + 1..], true) else [])
  {
    assert events[i..][0] == events[i];
    assert events[i..][1..] == events[i + 1..];
  }

  /** A cleared flag lets at most one more poll through: nothing after the first poll matters. */
  lemma {:induction false} StoppedRunIsOnePoll(q: seq<Event>, j: nat)
    requires j < |q| && q[j].Poll?
    requires forall k :: 0 <= k < j ==> q[k].StopRequest?
    ensures Run(q, false) == Run(q[..j + 1], false)
    ensures |Run(q, false)| <= 1
    decreases j
  {
    if j > 0 {
      assert q[..j + 1][1..] == q[1..][..j];
      StoppedRunIsOnePoll(q[1..], j - 1);
    } else {
      assert q[..1][1..] == [];
    }
  }

  /** Two tails the loop treats alike, whatever the flag, are treated alike after any common prefix. */
  lemma {:induction false} RunSameTail(p: seq<Event>, t1: seq<Event>, t2: seq<Event>, active: bool)
    requires Run(t1, true) == Run(t2, true) && Run(t1, false) == Run(t2, false)
    ensures Run(p + t1, active) == Run(p + t2, active)
    decreases |p|
  {
    if p == [] {
      assert p + t1 == t1 && p + t2 == t2;
    } else {
      assert (p + t1)[0] == p[0] == (p + t2)[0];
      assert (p + t1)[1..] == p[1..] + t1;
      assert (p + t2)[1..] == p[1..] + t2;
      RunSameTail(p[1..], t1, t2, false);
      RunSameTail(p[1..], t1, t2, active);
    }
  }

  /**
   * After a Stop tap the loop exits after at most one more poll: the events
   * past the first poll that follows the stop request are never read.
   */
  lemma StopEndsAfterOnePoll(p: seq<Event>, q: seq<Event>, j: nat, active: bool)
    requires j < |q| && q[j].Poll?
    requires forall k :: 0 <= k < j ==> q[k].StopRequest?
    ensures Run(p + [StopRequest] + q, active) == Run(p + [StopRequest] + q[..j + 1], active)
  {
    var tail := [StopRequest] + q;
    var cut := [StopRequest] + q[..j + 1];
    assert tail[1..] == q && cut[1..] == q[..j + 1];
    StoppedRunIsOnePoll(q, j);
    RunSameTail(p, tail, cut, active);
    assert p + [StopRequest] + q == p + tail;
    assert p + [StopRequest] + q[..j + 1] == p + cut;
  }

  /** A response without payload or with "finished" adds no text and nothing after it is read. */
  lemma {:induction false} EndingResponseEndsRun(p: seq<Event>, r: Response, q: seq<Event>, active: bool)
    requires Ends(r)
    ensures Run(p + [Poll(r)] + q, active) == Run(p, active)
    decreases |p|
  {
    if p == [] {
      assert p + [Poll(r)] + q == [Poll(r)] + q;
    } else {
      assert (p + [Poll(r)] + q)[1..] == p[1..] + [Poll(r)] + q;
      assert (p + [Poll(r)] + q)[0] == p[0];
      EndingResponseEndsRun(p[1..], r, q, false);
      EndingResponseEndsRun(p[1..], r, q, active);
    }
  }

  /** The loop's two buffers and the strings it has published so far. */
  datatype StreamState = StreamState(output: string, buffer: string, published: seq<string>)

  const Start := StreamState("", "", [])

  /**
   * One "str" chunk: append it to the token buffer, and move the buffer to
   * the output (publishing the output) when it splits into three or more
   * whitespace-separated pieces, that is when it holds two or more whitespace
   * characters.
   */
  function Feed(st: StreamState, chunk: string): (r: StreamState)
    ensures r.output + r.buffer == st.output + st.buffer + chunk
    ensures WhitespaceCount(st.buffer + chunk) >= 2 ==>
              r.buffer == "" && r.output == st.output + st.buffer + chunk && r.published == st.published + [r.output]
    ensures WhitespaceCount(st.buffer + chunk) < 2 ==> r.output == st.output && r.published == st.published
    ensures WhitespaceCount(r.buffer) < 2
  {
    var buffer := st.buffer + chunk;
    ComponentsCount(buffer);
    if |Components(buffer)| >= 3 then StreamState(st.output + buffer, "", st.published + [st.output + buffer])
    else StreamState(st.output, buffer, st.published)
  }

  function FeedAll(st: StreamState, chunks: seq<string>): StreamState
    decreases |chunks|
  {
    if chunks == [] then st else FeedAll(Feed(st, chunks[0]), chunks[1..])
  }

  /** After the loop: whatever is left in the token buffer goes to the output, which is published once more. */
  function Finish(st: StreamState): (r: StreamState)
    ensures r.output == st.output + st.buffer && r.buffer == ""
    ensures r.published == if st.buffer == "" then st.published else st.published + [r.output]
  {
    if st.buffer != "" then StreamState(st.output + st.buffer, "", st.published + [st.output + st.buffer]) else st
  }

  /** The state `callModelStreaming` ends in for a given backend. */
  function Session(events: seq<Event>): StreamState
  {
    Finish(FeedAll(Start, Run(events, true)))
  }

  /** The loop invariant: output and buffer together always hold every chunk consumed so far. */
  lemma {:induction false} FeedAllKeepsText(st: StreamState, chunks: seq<string>)
    ensures FeedAll(st, chunks).output + FeedAll(st, chunks).buffer == st.output + st.buffer + Concat(chunks)
    decreases |chunks|
  {
    if chunks != [] {
      FeedAllKeepsText(Feed(st, chunks[0]), chunks[1..]);
    }
  }

  /**
   * The published strings grow: each one is a strict prefix of the next, the
   * last one is the current output, and nothing is published while the output
   * is empty.
   */
  predicate Growing(published: seq<string>, output: string)
  {
    (forall k :: 0 <= k < |published| - 1 ==>
       |published[k]| < |published[k + 1]| && published[k] == published[k + 1][..|published[k]|]) &&
    (published == [] <==> output == "") &&
    (published != [] ==> published[|published| - 1] == output)
  }

  /** Publishing a longer output keeps the chain growing. */
  lemma PublishGrows(published: seq<string>, output: string, added: string)
    requires Growing(published, output) && added != ""
    ensures Growing(published + [output + added], output + added)
  {
    var longer := published + [output + added];
    forall k | 0 <= k < |longer| - 1
      ensures |longer[k]| < |longer[k + 1]| && longer[k] == longer[k + 1][..|longer[k]|]
    {
      if k == |published| - 1 {
        assert longer[k] == output && longer[k + 1] == output + added;
        assert output == (output + added)[..|output|];
      }
    }
  }

  lemma {:induction false} FeedAllGrowing(st: StreamState, chunks: seq<string>)
    requires Growing(st.published, st.output)
    ensures Growing(FeedAll(st, chunks).published, FeedAll(st, chunks).output)
    decreases |chunks|
  {
    if chunks != [] {
      var next := Feed(st, chunks[0]);
      if WhitespaceCount(st.buffer + chunks[0]) >= 2 {
        assert st.buffer + chunks[0] != "";
        assert st.output + st.buffer + chunks[0] == st.output + (st.buffer + chunks[0]);
        PublishGrows(st.published, st.output, st.buffer + chunks[0]);
      }
      FeedAllGrowing(next, chunks[1..]);
    }
  }

  /**
   * What one streaming call returns and publishes: the concatenation of every
   * chunk it consumed, with the buffer empty, published through a growing
   * chain of prefixes whose last element is that output.
   */
  lemma SessionOutput(events: seq<Event>)
    ensures Session(events).output == Concat(Run(events, true))
    ensures Session(events).buffer == ""
    ensures Growing(Session(events).published, Session(events).output)
  {
    var fed := FeedAll(Start, Run(events, true));
    FeedAllKeepsText(Start, Run(events, true));
    assert fed.output + fed.buffer == Concat(Run(events, true));
    FeedAllGrowing(Start, Run(events, true));
    if fed.buffer != "" {
      PublishGrows(fed.published, fed.output, fed.buffer);
    }
  }

  /**
   * The message list after a streaming call: unchanged when nothing was
   * produced, otherwise the last bot row holds the whole output.
   */
  lemma SessionMessages(messages: seq<Message>, events: seq<Event>)
    ensures ApplyUpdates(messages, Session(events).published)
            == if Session(events).output == "" then messages else UpdateLastBot(messages, Session(events).output)
  {
    SessionOutput(events);
    ApplyUpdatesLast(messages, Session(events).published);
  }

  /** The state after one poll's chunk, as the loop body computes it. */
  lemma FeedChunk(st: StreamState, r: Response)
    requires r.Payload?
    ensures FeedAll(st, Chunk(r)) == if r.str.None? then st else Feed(st, r.str.value)
  {
    if r.str.Some? {
      assert Chunk(r)[1..] == [];
    }
  }

  lemma FeedAllCons(st: StreamState, chunks: seq<string>, rest: seq<string>)
    requires |chunks| <= 1
    ensures FeedAll(st, chunks + rest) == FeedAll(FeedAll(st, chunks), rest)
  {
    if chunks != [] {
      assert (chunks + rest)[1..] == rest;
      assert chunks[1..] == [];
    } else {
      assert chunks + rest == rest;
    }
  }

  // ---------------------------------------------------------------------------
  // The view controller's state

  class ChatController {
    var messages: seq<Message>
    var isModelActive: bool
    /** The text of the prompt field; nil is `None`. */
    var inputText: Option<string>

    constructor()
      ensures messages == [] && !isModelActive && inputText == Some("")
    {
      messages := [];
      isModelActive := false;
      inputText := Some("");
    }

    /** `addMessage`: one row at the end. */
    method AddMessage(text: string, isUser: bool)
      modifies this
      ensures messages == old(messages) + [Message(text, isUser)]
      ensures isModelActive == old(isModelActive) && inputText == old(inputText)
    {
      messages := messages + [Message(text, isUser)];
    }

    method UpdateLastBotMessage(text: string)
      modifies this
      ensures messages == UpdateLastBot(old(messages), text)
      ensures isModelActive == old(isModelActive) && inputText == old(inputText)
    {
      if |messages| > 0 && !messages[|messages| - 1].isUser {
        messages := messages[|messages| - 1 := Message(text, false)];
      } else {
        messages := messages + [Message(text, false)];
      }
    }

    /** `stopLLM`: clears the flag; the `stop_running` call to the runtime is not part of this model. */
    method StopLLM()
      modifies this
      ensures !isModelActive
      ensures messages == old(messages) && inputText == old(inputText)
    {
      isModelActive := false;
    }

    /**
     * One `get_next_str` call from event `i` on: the stop taps that land while
     * it is pending run `stopLLM`, then the first poll answers; once the
     * events are used up, the answer has no payload. `at` is the index of the
     * answering poll.
     */
    method GetNextStr(events: seq<Event>, i: nat) returns (response: Response, at: nat)
      requires i <= |events|
      modifies this
      ensures i <= at <= |events|
      ensures forall k :: i <= k < at ==> events[k].StopRequest?
      ensures at < |events| ==> events[at].Poll? && response == events[at].response
      ensures at == |events| ==> response == NoPayload
      ensures isModelActive == (old(isModelActive) && at == i)
      ensures Run(events[i..], old(isModelActive)) == Run(events[at..], isModelActive)
      ensures messages == old(messages) && inputText == old(inputText)
    {
      at := i;
      while at < |events| && events[at].StopRequest?
        invariant i <= at <= |events|
        invariant forall k :: i <= k < at ==> events[k].StopRequest?
        invariant isModelActive == (old(isModelActive) && at == i)
        invariant Run(events[i..], old(isModelActive)) == Run(events[at..], isModelActive)
        invariant messages == old(messages) && inputText == old(inputText)
      {
        RunStep(events, at, isModelActive);
        StopLLM();
        at := at + 1;
      }
      response := if at < |events| then events[at].response else NoPayload;
    }

    /**
     * `callModelStreaming`: polls until there is no payload, the payload says
     * "finished" or the flag is clear after a poll; flushes the token buffer
     * to the output whenever it holds two or more whitespace characters and
     * once more at the end, updating the last bot message at every flush.
     */
    method CallModelStreaming(events: seq<Event>) returns (outputString: string)
      modifies this
      ensures outputString == Session(events).output
      ensures messages == ApplyUpdates(old(messages), Session(events).published)
      ensures !isModelActive && inputText == old(inputText)
    {
      ghost var goal := FeedAll(Start, Run(events, true));
      outputString := "";
      var tokenBuffer := "";
      ghost var published: seq<string> := [];
      isModelActive := true;
      var i := 0;
      while true
        invariant i <= |events|
        invariant FeedAll(StreamState(outputString, tokenBuffer, published), Run(events[i..], isModelActive)) == goal
        invariant messages == ApplyUpdates(old(messages), published)
        invariant inputText == old(inputText)
        decreases |events| - i
      {
        var response, at := GetNextStr(events, i);
        ghost var before := StreamState(outputString, tokenBuffer, published);
        if response.NoPayload? || response.finished {
          if at < |events| {
            RunStep(events, at, isModelActive);
          }
          isModelActive := false;
          break;
        }
        RunStep(events, at, isModelActive);
        i := at + 1;
        FeedChunk(before, response);
        if response.str.Some? {
          tokenBuffer := tokenBuffer + response.str.value;
          if |Components(tokenBuffer)| >= 3 {
            outputString := outputString + tokenBuffer;
            tokenBuffer := "";
            ApplyUpdatesSnoc(old(messages), published, outputString);
            published := published + [outputString];
            UpdateLastBotMessage(outputString);
          }
        }
        assert StreamState(outputString, tokenBuffer, published) == FeedAll(before, Chunk(response));
        if !isModelActive {
          FeedAllCons(before, Chunk(response), []);
          break;
        }
        FeedAllCons(before, Chunk(response), Run(events[i..], true));
      }
      if tokenBuffer != "" {
        outputString := outputString + tokenBuffer;
        ApplyUpdatesSnoc(old(messages), published, outputString);
        published := published + [outputString];
        UpdateLastBotMessage(outputString);
      }
    }

    /**
     * `sendTapped`: while a call is running the tap stops it; otherwise a
     * prompt that is blank after trimming is ignored, and any other prompt
     * clears the field, is added as a user row and starts a streaming call.
     */
    method SendTapped(events: seq<Event>)
      modifies this
      ensures old(isModelActive) ==> !isModelActive && messages == old(messages) && inputText == old(inputText)
      ensures !old(isModelActive) && Prompt(old(inputText)).None? ==>
                messages == old(messages) && isModelActive == old(isModelActive) && inputText == old(inputText)
      ensures !old(isModelActive) && Prompt(old(inputText)).Some? ==>
                inputText == Some("") && !isModelActive &&
                messages == ApplyUpdates(old(messages) + [Message(Prompt(old(inputText)).value, true)],
                                         Session(events).published)
    {
      if isModelActive {
        StopLLM();
      } else {
        var text := Prompt(inputText);
        if text.None? {
          return;
        }
        inputText := Some("");
        AddMessage(text.value, true);
        var _ := CallModelStreaming(events);
      }
    }
  }
}
