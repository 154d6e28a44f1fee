/** The client for the inference backend: the model roster request, the
    liveness probe, and the decoder of the streamed, newline-delimited JSON
    chat response.

    The network is an input: a datatype says what `fetch` produced (a
    rejection, or a status with a body read chunk by chunk, already decoded
    to text). `JSON.parse(line).message?.content` is the parameter `parse`:
    `Some(c)` when the line parses and carries the string `c` as its
    content, `None` when parsing fails or there is no content. */
module Ollama {
  import opened Wrappers
  import opened Strings
  import opened ChatTypes

  /** The part of `fetch`'s `res.ok`: a 2xx status. */
  predicate IsOk(status: nat) {
    200 <= status <= 299
  }

  // ---------------------------------------------------------------------
  // GET /api/tags
  // ---------------------------------------------------------------------

  /** The decoded JSON body of the roster reply: either `res.json()` failed
      (or produced a value whose `models` cannot be read, like `null`), or
      it is an object whose `models` member may be absent. */
  datatype TagsBody = Unreadable(error: string) | TagsObject(models: Option<seq<OllamaModel>>)

  /** What `fetch` produced for `GET /api/tags`. */
  datatype TagsReply =
    | TagsUnreachable(error: string)
    | TagsResponse(status: nat, body: TagsBody)

  /** `fetchModels`: the roster, or the error it throws. */
  function FetchModels(reply: TagsReply): (r: Result<seq<OllamaModel>>)
    ensures r.Success? <==>
      reply.TagsResponse? && IsOk(reply.status) && reply.body.TagsObject?
    ensures reply.TagsResponse? && !IsOk(reply.status) ==>
      r == Failure("Failed to fetch models")
    ensures r.Success? && reply.body.models.None? ==> r.value == []
    ensures r.Success? && reply.body.models.Some? ==> r.value == reply.body.models.value
  {
    match reply
    case TagsUnreachable(e) => Failure(e)
    case TagsResponse(status, body) =>
      if !IsOk(status) then Failure("Failed to fetch models")
      else match body
        case Unreadable(e) => Failure(e)
        case TagsObject(models) => Success(models.GetOr([]))
  }

  /** `checkConnection`: whether the roster request succeeds; the error is
      swallowed. */
  function CheckConnection(reply: TagsReply): (r: bool)
    ensures r <==> reply.TagsResponse? && IsOk(reply.status) && reply.body.TagsObject?
    ensures r <==> FetchModels(reply).Success?
  {
    FetchModels(reply).Success?
  }

  // ---------------------------------------------------------------------
  // POST /api/chat
  // ---------------------------------------------------------------------

  /** One entry of the request's `messages`. */
  datatype ChatMessage = ChatMessage(role: Role, content: string)

  /** The JSON body of the chat request. There is no `options` member: no
      sampling options are ever sent. */
  datatype ChatRequest = ChatRequest(model: string, messages: seq<ChatMessage>, stream: bool)

  /** How reading the body ended: the reader reported `done`, or a `read()`
      was rejected because of the abort signal or another failure. */
  datatype ReadEnd = EndOfStream | ReadAborted | ReadFailed(message: string)

  /** A response body: the text of each successive `read()`, then how the
      reading ended. */
  datatype Body = Body(chunks: seq<string>, ending: ReadEnd)

  /** What `fetch` produced for the chat request: a rejection (the abort
      signal fired, or the network failed), or a response whose body may be
      missing. */
  datatype ChatReply =
    | FetchAborted
    | FetchFailed(message: string)
    | ChatResponse(status: nat, statusText: string, body: Option<Body>)

  /** How the generator `streamChat` finished: it returned, or it threw
      the `AbortError`, or it threw an error with this message. */
  datatype StreamEnd = Done | Aborted | Failed(message: string)

  /** Everything `streamChat` yields, in order, and how it finished. */
  datatype StreamRun = StreamRun(increments: seq<string>, ending: StreamEnd)

  /** The pieces of `text` between newlines that are followed by a newline:
      the lines a read loop has completed. */
  function CompleteLines(text: string): seq<string> {
    var pieces := Split(text, '\n');
    pieces[..|pieces| - 1]
  }

  /** What follows the last newline of `text`: the fragment the read loop
      holds back in its buffer. */
  function Leftover(text: string): string {
    var pieces := Split(text, '\n');
    pieces[|pieces| - 1]
  }

  /** What one line yields: nothing for a blank line, a line that does not
      parse, or an empty or missing content; otherwise its content. */
  function LineIncrement(parse: string -> Option<string>, line: string): (r: seq<string>)
    ensures |r| <= 1
    ensures r != [] ==> !IsBlank(line) && parse(line) == Some(r[0]) && r[0] != ""
    ensures !IsBlank(line) && parse(line).Some? && parse(line).value != "" ==>
      r == [parse(line).value]
  {
    if IsBlank(line) then []
    else match parse(line)
      case Some(c) => if c != "" then [c] else []
      case None => []
  }

  /** What a sequence of lines yields, line after line. */
  function LineIncrements(parse: string -> Option<string>, lines: seq<string>): (r: seq<string>)
    ensures |r| <= |lines|
  {
    if lines == [] then []
    else LineIncrements(parse, lines[..|lines| - 1]) + LineIncrement(parse, lines[|lines| - 1])
  }

  /** What a whole response body with text `text` yields when it ends
      normally: every complete line, then one parse of the leftover. The
      final parse treats the leftover as one more line, so this is what all
      the newline-separated pieces of the text yield, the last included. */
  function Decode(parse: string -> Option<string>, text: string): (r: seq<string>)
    ensures r == LineIncrements(parse, Split(text, '\n'))
  {
    var pieces := Split(text, '\n');
    assert pieces == CompleteLines(text) + [Leftover(text)];
    assert pieces[..|pieces| - 1] == CompleteLines(text);
    LineIncrements(parse, CompleteLines(text)) + LineIncrement(parse, Leftover(text))
  }

  /** The body was read: the response is OK and has a body. */
  predicate BodyRead(reply: ChatReply) {
    reply.ChatResponse? && IsOk(reply.status) && reply.body.Some?
  }

  /** The run `streamChat` produces for each reply. An error before the body
      is read yields nothing. A body that is cut off yields its complete
      lines only: the leftover is parsed only after a normal end. The run
      finishes normally exactly when the body was read to its end, and
      with the `AbortError` exactly when the fetch or a read was aborted. */
  function ExpectedRun(parse: string -> Option<string>, reply: ChatReply): (r: StreamRun)
    ensures !BodyRead(reply) ==> r.increments == [] && !r.ending.Done?
    ensures r.ending.Done? <==> BodyRead(reply) && reply.body.value.ending.EndOfStream?
    ensures r.ending.Aborted? <==>
      reply.FetchAborted? || (BodyRead(reply) && reply.body.value.ending.ReadAborted?)
    ensures BodyRead(reply) && !reply.body.value.ending.EndOfStream? ==>
      r.increments == LineIncrements(parse, CompleteLines(Concat(reply.body.value.chunks)))
  {
    match reply
    case FetchAborted => StreamRun([], Aborted)
    case FetchFailed(m) => StreamRun([], Failed(m))
    case ChatResponse(status, statusText, body) =>
      if !IsOk(status) then
        StreamRun([], Failed("Ollama error: " + NatToString(status) + " " + statusText))
      else if body.None? then StreamRun([], Failed("No response body"))
      else
        var text := Concat(body.value.chunks);
        match body.value.ending
        case EndOfStream => StreamRun(Decode(parse, text), Done)
        case ReadAborted => StreamRun(LineIncrements(parse, CompleteLines(text)), Aborted)
        case ReadFailed(m) => StreamRun(LineIncrements(parse, CompleteLines(text)), Failed(m))
  }

  /** `streamChat`: the read loop keeps a buffer across chunks, splits it on
      newlines, holds back the trailing fragment and parses each complete
      line; after the end of the stream it parses the leftover once. Its
      result depends on the body's text only, not on how the text was cut
      into chunks. */
  method StreamChat(parse: string -> Option<string>, reply: ChatReply) returns (run: StreamRun)
    ensures run == ExpectedRun(parse, reply)
  {
    match reply {
      case FetchAborted =>
        return StreamRun([], Aborted);
      case FetchFailed(m) =>
        return StreamRun([], Failed(m));
      case ChatResponse(status, statusText, body) =>
        if !IsOk(status) {
          return StreamRun([], Failed("Ollama error: " + NatToString(status) + " " + statusText));
        }
        if body.None? {
          return StreamRun([], Failed("No response body"));
        }
        var buffer, out := ReadChunks(parse, body.value.chunks);
        match body.value.ending {
          case EndOfStream =>
            if !IsBlank(buffer) {
              match parse(buffer) {
                case Some(c) =>
                  if c != "" {
                    out := out + [c];
                  }
                case None =>
              }
            }
            run := StreamRun(out, Done);
          case ReadAborted =>
            run := StreamRun(out, Aborted);
          case ReadFailed(m) =>
            run := StreamRun(out, Failed(m));
        }
    }
  }

  /** The `while (true)` read loop: the buffer carries the unfinished line
      from one read to the next, and each read yields its complete lines.
      At the end the buffer is the leftover of the whole text, and what was
      yielded is the yield of its complete lines. */
  method ReadChunks(parse: string -> Option<string>, chunks: seq<string>)
    returns (buffer: string, out: seq<string>)
    ensures buffer == Leftover(Concat(chunks))
    ensures out == LineIncrements(parse, CompleteLines(Concat(chunks)))
  {
    buffer := "";
    out := [];
    var i := 0;
    while i < |chunks|
      invariant 0 <= i <= |chunks|
      invariant buffer == Leftover(Concat(chunks[..i]))
      invariant out == LineIncrements(parse, CompleteLines(Concat(chunks[..i])))
    {
      ReadStep(parse, chunks, i);
      buffer := buffer + chunks[i];
      var lines := Split(buffer, '\n');
      buffer := lines[|lines| - 1];
      var yielded := YieldLines(parse, lines[..|lines| - 1]);
      out := out + yielded;
      i := i + 1;
    }
    assert chunks[..|chunks|] == chunks;
  }

  /** The `for` loop over the complete lines of one read: blank lines are
      skipped, lines that fail to parse are skipped, and a non-empty content
      is yielded. */
  method YieldLines(parse: string -> Option<string>, lines: seq<string>) returns (out: seq<string>)
    ensures out == LineIncrements(parse, lines)
  {
    out := [];
    var j := 0;
    while j < |lines|
      invariant 0 <= j <= |lines|
      invariant out == LineIncrements(parse, lines[..j])
    {
      var line := lines[j];
      if !IsBlank(line) {
        match parse(line) {
          case Some(c) =>
            if c != "" {
              out := out + [c];
            }
          case None =>
        }
      }
      assert lines[..j + 1][..j] == lines[..j];
      j := j + 1;
    }
    assert lines[..|lines|] == lines;
  }

  // ---------------------------------------------------------------------
  // Properties of the framing
  // ---------------------------------------------------------------------

  /** After a read, the buffer plus the new text is exactly the complete
      lines, each followed by a newline, then the new buffer: nothing is
      lost or duplicated, and neither the lines nor the new buffer contain a
      newline. */
  lemma FramingLosesNothing(buffer: string, chunk: string)
    ensures var lines := Split(buffer + chunk, '\n');
      && buffer + chunk == Join(lines[..|lines| - 1] + [lines[|lines| - 1]], '\n')
      && '\n' !in lines[|lines| - 1]
      && forall k :: 0 <= k < |lines| - 1 ==> '\n' !in lines[k]
  {
    var lines := Split(buffer + chunk, '\n');
    assert lines[..|lines| - 1] + [lines[|lines| - 1]] == lines;
    JoinSplit(buffer + chunk, '\n');
    SplitPiecesFree(buffer + chunk, '\n');
  }

  /** Framing text `x` and then `y` from the held-back fragment of `x`
      completes the same lines, and holds back the same fragment, as framing
      `x + y` at once. */
  lemma ResumeFromBuffer(x: string, y: string)
    ensures CompleteLines(x + y) == CompleteLines(x) + CompleteLines(Leftover(x) + y)
    ensures Leftover(x + y) == Leftover(Leftover(x) + y)
  {
    SplitAfterBuffer(x, y);
    InitOfAppend(CompleteLines(x), Split(Leftover(x) + y, '\n'));
  }

  /** The pieces of `x + y` are the complete lines of `x`, then the pieces
      of the held-back fragment of `x` followed by `y`. */
  lemma SplitAfterBuffer(x: string, y: string)
    ensures Split(x + y, '\n') == CompleteLines(x) + Split(Leftover(x) + y, '\n')
  {
    var sx, sy := Split(x, '\n'), Split(y, '\n');
    var rest := sx[|sx| - 1];
    calc {
      Split(x + y, '\n');
      { SplitConcat(x, y, '\n'); }
      sx[..|sx| - 1] + [rest + sy[0]] + sy[1..];
      CompleteLines(x) + ([rest + sy[0]] + sy[1..]);
      { LastPieceFree(x, '\n'); OnePieceThenY(rest, y); }
      CompleteLines(x) + Split(rest + y, '\n');
    }
  }

  /** A fragment without a newline fuses with the first piece of what
      follows it. */
  lemma OnePieceThenY(rest: string, y: string)
    requires '\n' !in rest
    ensures var sy := Split(y, '\n');
      Split(rest + y, '\n') == [rest + sy[0]] + sy[1..]
  {
    SplitNoSep(rest, '\n');
    SplitConcat(rest, y, '\n');
    assert [rest][..0] == [];
  }

  lemma InitOfAppend<T>(p: seq<T>, q: seq<T>)
    requires |q| >= 1
    ensures (p + q)[..|p + q| - 1] == p + q[..|q| - 1]
    ensures (p + q)[|p + q| - 1] == q[|q| - 1]
  {
  }

  /** One turn of the read loop keeps the loop's invariant: the buffer is
      the leftover, and what has been yielded is the yield of the complete
      lines, of the text read so far. */
  lemma ReadStep(parse: string -> Option<string>, chunks: seq<string>, i: nat)
    requires i < |chunks|
    ensures var lines := Split(Leftover(Concat(chunks[..i])) + chunks[i], '\n');
      && Leftover(Concat(chunks[..i + 1])) == lines[|lines| - 1]
      && LineIncrements(parse, CompleteLines(Concat(chunks[..i + 1]))) ==
         LineIncrements(parse, CompleteLines(Concat(chunks[..i]))) + LineIncrements(parse, lines[..|lines| - 1])
  {
    var before := Concat(chunks[..i]);
    assert chunks[..i + 1][..i] == chunks[..i];
    assert Concat(chunks[..i + 1]) == before + chunks[i];
    ResumeFromBuffer(before, chunks[i]);
    var lines := Split(Leftover(before) + chunks[i], '\n');
    LineIncrementsAppend(parse, CompleteLines(before), lines[..|lines| - 1]);
  }

  /** The yield of lines is the concatenation of the yields of their parts:
      increments come out in line order. */
  lemma {:induction false} LineIncrementsAppend(parse: string -> Option<string>, a: seq<string>, b: seq<string>)
    ensures LineIncrements(parse, a + b) == LineIncrements(parse, a) + LineIncrements(parse, b)
    decreases |b|
  {
    if b == [] {
      assert a + b == a;
    } else {
      var b', last := b[..|b| - 1], b[|b| - 1];
      var ab := a + b;
      assert ab[..|ab| - 1] == a + b';
      assert ab[|ab| - 1] == last;
      calc {
        LineIncrements(parse, ab);
        LineIncrements(parse, a + b') + LineIncrement(parse, last);
        { LineIncrementsAppend(parse, a, b'); }
        LineIncrements(parse, a) + LineIncrements(parse, b') + LineIncrement(parse, last);
        LineIncrements(parse, a) + LineIncrements(parse, b);
      }
    }
  }

  /** The streaming decoder can be cut anywhere: decoding `x + y` yields
      the complete lines of `x`, then what decoding the held-back fragment
      of `x` followed by `y` yields. So every way of cutting the body into
      chunks gives the same increments. */
  lemma DecodeResumes(parse: string -> Option<string>, x: string, y: string)
    ensures Decode(parse, x + y) ==
      LineIncrements(parse, CompleteLines(x)) + Decode(parse, Leftover(x) + y)
  {
    ResumeFromBuffer(x, y);
    LineIncrementsAppend(parse, CompleteLines(x), CompleteLines(Leftover(x) + y));
  }

  /** A blank line between other lines yields nothing and does not disturb
      what the others yield. */
  lemma BlankLineSkipped(parse: string -> Option<string>, a: seq<string>, line: string, b: seq<string>)
    requires IsBlank(line)
    ensures LineIncrements(parse, a + [line] + b) == LineIncrements(parse, a + b)
  {
    LineIncrementsAppend(parse, a + [line], b);
    LineIncrementsAppend(parse, a, b);
    LineDropped(parse, a, line);
  }

  /** A line that fails to parse yields nothing, and the lines after it are
      still decoded. */
  lemma MalformedLineSkipped(parse: string -> Option<string>, a: seq<string>, line: string, b: seq<string>)
    requires parse(line).None?
    ensures LineIncrements(parse, a + [line] + b) == LineIncrements(parse, a + b)
  {
    LineIncrementsAppend(parse, a + [line], b);
    LineIncrementsAppend(parse, a, b);
    LineDropped(parse, a, line);
  }

  /** A non-blank line whose content parses and is not empty yields that
      content, in its place between what the lines around it yield. */
  lemma LineYielded(parse: string -> Option<string>, a: seq<string>, line: string, b: seq<string>)
    requires !IsBlank(line) && parse(line).Some? && parse(line).value != ""
    ensures LineIncrements(parse, a + [line] + b) ==
      LineIncrements(parse, a) + [parse(line).value] + LineIncrements(parse, b)
  {
    LineIncrementsAppend(parse, a + [line], b);
    var al := a + [line];
    assert al[..|al| - 1] == a;
    assert al[|al| - 1] == line;
  }

  /** A line that yields nothing adds nothing to the yield before it. */
  lemma LineDropped(parse: string -> Option<string>, a: seq<string>, line: string)
    requires LineIncrement(parse, line) == []
    ensures LineIncrements(parse, a + [line]) == LineIncrements(parse, a)
  {
    var al := a + [line];
    assert al[..|al| - 1] == a;
    assert al[|al| - 1] == line;
  }

  /** `x` is the non-empty content of some non-blank line of `lines`. */
  ghost predicate ParsedFrom(parse: string -> Option<string>, lines: seq<string>, x: string) {
    x != "" && exists j :: 0 <= j < |lines| && !IsBlank(lines[j]) && parse(lines[j]) == Some(x)
  }

  /** Every increment is the non-empty content of some non-blank line that
      parsed. */
  lemma {:induction false} IncrementsComeFromLines(parse: string -> Option<string>, lines: seq<string>)
    ensures forall k :: 0 <= k < |LineIncrements(parse, lines)| ==>
      ParsedFrom(parse, lines, LineIncrements(parse, lines)[k])
  {
    if lines != [] {
      var init, last := lines[..|lines| - 1], lines[|lines| - 1];
      IncrementsComeFromLines(parse, init);
      var out := LineIncrements(parse, lines);
      var head := LineIncrements(parse, init);
      assert out == head + LineIncrement(parse, last);
      forall k | 0 <= k < |out| ensures ParsedFrom(parse, lines, out[k]) {
        if k < |head| {
          assert ParsedFrom(parse, init, head[k]);
          var j :| 0 <= j < |init| && !IsBlank(init[j]) && parse(init[j]) == Some(head[k]);
          assert lines[j] == init[j];
        } else {
          assert lines[|lines| - 1] == last;
        }
      }
    }
  }

  /** Every increment of a run is non-empty, whatever the reply. */
  lemma IncrementsNonEmpty(parse: string -> Option<string>, reply: ChatReply)
    ensures var out := ExpectedRun(parse, reply).increments;
      forall k :: 0 <= k < |out| ==> out[k] != ""
  {
    if reply.ChatResponse? && IsOk(reply.status) && reply.body.Some? {
      var text := Concat(reply.body.value.chunks);
      IncrementsComeFromLines(parse, CompleteLines(text));
    }
  }

  /** Re-chunking invariance: two bodies with the same text and the same
      ending give the same run, however the text was cut into reads. */
  lemma RechunkingInvariant(parse: string -> Option<string>, status: nat, statusText: string,
                            c1: seq<string>, c2: seq<string>, ending: ReadEnd)
    requires Concat(c1) == Concat(c2)
    ensures ExpectedRun(parse, ChatResponse(status, statusText, Some(Body(c1, ending))))
         == ExpectedRun(parse, ChatResponse(status, statusText, Some(Body(c2, ending))))
  {
  }
}
