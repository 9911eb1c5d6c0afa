/**
 * `src/server.py`: the configuration lookup, the line-equality search and
 * the per-connection handler `handle_clients`, whose socket reads are a
 * scripted sequence of received chunks.
 */
module Server {
  import opened Wrappers
  import opened PyStr
  import opened Decimal
  import opened Frame
  import opened LineScan

  /** The key of the configuration line that names the dataset, and that key with its `'='`. */
  const PathName := "linuxpath"
  const PathKey := PathName + "="

  /** A configuration line after the key, once the line is stripped. */
  function AfterKey(line: string): (rest: string)
    requires StartsWith(line, PathKey)
    ensures Strip(line) == PathKey + rest
  {
    StripKeepsPrefix(line, PathKey);
    Strip(line)[|PathKey|..]
  }

  /**
   * `data.strip().split('=')[1]` on a line starting with the key: the text
   * after the key up to the next `'='`, or to the end of the stripped line.
   */
  function ConfigValue(line: string): (v: string)
    requires StartsWith(line, PathKey)
    ensures '=' !in v
    ensures StartsWith(AfterKey(line), v)
    ensures |v| == |AfterKey(line)| || AfterKey(line)[|v|] == '='
  {
    assert '=' !in PathName;
    SplitAfterPrefix(PathName, '=', AfterKey(line));
    SplitHead(AfterKey(line), '=');
    Split(Strip(line), '=')[1]
  }

  /** None of the first `k` lines starts with the key. */
  predicate NoKeyLineBefore(lines: seq<string>, k: nat) {
    forall j :: 0 <= j < k && j < |lines| ==> !StartsWith(lines[j], PathKey)
  }

  /**
   * `read_config()` over the lines of `config.ini`: the value of the first
   * line that starts with the key, or `None` when no line does.
   */
  function ReadConfig(lines: seq<string>): (path: Option<string>)
    ensures path == None <==> forall k :: 0 <= k < |lines| ==> !StartsWith(lines[k], PathKey)
    ensures forall k :: 0 <= k < |lines| && StartsWith(lines[k], PathKey) && NoKeyLineBefore(lines, k) ==>
      path == Some(ConfigValue(lines[k]))
  {
    if lines == [] then None
    else if StartsWith(lines[0], PathKey) then Some(ConfigValue(lines[0]))
    else
      ReadConfig(lines[1..])
  }

  /**
   * `find_string_match(message, REREAD_ON_QUERY)`: some line of
   * `file_data.splitlines()` equals the message once both are stripped.
   * Both values of the flag fetch the file: the lazy branch tests for a
   * global `file_data` that this module never defines, so `source`, the
   * file's contents at the time of the call, is always what is searched.
   */
  function FindStringMatch(message: string, reread: bool, source: string): (v: Verdict)
    ensures v == Exists <==> HasStrippedLine(SplitLines(source), message)
  {
    VerdictOf(StrippedScan(message, SplitLines(source)))
  }

  /** Every line of the file is found, whatever whitespace surrounds the query. */
  lemma ServerFindsEveryLine(source: string, k: nat, pre: string, post: string, reread: bool)
    requires k < |SplitLines(source)|
    requires AllSpace(pre) && AllSpace(post)
    ensures FindStringMatch(pre + SplitLines(source)[k] + post, reread, source) == Exists
  {
    StripPadded(pre, SplitLines(source)[k], post);
  }

  /** A query that still holds a `'\n'` after stripping spans lines and is never found. */
  lemma ServerRejectsMultiLine(message: string, reread: bool, source: string)
    requires '\n' in Strip(message)
    ensures FindStringMatch(message, reread, source) == NotFound
  {
    var lines := SplitLines(source);
    forall k | 0 <= k < |lines| ensures Strip(lines[k]) != Strip(message) {
      SplitLinesPieceFree(source, k);
      StripKeepsOut(lines[k], '\n');
    }
  }

  /** How a connection handler stops: the peer closed, or an exception ended it. */
  datatype HandlerEnd = PeerClosed | Failed(error: PyError)

  /** What a handler reads from a script: the messages it answers, in order, and how it stops. */
  datatype Session = Session(messages: seq<string>, end: HandlerEnd)

  /** What one pass of the handler's loop reads before it searches. */
  datatype Request =
    | Closed                                  // an empty header: the peer closed
    | Skipped(rest: seq<string>)              // a header that `int` rejects: `continue`
    | Refused(error: PyError)                 // `recv` raised on the announced length
    | Query(message: string, rest: seq<string>)

  /** `int(message_header.strip())` on the header chunk cut to `HEADERSIZE`. */
  function HeaderValue(chunk: string): Option<int>
  {
    PyInt(Take(chunk, HeaderSize))
  }

  /**
   * The next request on a script: `recv(HEADERSIZE)`, then, when
   * `int(header.strip())` accepts the header, a `recv` of that many
   * characters. A header `int` rejects is skipped: no payload is read.
   */
  function NextRequest(chunks: seq<string>): (q: Request)
    ensures q.Closed? <==> chunks == [] || chunks[0] == []
    ensures chunks != [] && chunks[0] != [] && HeaderValue(chunks[0]).None? ==> q == Skipped(Drop(chunks, HeaderSize))
    ensures q.Refused? <==> chunks != [] && chunks[0] != [] && HeaderValue(chunks[0]).Some? && !(0 <= HeaderValue(chunks[0]).value <= MaxSize)
    ensures q.Query? ==>
      && chunks != [] && HeaderValue(chunks[0]).Some?
      && Recv(Drop(chunks, HeaderSize), HeaderValue(chunks[0]).value) == Ok((q.message, q.rest))
    ensures q.Skipped? || q.Query? ==> Size(q.rest) < Size(chunks)
  {
    if chunks == [] || chunks[0] == [] then Closed
    else
      var rest := Drop(chunks, HeaderSize);
      match HeaderValue(chunks[0])
      case None => Skipped(rest)
      case Some(n) =>
        match Recv(rest, n)
        case Err(e) => Refused(e)
        case Ok((message, after)) => Query(message, after)
  }

  /**
   * The protocol `handle_clients` reads: an empty header ends the session,
   * a header that `int` rejects is skipped, a refused `recv` fails it, and
   * every other request is a message answered in turn. Every message uses
   * up at least its header's first character.
   */
  function Decode(chunks: seq<string>): (s: Session)
    ensures |s.messages| <= Size(chunks)
    decreases Size(chunks)
  {
    match NextRequest(chunks)
    case Closed => Session([], PeerClosed)
    case Skipped(rest) => Decode(rest)
    case Refused(e) => Session([], Failed(e))
    case Query(message, rest) =>
      var tail := Decode(rest);
      Session([message] + tail.messages, tail.end)
  }

  /**
   * The reads at the top of the loop: `recv(HEADERSIZE)`, the empty-header
   * test, `int(message_header.strip())` and `recv(message_length)`.
   */
  method ReadRequest(chunks: seq<string>) returns (q: Request)
    ensures q == NextRequest(chunks)
  {
    var received := Recv(chunks, HeaderSize);
    var header, rest := received.value.0, received.value.1;
    if |header| == 0 {
      return Closed;
    }
    var length := PyInt(header);
    if length == None {
      return Skipped(rest);
    }
    var payload := Recv(rest, length.value);
    if payload.Err? {
      return Refused(payload.error);
    }
    q := Query(payload.value.0, payload.value.1);
  }

  /** The two frames that carry a payload: its length header, then the payload. */
  function Reply(text: string): (frames: seq<string>)
    ensures |frames| == 2
  {
    [EncodeHeader(|text|), text]
  }

  /** A verdict's reply is a full-width header that parses back to the length of the verdict text after it. */
  lemma ReplyFrames(v: Verdict)
    ensures Reply(VerdictText(v))[1] == VerdictText(v)
    ensures |Reply(VerdictText(v))[0]| == HeaderSize
    ensures PyInt(Reply(VerdictText(v))[0]) == Some(|VerdictText(v)|)
  {
    var text := VerdictText(v);
    HeaderRoundTrip(|text|);
    StripIdempotent(EncodeHeader(|text|));
    assert |Digits(|text|)| <= HeaderSize by {
      VerdictLength(v);
      DigitsLength(|text|, 2);
    }
  }

  /**
   * The response step of the loop: `str(len(string_match))` padded with
   * `b'\n'` to `HEADERSIZE`, sent before the verdict itself.
   */
  method SendVerdict(text: string) returns (frames: seq<string>)
    ensures frames == Reply(text)
  {
    var header := Digits(|text|);
    header := header + Padding(HeaderSize - |header|);
    frames := [header, text];
  }

  /** The verdict text the handler sends for one message. */
  function Answer(message: string, source: string): (text: string)
    ensures text == "STRING EXISTS\n" <==> HasStrippedLine(SplitLines(source), message)
    ensures text == "STRING NOT FOUND\n" <==> !HasStrippedLine(SplitLines(source), message)
  {
    VerdictText(FindStringMatch(message, true, source))
  }

  /** The verdict texts for a sequence of messages, each searched against the dataset, in order. */
  function Answers(messages: seq<string>, source: string): (texts: seq<string>)
    ensures |texts| == |messages|
  {
    seq(|messages|, k requires 0 <= k < |messages| => Answer(messages[k], source))
  }

  /** The frames sent for a sequence of payloads, in order. */
  function Responses(texts: seq<string>): (frames: seq<string>)
    ensures |frames| == 2 * |texts|
    decreases |texts|
  {
    if texts == [] then []
    else Responses(texts[..|texts| - 1]) + Reply(texts[|texts| - 1])
  }

  /** The `k`-th payload is carried by frames `2k` and `2k + 1`. */
  lemma {:induction false} ResponsesAt(texts: seq<string>, k: nat)
    requires k < |texts|
    ensures Responses(texts)[2 * k] == EncodeHeader(|texts[k]|)
    ensures Responses(texts)[2 * k + 1] == texts[k]
    decreases |texts|
  {
    var init := texts[..|texts| - 1];
    if k < |init| {
      ResponsesAt(init, k);
      assert init[k] == texts[k];
    }
  }

  /** Answering one more message appends its verdict's reply. */
  lemma AnswerOneMore(messages: seq<string>, message: string, source: string)
    ensures Responses(Answers(messages + [message], source))
         == Responses(Answers(messages, source)) + Reply(Answer(message, source))
  {
    assert (messages + [message])[..|messages|] == messages;
    var texts := Answers(messages + [message], source);
    assert texts[..|texts| - 1] == Answers(messages, source);
  }

  /** How `Decode` treats the next request, one case at a time. */
  lemma DecodeNext(chunks: seq<string>)
    ensures NextRequest(chunks).Closed? ==> Decode(chunks) == Session([], PeerClosed)
    ensures NextRequest(chunks).Skipped? ==> Decode(chunks) == Decode(NextRequest(chunks).rest)
    ensures NextRequest(chunks).Refused? ==> Decode(chunks) == Session([], Failed(NextRequest(chunks).error))
    ensures NextRequest(chunks).Query? ==> (Decode(chunks) ==
      Session([NextRequest(chunks).message] + Decode(NextRequest(chunks).rest).messages, Decode(NextRequest(chunks).rest).end))
  {
  }

  /** The frames of a non-empty payload, as `send_search_query` sends them, are read back as exactly that payload. */
  lemma NextRequestReply(text: string, later: seq<string>)
    requires text != [] && |text| <= MaxSize
    ensures NextRequest(Reply(text) + later) == Query(text, later)
  {
    var chunks := Reply(text) + later;
    var header := EncodeHeader(|text|);
    assert chunks[0] == header && chunks[1..] == [text] + later;
    MaxSizeDigits(|text|);
    assert HeaderValue(header) == Some(|text|) by {
      assert Take(header, HeaderSize) == header;
      HeaderRoundTrip(|text|);
    }
    var rest := [text] + later;
    assert Drop(chunks, HeaderSize) == rest;
    assert rest[0] == text && rest[1..] == later;
  }

  /** One query frame pair in front of a script: the handler answers that query, then goes on with the rest. */
  lemma DecodeReply(text: string, later: seq<string>)
    requires text != [] && |text| <= MaxSize
    ensures Decode(Reply(text) + later) == Session([text] + Decode(later).messages, Decode(later).end)
  {
    NextRequestReply(text, later);
    DecodeNext(Reply(text) + later);
  }

  /** A header announcing more than `sys.maxsize` characters ends the handler with `OverflowError`, before any reply. */
  lemma DecodeOverflow(chunks: seq<string>)
    requires chunks != [] && chunks[0] != [] && HeaderValue(chunks[0]).Some? && HeaderValue(chunks[0]).value > MaxSize
    ensures Decode(chunks) == Session([], Failed(OverflowError("Python int too large to convert to C ssize_t")))
  {
  }

  /**
   * The `while connected` loop of `handle_clients`: per iteration, an empty
   * header returns, a header that is not a number is skipped (`continue`), a
   * length `recv` refuses (negative, or beyond a C `ssize_t`) raises up to
   * the outer `except`, and any other message is searched and answered with
   * a header frame and a verdict frame. The dataset `source` is the file's
   * text, taken to stay the same for the whole connection.
   */
  method Serve(source: string, chunks: seq<string>) returns (sent: seq<string>, end: HandlerEnd)
    ensures sent == Responses(Answers(Decode(chunks).messages, source))
    ensures end == Decode(chunks).end
  {
    sent := [];
    var rest := chunks;
    ghost var answered: seq<string> := [];
    while true
      invariant Decode(chunks) == Session(answered + Decode(rest).messages, Decode(rest).end)
      invariant sent == Responses(Answers(answered, source))
      decreases Size(rest)
    {
      var request := ReadRequest(rest);
      DecodeNext(rest);
      if request.Closed? {
        assert answered + [] == answered;
        end := PeerClosed;
        return;
      }
      if request.Skipped? {
        rest := request.rest;
        continue;
      }
      if request.Refused? {
        assert answered + [] == answered;
        end := Failed(request.error);
        return;
      }
      var message := request.message;
      rest := request.rest;
      AppendAssoc(answered, [message], Decode(rest).messages);
      var verdict := FindStringMatch(message, true, source);
      var frames := SendVerdict(VerdictText(verdict));
      AnswerOneMore(answered, message, source);
      sent := sent + frames;
      answered := answered + [message];
    }
  }

  /**
   * `handle_clients` on one connection: with no dataset path configured it
   * raises before reading; otherwise it serves the connection until the
   * peer closes or an exception ends it.
   */
  method HandleClients(configLines: seq<string>, source: string, chunks: seq<string>)
    returns (sent: seq<string>, end: HandlerEnd)
    ensures ReadConfig(configLines) == None ==> sent == [] && end == Failed(ValueError("File Path not found."))
    ensures ReadConfig(configLines) != None ==>
      sent == Responses(Answers(Decode(chunks).messages, source)) && end == Decode(chunks).end
  {
    var path := ReadConfig(configLines);
    if path == None {
      sent := [];
      end := Failed(ValueError("File Path not found."));
      return;
    }
    sent, end := Serve(source, chunks);
  }
}
