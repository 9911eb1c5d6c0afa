/**
 * `src/client.py`: the query frames `send_search_query` sends, the reply
 * `receive_message` parses and formats, and the input loop of `main`.
 * Sockets become frame sequences: what is sent is returned, and what is
 * received is a script of chunks, as in the server model.
 */
module Client {
  import opened Wrappers
  import opened PyStr
  import opened Decimal
  import opened Frame
  import Server

  /** The message of the exception `receive_message` raises on a header `int` rejects. */
  const InvalidHeader: string := "Error receiving message: Invalid message header"

  /** The message of the exception `receive_message` raises on any other error while reading. */
  const ReadFailed: string := "Error receiving message: Error reading message from server"

  /** The text `receive_message` puts before the announced length. */
  const ReceivedPrefix: string := "[Received message from server] "

  /**
   * `send_search_query(search_query, client_socket)` as written: the
   * header is `str(len(search_query))`, stripped and padded with `b'\n'`
   * to `HEADERSIZE`, and the second send is the query. It is the server's
   * reply encoding, and the length it announces is a count of characters.
   */
  method SendSearchQuery(query: string) returns (frames: seq<string>)
    ensures frames == Server.Reply(query)
    ensures PyInt(frames[0]) == Some(|query|)
  {
    var sendLength := Strip(Digits(|query|));
    DigitsUnpadded(|query|);
    StripUnpadded(Digits(|query|));
    sendLength := sendLength + Padding(HeaderSize - |sendLength|);
    frames := [sendLength, query];
    HeaderRoundTrip(|query|);
  }

  /**
   * The payload goes out as UTF-8 while the header counts characters: for
   * `"é"` the header announces 1 and the payload is 2 bytes long.
   */
  lemma HeaderCountsCharacters()
    ensures PyInt(Server.Reply("é")[0]) == Some(1)
    ensures Utf8Length(Server.Reply("é")[1]) == 2
  {
    HeaderRoundTrip(1);
  }

  /** The intended frames for a query: the header announces the payload's length in UTF-8 bytes. */
  function QueryFrames(query: string): (frames: seq<string>)
    ensures |frames| == 2 && frames[1] == query
    ensures PyInt(frames[0]) == Some(Utf8Length(frames[1]))
    ensures IsAscii(query) ==> frames == Server.Reply(query)
  {
    HeaderRoundTrip(Utf8Length(query));
    [EncodeHeader(Utf8Length(query)), query]
  }

  /** `send_search_query` with the header taken from `len(search_query.encode('UTF-8'))`. */
  method SendSearchQueryUtf8(query: string) returns (frames: seq<string>)
    ensures frames == QueryFrames(query)
  {
    var payload := query;
    var sendLength := Digits(Utf8Length(payload));
    sendLength := sendLength + Padding(HeaderSize - |sendLength|);
    frames := [sendLength, payload];
  }

  /** The line `receive_message` returns for an announced length and the payload read. */
  function Shown(n: nat, message: string): (line: string)
    ensures line == ReceivedPrefix + Digits(n) + " : " + message
    ensures |line| > |ReceivedPrefix| + |message| && line[|line| - |message|..] == message
  {
    ReceivedPrefix + Digits(n) + " : " + message
  }

  /**
   * The message of the exception `receive_message` raises for an error: its
   * `except ValueError` clause comes first, `except Exception` takes the rest.
   */
  function Reported(e: PyError): (message: string)
    ensures message == InvalidHeader <==> e.ValueError?
    ensures message == ReadFailed <==> !e.ValueError?
  {
    if e.ValueError? then InvalidHeader else ReadFailed
  }

  /** A header chunk's length announces a size `recv` refuses with something other than `ValueError`. */
  predicate OverflowingHeader(chunks: seq<string>) {
    chunks != [] && Server.HeaderValue(chunks[0]).Some? && !FitsSsize(Server.HeaderValue(chunks[0]).value)
  }

  /**
   * `receive_message(client_socket)`: `recv(HEADERSIZE)`, `int` of the
   * stripped header, `recv` of that many characters, then the formatted
   * line. An empty header only prints before `int('')` rejects it. A
   * rejected header and a negative length (which `recv` refuses with a
   * `ValueError`) raise the invalid-header exception; a length outside the
   * C `ssize_t` range makes `recv` raise `OverflowError`, which raises the
   * reading exception.
   */
  function ReceiveMessage(chunks: seq<string>): (r: Result<(string, seq<string>)>)
    ensures r.Ok? <==> chunks != [] && Server.HeaderValue(chunks[0]).Some? && 0 <= Server.HeaderValue(chunks[0]).value <= MaxSize
    ensures r.Err? ==> r.error == Raised(if OverflowingHeader(chunks) then ReadFailed else InvalidHeader)
    ensures r.Ok? ==> Size(r.value.1) < Size(chunks)
  {
    var (header, rest) := Recv(chunks, HeaderSize).value;
    match PyInt(header)
    case None => Err(Raised(InvalidHeader))
    case Some(n) =>
      match Recv(rest, n)
      case Err(e) => Err(Raised(Reported(e)))
      case Ok((message, after)) => Ok((Shown(n, message), after))
  }

  /** A closed connection or an empty header raises the invalid-header exception. */
  lemma ReceiveEmptyHeader(chunks: seq<string>)
    requires chunks == [] || chunks[0] == []
    ensures ReceiveMessage(chunks) == Err(Raised(InvalidHeader))
  {
    StripEmpty([]);
  }

  /** A header holding a character that is no digit, sign or whitespace raises the invalid-header exception. */
  lemma ReceiveNonNumericHeader(chunks: seq<string>, k: nat)
    requires chunks != [] && k < |chunks[0]| && k < HeaderSize
    requires !IsDigit(chunks[0][k]) && !IsSpace(chunks[0][k]) && chunks[0][k] != '+' && chunks[0][k] != '-'
    ensures ReceiveMessage(chunks) == Err(Raised(InvalidHeader))
  {
    var header := Take(chunks[0], HeaderSize);
    assert header[k] == chunks[0][k];
    var a, b := StripBounds(header);
    assert a <= k < b;
    assert Strip(header)[k - a] == header[k];
    ParseSignedRejects(Strip(header), k - a);
  }

  /** A header chunk that parses to a positive length, then a payload chunk: the line for that length and the payload read. */
  lemma ReceiveParsed(chunks: seq<string>, n: nat)
    requires |chunks| >= 2 && |chunks[0]| <= HeaderSize && 1 <= n <= MaxSize && Server.HeaderValue(chunks[0]) == Some(n)
    ensures ReceiveMessage(chunks) == Ok((Shown(n, Take(chunks[1], n)), Drop(chunks[1..], n)))
  {
    assert chunks[1..][0] == chunks[1];
  }

  /** A header of length 0: `recv(0)` reads nothing, and the line ends after `0 : `. */
  lemma ReceiveZero(chunks: seq<string>)
    requires chunks != [] && Server.HeaderValue(chunks[0]) == Some(0)
    ensures ReceiveMessage(chunks) == Ok((ReceivedPrefix + "0 : ", Drop(chunks, HeaderSize)))
  {
    assert Digits(0) == "0";
    assert Shown(0, []) == ReceivedPrefix + "0 : ";
    assert Recv(Drop(chunks, HeaderSize), 0) == Ok(([], Drop(chunks, HeaderSize)));
  }

  /** A length beyond `sys.maxsize` raises the reading exception, not the invalid-header one. */
  lemma ReceiveOverflow(chunks: seq<string>)
    requires chunks != [] && Server.HeaderValue(chunks[0]).Some? && Server.HeaderValue(chunks[0]).value > MaxSize
    ensures ReceiveMessage(chunks) == Err(Raised(ReadFailed))
  {
  }

  /**
   * The client reads back what the server sends: a reply frame pair is
   * parsed to its length and payload, and the chunks after it are left.
   */
  lemma ReceiveReply(text: string, later: seq<string>)
    requires text != [] && |text| <= MaxSize
    ensures ReceiveMessage(Server.Reply(text) + later) == Ok((Shown(|text|, text), later))
  {
    var frames := Server.Reply(text) + later;
    assert frames[0] == EncodeHeader(|text|) && frames[1] == text && frames[2..] == later;
    assert |Digits(|text|)| <= HeaderSize by {
      MaxSizeDigits(|text|);
    }
    assert Server.HeaderValue(frames[0]) == Some(|text|) by {
      HeaderStrips(|text|);
      PyIntDigits(|text|);
    }
    ReceiveParsed(frames, |text|);
  }

  /** How the input loop of `main` ends: on `exit`, at the end of input (`EOFError`), or on an exception. */
  datatype ClientEnd = Exited | InputEnded | Failed(error: PyError)

  /** What a run of `main` does: the frames it sends, the lines it prints, and how it ends. */
  datatype Trace = Trace(sent: seq<string>, shown: seq<string>, end: ClientEnd)

  /**
   * `main` on a script of input lines and received chunks: each line is
   * stripped; a blank one prompts again, `exit` in any letter case ends the
   * loop, and any other is sent and answered by one `receive_message`.
   */
  function Run(inputs: seq<string>, incoming: seq<string>): Trace
    decreases |inputs|
  {
    if inputs == [] then Trace([], [], InputEnded)
    else
      var text := Strip(inputs[0]);
      if |text| == 0 then Run(inputs[1..], incoming)
      else if LowerAscii(text) == "exit" then Trace([], [], Exited)
      else
        match ReceiveMessage(incoming)
        case Err(e) => Trace(Server.Reply(text), [], Failed(e))
        case Ok((line, rest)) =>
          var tail := Run(inputs[1..], rest);
          Trace(Server.Reply(text) + tail.sent, [line] + tail.shown, tail.end)
  }

  /** The queries `main` sends when every reply arrives: the stripped non-blank lines before the first `exit`. */
  function Queries(inputs: seq<string>): seq<string>
    decreases |inputs|
  {
    if inputs == [] then []
    else
      var text := Strip(inputs[0]);
      if |text| == 0 then Queries(inputs[1..])
      else if LowerAscii(text) == "exit" then []
      else [text] + Queries(inputs[1..])
  }

  /** No query sent is blank, padded, or a spelling of `exit`. */
  lemma {:induction false} QueriesClean(inputs: seq<string>, k: nat)
    requires k < |Queries(inputs)|
    ensures Queries(inputs)[k] != [] && Strip(Queries(inputs)[k]) == Queries(inputs)[k]
    ensures LowerAscii(Queries(inputs)[k]) != "exit"
    decreases |inputs|
  {
    var text := Strip(inputs[0]);
    if |text| == 0 {
      QueriesClean(inputs[1..], k);
    } else if k == 0 {
      StripIdempotent(inputs[0]);
    } else {
      QueriesClean(inputs[1..], k - 1);
    }
  }

  /** The frames for a sequence of queries, in order. */
  function AllFrames(queries: seq<string>): (frames: seq<string>)
    ensures |frames| == 2 * |queries|
  {
    if queries == [] then [] else Server.Reply(queries[0]) + AllFrames(queries[1..])
  }

  /** The server reads the frames of non-empty queries back as exactly those queries, in order. */
  lemma {:induction false} ServerReadsQueries(queries: seq<string>, later: seq<string>)
    requires forall k :: 0 <= k < |queries| ==> queries[k] != [] && |queries[k]| <= MaxSize
    ensures Server.Decode(AllFrames(queries) + later)
         == Server.Session(queries + Server.Decode(later).messages, Server.Decode(later).end)
    decreases |queries|
  {
    if queries != [] {
      var q, more := queries[0], queries[1..];
      var tail, d := AllFrames(more) + later, Server.Decode(later);
      assert AllFrames(queries) + later == Server.Reply(q) + tail by {
        AppendAssoc(Server.Reply(q), AllFrames(more), later);
      }
      Server.DecodeReply(q, tail);
      ServerReadsQueries(more, later);
      assert [q] + (more + d.messages) == queries + d.messages by {
        AppendAssoc([q], more, d.messages);
        assert [q] + more == queries;
      }
    } else {
      assert AllFrames(queries) + later == later;
      assert queries + Server.Decode(later).messages == Server.Decode(later).messages;
    }
  }

  /** A run that no exception ends sends the frames of exactly the queries, and prints one line per query. */
  lemma {:induction false} RunSendsQueries(inputs: seq<string>, incoming: seq<string>)
    requires !Run(inputs, incoming).end.Failed?
    ensures Run(inputs, incoming).sent == AllFrames(Queries(inputs))
    ensures |Run(inputs, incoming).shown| == |Queries(inputs)|
    decreases |inputs|
  {
    if inputs != [] {
      var text := Strip(inputs[0]);
      if |text| == 0 {
        RunSendsQueries(inputs[1..], incoming);
      } else if LowerAscii(text) != "exit" {
        var rest := ReceiveMessage(incoming).value.1;
        RunSendsQueries(inputs[1..], rest);
        assert ([text] + Queries(inputs[1..]))[1..] == Queries(inputs[1..]);
      }
    }
  }

  /** An `exit` line, in any letter case and with any surrounding whitespace, stops the loop before the input ends. */
  lemma {:induction false} RunStopsAtExit(inputs: seq<string>, incoming: seq<string>, k: nat)
    requires k < |inputs| && LowerAscii(Strip(inputs[k])) == "exit"
    ensures Run(inputs, incoming).end != InputEnded
    decreases |inputs|
  {
    var text := Strip(inputs[0]);
    if k > 0 && (|text| == 0 || LowerAscii(text) != "exit") {
      if |text| == 0 {
        RunStopsAtExit(inputs[1..], incoming, k - 1);
      } else if ReceiveMessage(incoming).Ok? {
        RunStopsAtExit(inputs[1..], ReceiveMessage(incoming).value.1, k - 1);
      }
    }
  }

  /** One pass of the loop, one case at a time. */
  lemma RunNext(inputs: seq<string>, incoming: seq<string>)
    requires inputs != []
    ensures var text := Strip(inputs[0]);
      && (|text| == 0 ==> Run(inputs, incoming) == Run(inputs[1..], incoming))
      && (|text| != 0 && LowerAscii(text) == "exit" ==> Run(inputs, incoming) == Trace([], [], Exited))
      && (|text| != 0 && LowerAscii(text) != "exit" && ReceiveMessage(incoming).Err? ==>
            Run(inputs, incoming) == Trace(Server.Reply(text), [], Failed(ReceiveMessage(incoming).error)))
      && (|text| != 0 && LowerAscii(text) != "exit" && ReceiveMessage(incoming).Ok? ==>
            var tail := Run(inputs[1..], ReceiveMessage(incoming).value.1);
            Run(inputs, incoming) == Trace(Server.Reply(text) + tail.sent, [ReceiveMessage(incoming).value.0] + tail.shown, tail.end))
  {
  }

  /** The `while True` loop of `main`. */
  method ClientMain(inputs: seq<string>, incoming: seq<string>)
    returns (sent: seq<string>, shown: seq<string>, end: ClientEnd)
    ensures Trace(sent, shown, end) == Run(inputs, incoming)
  {
    sent, shown := [], [];
    var rest, chunks := inputs, incoming;
    ghost var goal := Run(inputs, incoming);
    while true
      invariant goal.sent == sent + Run(rest, chunks).sent
      invariant goal.shown == shown + Run(rest, chunks).shown
      invariant goal.end == Run(rest, chunks).end
      decreases |rest|
    {
      if rest == [] {
        assert sent + [] == sent && shown + [] == shown;
        end := InputEnded;
        return;
      }
      RunNext(rest, chunks);
      var searchText := Strip(rest[0]);
      ghost var before := rest;
      rest := rest[1..];
      if |searchText| == 0 {
        continue;
      }
      if LowerAscii(searchText) == "exit" {
        assert sent + [] == sent && shown + [] == shown;
        end := Exited;
        return;
      }
      var frames := SendSearchQuery(searchText);
      var response := ReceiveMessage(chunks);
      if response.Err? {
        assert shown + [] == shown;
        sent := sent + frames;
        end := Failed(response.error);
        return;
      }
      ghost var tail := Run(rest, response.value.1);
      AppendAssoc(sent, frames, tail.sent);
      AppendAssoc(shown, [response.value.0], tail.shown);
      sent := sent + frames;
      shown := shown + [response.value.0];
      chunks := response.value.1;
    }
  }
}
