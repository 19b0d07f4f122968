/**
 * What `ProcessMessage` and the two serve loops of the plugin server do, as functions on the
 * state they touch: the shared request queue, the replies the tick side hands back through
 * `Replies.Take()`, and the effects on the client stream and the session dispatcher.
 */
module Routing {
  import opened Common
  import opened Ascii
  import opened Wire

  /** An opaque handle on a client's `NetworkStream`. */
  type Stream(==)

  /** `RequestItem`: used both for queued requests and for the replies that come back. */
  datatype RequestItem = RequestItem(clientStream: Stream, message: string)

  /** What the server does outside its queue, in order. */
  datatype Effect =
    | Wrote(stream: Stream, bytes: seq<byte>)  // clientStream.Write of one reply
    | Closed(stream: Stream)                   // clientStream.Close(timeout: 100)
    | Dispatched(request: RequestItem)         // m_sessionDispatcher.ProcessRequest

  /**
   * `Continue` is "not disconnected"; `AwaitingReply` is a `Replies.Take()` that no reply
   * will ever satisfy; `EndOfStream` is the read loop finding no more input.
   */
  datatype Status = Continue | Disconnected | AwaitingReply | Faulted(fault: Fault) | EndOfStream

  /**
   * The server's view of one connection: the requests queued so far, the replies that the
   * tick side will hand out from now on (in order), and the effects so far.
   */
  datatype Conn = Conn(requests: seq<RequestItem>, replies: seq<RequestItem>, effects: seq<Effect>)

  datatype Step = Step(status: Status, conn: Conn)

  /** `processed` counts the messages (or chunks) read before the loop ended. */
  datatype Outcome = Outcome(status: Status, conn: Conn, processed: nat)

  /** `Disconnect(clientStream, out disconnected, reply)`: reply with `reply.ToString()`, then close. */
  function DisconnectEffects(client: Stream, reply: bool): seq<Effect>
  {
    [Wrote(client, ReplyBytes(BoolToString(reply))), Closed(client)]
  }

  /** The disconnect reply reads back as .NET's `True` or `False` and one line feed, then the stream is closed. */
  lemma DisconnectReplyText(client: Stream, reply: bool)
    ensures var r := DisconnectEffects(client, reply);
      |r| == 2 && r[0].Wrote? && r[0].stream == client && r[1] == Closed(client)
      && Decode(r[0].bytes) == (if reply then "True\n" else "False\n")
  {
    assert IsAscii(BoolToString(reply));
  }

  /** `ProcessMessage` for one message read from `client`. */
  function Process(c: Conn, client: Stream, message: string): (r: Step)
    ensures r.status != EndOfStream
  {
    match Classify(message)
    case MissingHeader => Step(Disconnected, c.(effects := c.effects + DisconnectEffects(client, false)))
    case FieldOutOfRange => Step(Faulted(CommandFieldOutOfRange), c)
    case AgentCommand =>
      var queued := c.requests + [RequestItem(client, message)];
      if c.replies == [] then Step(AwaitingReply, c.(requests := queued))
      else
        var reply := c.replies[0];
        Step(Continue, Conn(queued, c.replies[1..], c.effects + [Wrote(reply.clientStream, ReplyBytes(reply.message))]))
    case SessionCommand => Step(Continue, c.(effects := c.effects + [Dispatched(RequestItem(client, message))]))
    case DisconnectCommand => Step(Disconnected, c.(effects := c.effects + DisconnectEffects(client, true)))
    case UnknownCommand => Step(Disconnected, c.(effects := c.effects + DisconnectEffects(client, false)))
  }

  /** The `ReadLine` loop of Communication/PluginServer.cs over the lines the reader returns. */
  function ServeLines(c: Conn, client: Stream, lines: seq<string>): (r: Outcome)
    ensures r.processed <= |lines| && r.status != Continue
    decreases |lines|
  {
    if lines == [] then Outcome(EndOfStream, c, 0)
    else
      var step := Process(c, client, lines[0]);
      if step.status == Continue then
        var rest := ServeLines(step.conn, client, lines[1..]);
        rest.(processed := rest.processed + 1)
      else Outcome(step.status, step.conn, 1)
  }

  /**
   * The buffer loop of Comm/PluginServer.cs over the chunks that `stream.Read` returns; an empty
   * chunk is a read of zero bytes, which ends the loop as the end of `chunks` does.
   */
  function ServeChunks(c: Conn, client: Stream, chunks: seq<seq<byte>>): (r: Outcome)
    ensures r.processed <= |chunks| && r.status != Continue
    decreases |chunks|
  {
    if chunks == [] || chunks[0] == [] then Outcome(EndOfStream, c, 0)
    else
      match FrameChunk(chunks[0])
      case Err(f) => Outcome(Faulted(f), c, 1)
      case Ok(message) =>
        var step := Process(c, client, message);
        if step.status == Continue then
          var rest := ServeChunks(step.conn, client, chunks[1..]);
          rest.(processed := rest.processed + 1)
        else Outcome(step.status, step.conn, 1)
  }

  // ---------------------------------------------------------------------------------------
  // Reference definitions

  /** The requests that the agent-command lines of `lines` make, in order. */
  function AgentRequests(client: Stream, lines: seq<string>): seq<RequestItem>
    decreases |lines|
  {
    if lines == [] then []
    else (if Classify(lines[0]) == AgentCommand then [RequestItem(client, lines[0])] else [])
         + AgentRequests(client, lines[1..])
  }

  /** The requests that the session-command lines of `lines` make, in order. */
  function SessionRequests(client: Stream, lines: seq<string>): seq<RequestItem>
    decreases |lines|
  {
    if lines == [] then []
    else (if Classify(lines[0]) == SessionCommand then [RequestItem(client, lines[0])] else [])
         + SessionRequests(client, lines[1..])
  }

  /** The requests handed to the session dispatcher, in order. */
  function DispatchedRequests(effects: seq<Effect>): seq<RequestItem>
    decreases |effects|
  {
    if effects == [] then []
    else (if effects[0].Dispatched? then [effects[0].request] else []) + DispatchedRequests(effects[1..])
  }

  /** Every write ends with a line feed. */
  predicate RepliesFramed(effects: seq<Effect>)
  {
    forall k :: 0 <= k < |effects| && effects[k].Wrote? ==>
      |effects[k].bytes| > 0 && effects[k].bytes[|effects[k].bytes| - 1] == NewLine
  }

  /** The routes after which the loop reads the next message, if the reply supply allows. */
  predicate KeepsReading(r: Route)
  {
    r == AgentCommand || r == SessionCommand
  }

  /**
   * The status that a message ending the session leaves behind; a session command never ends
   * it, so its status is `Continue`.
   */
  function FinalStatus(r: Route): Status
  {
    match r
    case FieldOutOfRange => Faulted(CommandFieldOutOfRange)
    case AgentCommand => AwaitingReply
    case SessionCommand => Continue
    case MissingHeader => Disconnected
    case DisconnectCommand => Disconnected
    case UnknownCommand => Disconnected
  }

  // ---------------------------------------------------------------------------------------
  // One message

  /** A message without the `{"Cmd":` header gets `False`, closes the stream and queues nothing. */
  lemma MissingHeaderDisconnects(c: Conn, client: Stream, message: string)
    requires !StartsWith(message, Header)
    ensures Process(c, client, message)
         == Step(Disconnected, Conn(c.requests, c.replies, c.effects + [Wrote(client, Encode("False\n")), Closed(client)]))
  {
    assert "False" + "\n" == "False\n";
  }

  /** A header-valid message too short for `Substring(7, 12)` throws before anything happens. */
  lemma ShortMessageFaults(c: Conn, client: Stream, message: string)
    requires StartsWith(message, Header) && |message| < FieldStart + FieldLength
    ensures Process(c, client, message) == Step(Faulted(CommandFieldOutOfRange), c)
  {
    assert Classify(message) == FieldOutOfRange;
  }

  /**
   * An agent command queues exactly one request holding the unmodified message, then takes
   * exactly one reply and writes it to the reply's own stream; the connection stays open.
   */
  lemma AgentCommandQueued(c: Conn, client: Stream, message: string)
    requires |message| >= FieldStart + FieldLength && StartsWith(message, Header + AgentPrefix)
    ensures var r := Process(c, client, message);
      && r.conn.requests == c.requests + [RequestItem(client, message)]
      && (c.replies == [] ==> r.status == AwaitingReply && r.conn.replies == [] && r.conn.effects == c.effects)
      && (c.replies != [] ==>
            && r.status == Continue
            && r.conn.replies == c.replies[1..]
            && r.conn.effects == c.effects + [Wrote(c.replies[0].clientStream, ReplyBytes(c.replies[0].message))])
  {
    ClassifyAgentIff(message);
  }

  /** A session command goes only to the session dispatcher: nothing is queued, written or closed. */
  lemma SessionCommandDispatched(c: Conn, client: Stream, message: string)
    requires |message| >= FieldStart + FieldLength && StartsWith(message, Header + SessionPrefix)
    ensures Process(c, client, message)
         == Step(Continue, Conn(c.requests, c.replies, c.effects + [Dispatched(RequestItem(client, message))]))
  {
    ClassifySessionIff(message);
  }

  /** `DISCONNECT` replies `True` and closes the stream; nothing is queued. */
  lemma DisconnectCommandCloses(c: Conn, client: Stream, message: string)
    requires StartsWith(message, Header + DisconnectPrefix)
    ensures Process(c, client, message)
         == Step(Disconnected, Conn(c.requests, c.replies, c.effects + [Wrote(client, Encode("True\n")), Closed(client)]))
  {
    ClassifyDisconnectIff(message);
    assert "True" + "\n" == "True\n";
  }

  /** Any other command field replies `False` and closes the stream; nothing is queued. */
  lemma UnknownCommandCloses(c: Conn, client: Stream, message: string)
    requires |message| >= FieldStart + FieldLength && StartsWith(message, Header)
    requires !StartsWith(message, Header + AgentPrefix)
    requires !StartsWith(message, Header + SessionPrefix)
    requires !StartsWith(message, Header + DisconnectPrefix)
    ensures Process(c, client, message)
         == Step(Disconnected, Conn(c.requests, c.replies, c.effects + [Wrote(client, Encode("False\n")), Closed(client)]))
  {
    ClassifyAgentIff(message);
    ClassifySessionIff(message);
    ClassifyDisconnectIff(message);
    assert "False" + "\n" == "False\n";
  }

  // ---------------------------------------------------------------------------------------
  // A whole session of the line-based server

  /**
   * The loop stops at the first message that does not keep the connection reading, and its
   * status says why; it reads everything only when no message stopped it.
   */
  lemma {:induction false} ServeLinesStopsAtFirstStop(c: Conn, client: Stream, lines: seq<string>)
    ensures var r := ServeLines(c, client, lines);
      && r.processed <= |lines|
      && r.status != Continue
      && (r.status == EndOfStream ==> r.processed == |lines|)
      && (forall j :: 0 <= j < r.processed - 1 ==> KeepsReading(Classify(lines[j])))
      && (r.status == EndOfStream ==> forall j :: 0 <= j < |lines| ==> KeepsReading(Classify(lines[j])))
      && (r.status != EndOfStream ==> 0 < r.processed && r.status == FinalStatus(Classify(lines[r.processed - 1])))
    decreases |lines|
  {
    if lines != [] {
      var step := Process(c, client, lines[0]);
      if step.status == Continue {
        ServeLinesStopsAtFirstStop(step.conn, client, lines[1..]);
        var rest := ServeLines(step.conn, client, lines[1..]);
        forall j | 0 <= j < rest.processed ensures KeepsReading(Classify(lines[j])) {
          if j > 0 { assert lines[j] == lines[1..][j - 1]; }
        }
        if rest.status == EndOfStream {
          forall j | 0 <= j < |lines| ensures KeepsReading(Classify(lines[j])) {
            if j > 0 { assert lines[j] == lines[1..][j - 1]; }
          }
        } else {
          assert lines[rest.processed] == lines[1..][rest.processed - 1];
        }
      }
    }
  }

  /** The queued requests are exactly the agent-command lines among those read, in order. */
  lemma {:induction false} ServeLinesQueuesAgentLines(c: Conn, client: Stream, lines: seq<string>)
    ensures var r := ServeLines(c, client, lines);
      r.processed <= |lines| && r.conn.requests == c.requests + AgentRequests(client, lines[..r.processed])
    decreases |lines|
  {
    if lines != [] {
      var step := Process(c, client, lines[0]);
      if step.status == Continue {
        ServeLinesQueuesAgentLines(step.conn, client, lines[1..]);
        var rest := ServeLines(step.conn, client, lines[1..]);
        assert lines[..rest.processed + 1][1..] == lines[1..][..rest.processed];
      } else {
        assert lines[..1][1..] == [];
      }
    }
  }

  /**
   * Replies are taken in order, one per agent command read; the loop blocks only when an
   * agent command finds the supply empty.
   */
  lemma {:induction false} ServeLinesTakesOneReplyPerAgentLine(c: Conn, client: Stream, lines: seq<string>)
    ensures var r := ServeLines(c, client, lines);
      var n := |AgentRequests(client, lines[..r.processed])|;
      && r.processed <= |lines|
      && (r.status == AwaitingReply ==> n == |c.replies| + 1 && r.conn.replies == [])
      && (r.status != AwaitingReply ==> n <= |c.replies| && r.conn.replies == c.replies[n..])
    decreases |lines|
  {
    if lines != [] {
      var step := Process(c, client, lines[0]);
      if step.status == Continue {
        ServeLinesTakesOneReplyPerAgentLine(step.conn, client, lines[1..]);
        var rest := ServeLines(step.conn, client, lines[1..]);
        assert lines[..rest.processed + 1][1..] == lines[1..][..rest.processed];
        if Classify(lines[0]) == AgentCommand {
          assert step.conn.replies == c.replies[1..];
        }
      } else {
        assert lines[..1][1..] == [];
      }
    }
  }

  lemma DispatchedAppend(a: seq<Effect>, b: seq<Effect>)
    ensures DispatchedRequests(a + b) == DispatchedRequests(a) + DispatchedRequests(b)
    decreases |a|
  {
    if a != [] {
      assert (a + b)[0] == a[0] && (a + b)[1..] == a[1..] + b;
      DispatchedAppend(a[1..], b);
    } else {
      assert a + b == b;
    }
  }

  /** One message hands the dispatcher its request exactly when it is a session command. */
  lemma ProcessDispatches(c: Conn, client: Stream, message: string)
    ensures DispatchedRequests(Process(c, client, message).conn.effects)
         == DispatchedRequests(c.effects)
            + if Classify(message) == SessionCommand then [RequestItem(client, message)] else []
  {
    var step := Process(c, client, message);
    var added := step.conn.effects[|c.effects|..];
    assert step.conn.effects == c.effects + added;
    DispatchedAppend(c.effects, added);
    var route := Classify(message);
    if route == SessionCommand {
      assert added == [Dispatched(RequestItem(client, message))];
      assert added[1..] == [];
    } else if route == AgentCommand && c.replies != [] {
      assert added == [Wrote(c.replies[0].clientStream, ReplyBytes(c.replies[0].message))];
      assert added[1..] == [];
    } else if Disconnects(route) {
      assert added[1..][1..] == [];
      assert DispatchedRequests(added[1..]) == [];
    } else {
      assert added == [];
    }
  }

  /** The session dispatcher receives exactly the session-command lines among those read, in order. */
  lemma {:induction false} ServeLinesDispatchesSessionLines(c: Conn, client: Stream, lines: seq<string>)
    ensures var r := ServeLines(c, client, lines);
      r.processed <= |lines|
      && DispatchedRequests(r.conn.effects) == DispatchedRequests(c.effects) + SessionRequests(client, lines[..r.processed])
    decreases |lines|
  {
    if lines != [] {
      var step := Process(c, client, lines[0]);
      ProcessDispatches(c, client, lines[0]);
      if step.status == Continue {
        ServeLinesDispatchesSessionLines(step.conn, client, lines[1..]);
        var rest := ServeLines(step.conn, client, lines[1..]);
        assert lines[..rest.processed + 1][1..] == lines[1..][..rest.processed];
      } else {
        assert lines[..1][1..] == [];
      }
    }
  }

  /** Effects are only ever appended, and every reply written ends with one line feed. */
  lemma {:induction false} ServeLinesFramesReplies(c: Conn, client: Stream, lines: seq<string>)
    ensures var r := ServeLines(c, client, lines);
      |c.effects| <= |r.conn.effects| && r.conn.effects[..|c.effects|] == c.effects
      && RepliesFramed(r.conn.effects[|c.effects|..])
    decreases |lines|
  {
    if lines != [] {
      var step := Process(c, client, lines[0]);
      var added := step.conn.effects[|c.effects|..];
      assert step.conn.effects == c.effects + added;
      assert RepliesFramed(added);
      if step.status == Continue {
        ServeLinesFramesReplies(step.conn, client, lines[1..]);
        var e := ServeLines(c, client, lines).conn.effects;
        assert e[|c.effects|..] == added + e[|step.conn.effects|..];
      }
    }
  }

  /** A session that ends disconnected ends with the reply to its last message and the close, nothing after. */
  lemma {:induction false} ServeLinesDisconnectIsLast(c: Conn, client: Stream, lines: seq<string>)
    ensures var r := ServeLines(c, client, lines);
      r.status == Disconnected ==>
        && 0 < r.processed <= |lines|
        && Disconnects(Classify(lines[r.processed - 1]))
        && |r.conn.effects| >= 2
        && r.conn.effects[|r.conn.effects| - 2..]
           == DisconnectEffects(client, Classify(lines[r.processed - 1]) == DisconnectCommand)
    decreases |lines|
  {
    if lines != [] {
      var step := Process(c, client, lines[0]);
      if step.status == Continue {
        ServeLinesDisconnectIsLast(step.conn, client, lines[1..]);
        var rest := ServeLines(step.conn, client, lines[1..]);
        if rest.status == Disconnected {
          assert lines[rest.processed] == lines[1..][rest.processed - 1];
        }
      } else if step.status == Disconnected {
        assert step.conn.effects[|step.conn.effects| - 2..] == DisconnectEffects(client, Classify(lines[0]) == DisconnectCommand);
      }
    }
  }

  // ---------------------------------------------------------------------------------------
  // The buffer-based server against the line-based one

  /** The decoded messages of the longest run of well-framed chunks at the front of `chunks`. */
  function FramedPrefix(chunks: seq<seq<byte>>): (msgs: seq<string>)
    ensures |msgs| <= |chunks|
    ensures forall i :: 0 <= i < |msgs| ==> FrameChunk(chunks[i]) == Ok(msgs[i])
    ensures |msgs| < |chunks| ==> FrameChunk(chunks[|msgs|]).Err?
    decreases |chunks|
  {
    if chunks == [] then []
    else match FrameChunk(chunks[0])
      case Err(_) => []
      case Ok(message) => [message] + FramedPrefix(chunks[1..])
  }

  /**
   * The buffer-based server behaves as the line-based one on the messages of its well-framed
   * chunks (each keeping its line feed). If the session has not ended before the first chunk
   * that is not well framed, a read of zero bytes there ends the loop and any other such chunk
   * throws.
   */
  lemma {:induction false} ServeChunksAsLines(c: Conn, client: Stream, chunks: seq<seq<byte>>)
    ensures var msgs := FramedPrefix(chunks);
      var r := ServeLines(c, client, msgs);
      ServeChunks(c, client, chunks)
      == if r.status != EndOfStream || |msgs| == |chunks| || chunks[|msgs|] == [] then r
         else Outcome(Faulted(FrameChunk(chunks[|msgs|]).error), r.conn, |msgs| + 1)
    decreases |chunks|
  {
    if chunks != [] && chunks[0] != [] {
      match FrameChunk(chunks[0])
      case Err(f) =>
      case Ok(message) =>
        var msgs := FramedPrefix(chunks);
        assert msgs[0] == message && msgs[1..] == FramedPrefix(chunks[1..]);
        ServeChunksAsLines(Process(c, client, message).conn, client, chunks[1..]);
    }
  }

  /**
   * A read of zero bytes ends the loop with nothing processed; any other chunk whose first
   * newline is not its last byte throws, and nothing of it is queued or written.
   */
  lemma IllFramedChunkFaults(c: Conn, client: Stream, chunk: seq<byte>, rest: seq<seq<byte>>)
    requires !(|chunk| > 0 && chunk[|chunk| - 1] == NewLine && NewLine !in chunk[..|chunk| - 1])
    ensures var r := ServeChunks(c, client, [chunk] + rest);
      (chunk == [] ==> r == Outcome(EndOfStream, c, 0))
      && (chunk != [] ==>
            r.status.Faulted? && r.conn == c && r.processed == 1
            && (r.status.fault == MessageInParts <==> NewLine !in chunk))
  {
    FrameChunkIff(chunk);
    assert ([chunk] + rest)[0] == chunk;
  }

  /** On the buffer-based server too, the queued requests are exactly the agent commands among the messages read. */
  lemma ServeChunksQueuesAgentMessages(c: Conn, client: Stream, chunks: seq<seq<byte>>)
    ensures var r := ServeChunks(c, client, chunks);
      var msgs := FramedPrefix(chunks);
      r.processed <= |msgs| + 1 && r.processed <= |chunks|
      && r.conn.requests == c.requests + AgentRequests(client, msgs[..if r.processed <= |msgs| then r.processed else |msgs|])
  {
    var msgs := FramedPrefix(chunks);
    ServeChunksAsLines(c, client, chunks);
    ServeLinesQueuesAgentLines(c, client, msgs);
    ServeLinesStopsAtFirstStop(c, client, msgs);
    assert msgs[..|msgs|] == msgs;
  }
}
