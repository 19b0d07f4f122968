/**
 * `PluginServer`: the connection-side half of the bridge. The class holds what the server
 * changes: the shared request queue, the replies still to come out of `Replies.Take()`, and
 * the log of what it did to client streams and to the session dispatcher.
 */
module PluginServer {
  import opened Common
  import opened Ascii
  import opened Wire
  import opened Routing

  class Server {
    /** `m_requestQueue.Requests`, oldest first. */
    var requests: seq<RequestItem>
    /** The replies `m_requestQueue.Replies.Take()` will return, in order. */
    var replies: seq<RequestItem>
    /** Writes, closes and session dispatches, in order. */
    var effects: seq<Effect>

    function Snapshot(): Conn
      reads this
    {
      Conn(requests, replies, effects)
    }

    constructor (replies: seq<RequestItem>)
      ensures Snapshot() == Conn([], replies, [])
    {
      requests := [];
      this.replies := replies;
      effects := [];
    }

    /** Writes the reply text and one line feed to `clientStream`. */
    method Reply(clientStream: Stream, reply: string)
      modifies this`effects
      ensures effects == old(effects) + [Wrote(clientStream, ReplyBytes(reply))]
    {
      effects := effects + [Wrote(clientStream, ReplyBytes(reply))];
    }

    method ReplyOK(clientStream: Stream)
      modifies this`effects
      ensures effects == old(effects) + [Wrote(clientStream, Encode("true\n"))]
    {
      assert OkText + "\n" == "true\n";
      Reply(clientStream, OkText);
    }

    method ReplyFalse(clientStream: Stream)
      modifies this`effects
      ensures effects == old(effects) + [Wrote(clientStream, Encode("false\n"))]
    {
      assert FalseText + "\n" == "false\n";
      Reply(clientStream, FalseText);
    }

    /** Replies `reply.ToString()`, closes the stream and reports the connection as disconnected. */
    method Disconnect(clientStream: Stream, reply: bool) returns (disconnected: bool)
      modifies this`effects
      ensures disconnected
      ensures effects == old(effects) + DisconnectEffects(clientStream, reply)
    {
      Reply(clientStream, BoolToString(reply));
      effects := effects + [Closed(clientStream)];
      disconnected := true;
    }

    /**
     * Takes the next reply and writes it to the stream the reply names. `answered` is false
     * when no reply will ever come: the source then blocks in `Take()` for good.
     */
    method WaitForReplyAndSendIt() returns (answered: bool)
      modifies this`replies, this`effects
      ensures answered <==> old(replies) != []
      ensures answered ==> replies == old(replies)[1..]
      ensures answered ==>
        effects == old(effects) + [Wrote(old(replies)[0].clientStream, ReplyBytes(old(replies)[0].message))]
      ensures !answered ==> replies == old(replies) && effects == old(effects)
    {
      if replies == [] {
        return false;
      }
      var reply := replies[0];
      replies := replies[1..];
      Reply(reply.clientStream, reply.message);
      answered := true;
    }

    /** Classifies one message and routes it; the result says whether the loop may read on. */
    method ProcessMessage(clientStream: Stream, message: string) returns (status: Status)
      modifies this
      ensures Step(status, Snapshot()) == Process(old(Snapshot()), clientStream, message)
    {
      if !StartsWith(message, Header) {
        var _ := Disconnect(clientStream, false);
        return Disconnected;
      }
      if |message| < FieldStart + FieldLength {
        return Faulted(CommandFieldOutOfRange);
      }
      var command := message[FieldStart..FieldStart + FieldLength];
      if StartsWith(command, AgentPrefix) {
        requests := requests + [RequestItem(clientStream, message)];
        var answered := WaitForReplyAndSendIt();
        status := if answered then Continue else AwaitingReply;
      } else if StartsWith(command, SessionPrefix) {
        effects := effects + [Dispatched(RequestItem(clientStream, message))];
        status := Continue;
      } else if StartsWith(command, DisconnectPrefix) {
        var _ := Disconnect(clientStream, true);
        status := Disconnected;
      } else {
        var _ := Disconnect(clientStream, false);
        status := Disconnected;
      }
    }

    /** `ServeConnectedClient` of Communication/PluginServer.cs, over the lines `ReadLine` returns. */
    method ServeLineClient(stream: Stream, lines: seq<string>) returns (status: Status, processed: nat)
      modifies this
      ensures Outcome(status, Snapshot(), processed) == ServeLines(old(Snapshot()), stream, lines)
    {
      var i := 0;
      while i < |lines|
        invariant 0 <= i <= |lines|
        invariant var r := ServeLines(Snapshot(), stream, lines[i..]);
          ServeLines(old(Snapshot()), stream, lines) == r.(processed := r.processed + i)
      {
        assert lines[i..][0] == lines[i] && lines[i..][1..] == lines[i + 1..];
        var s := ProcessMessage(stream, lines[i]);
        if s != Continue {
          return s, i + 1;
        }
        i := i + 1;
      }
      assert lines[i..] == [];
      return EndOfStream, |lines|;
    }

    /** `stream.Read(buffer, 0, buffer.Length)`: copies one chunk into the start of the buffer. */
    static method ReadInto(buffer: array<byte>, chunk: seq<byte>) returns (readCount: nat)
      requires |chunk| <= buffer.Length
      modifies buffer
      ensures readCount == |chunk| && buffer[..readCount] == chunk
    {
      forall k | 0 <= k < |chunk| {
        buffer[k] := chunk[k];
      }
      readCount := |chunk|;
    }

    /** `ServeConnectedClient` of Comm/PluginServer.cs, over the chunks `stream.Read` returns. */
    method ServeChunkClient(stream: Stream, chunks: seq<seq<byte>>) returns (status: Status, processed: nat)
      requires forall k :: 0 <= k < |chunks| ==> |chunks[k]| <= BufferSize
      modifies this
      ensures Outcome(status, Snapshot(), processed) == ServeChunks(old(Snapshot()), stream, chunks)
    {
      var buffer := new byte[BufferSize];
      var i := 0;
      while i < |chunks|
        invariant 0 <= i <= |chunks|
        invariant var r := ServeChunks(Snapshot(), stream, chunks[i..]);
          ServeChunks(old(Snapshot()), stream, chunks) == r.(processed := r.processed + i)
      {
        assert chunks[i..][0] == chunks[i] && chunks[i..][1..] == chunks[i + 1..];
        var readCount := ReadInto(buffer, chunks[i]);
        if readCount == 0 {
          return EndOfStream, i;
        }
        var message := Decode(buffer[..readCount]);
        var indexOfNewLine := IndexOf(message, '\n');
        if indexOfNewLine != -1 && indexOfNewLine != |message| - 1 {
          return Faulted(NewlineInMiddle), i + 1;
        }
        if indexOfNewLine == -1 {
          return Faulted(MessageInParts), i + 1;
        }
        var s := ProcessMessage(stream, message);
        if s != Continue {
          return s, i + 1;
        }
        i := i + 1;
      }
      assert chunks[i..] == [];
      return EndOfStream, |chunks|;
    }
  }
}
