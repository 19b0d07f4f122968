/**
 * The wire format shared by both plugin servers: the command header, the fixed-width command
 * field, the prefix classification of `ProcessMessage`, the reply framing of `Reply`, and the
 * chunk check that the buffer-based server applies before it classifies anything.
 */
module Wire {
  import opened Common
  import opened Ascii

  /** Every command record starts with this 7-character literal. */
  const Header: string := "{\"Cmd\":"
  /** `message.Substring(startIndex: 7, length: 12)` */
  const FieldStart: nat := 7
  const FieldLength: nat := 12

  const AgentPrefix: string := "\"AGENTCOM"
  const SessionPrefix: string := "\"SESSION\""
  const DisconnectPrefix: string := "\"DISCONNECT\""

  /** The read buffer of the buffer-based server. */
  const BufferSize: nat := 4096

  /** The reply texts of `ReplyOK` and `ReplyFalse`. */
  const OkText: string := "true"
  const FalseText: string := "false"

  /** Exceptions that escape the serve loop: `catch (IOException)` does not catch them. */
  datatype Fault =
    | CommandFieldOutOfRange  // Substring(7, 12) on a message shorter than 19 characters
    | NewlineInMiddle         // NotImplementedException: a newline before the end of the chunk
    | MessageInParts          // NotImplementedException: a chunk without a newline

  /** Where `ProcessMessage` sends a message. */
  datatype Route =
    | MissingHeader
    | FieldOutOfRange
    | AgentCommand
    | SessionCommand
    | DisconnectCommand
    | UnknownCommand

  /** The routes after which the server replies, closes the stream and stops reading. */
  predicate Disconnects(r: Route)
  {
    r == MissingHeader || r == DisconnectCommand || r == UnknownCommand
  }

  function CommandField(message: string): (f: string)
    requires FieldStart + FieldLength <= |message|
    ensures |f| == FieldLength && message[..FieldStart + FieldLength] == message[..FieldStart] + f
  {
    message[FieldStart..FieldStart + FieldLength]
  }

  /** The header test and the if-else chain of `ProcessMessage`, in the source's order. */
  function Classify(message: string): (r: Route)
    ensures r == MissingHeader <==> !StartsWith(message, Header)
    ensures r == FieldOutOfRange <==> StartsWith(message, Header) && |message| < FieldStart + FieldLength
  {
    if !StartsWith(message, Header) then MissingHeader
    else if |message| < FieldStart + FieldLength then FieldOutOfRange
    else
      var command := CommandField(message);
      if StartsWith(command, AgentPrefix) then AgentCommand
      else if StartsWith(command, SessionPrefix) then SessionCommand
      else if StartsWith(command, DisconnectPrefix) then DisconnectCommand
      else UnknownCommand
  }

  /** Header and command prefix together: `s` starts with `Header + p` when its field starts with `p`. */
  lemma {:induction false} FieldPrefix(s: string, p: string)
    requires |s| >= FieldStart + FieldLength && |p| <= FieldLength
    ensures StartsWith(s, Header) && StartsWith(CommandField(s), p) <==> StartsWith(s, Header + p)
  {
    var f := CommandField(s);
    if StartsWith(s, Header) && StartsWith(f, p) {
      assert s[..FieldStart + |p|] == Header + p by {
        forall i | 0 <= i < FieldStart + |p| ensures s[i] == (Header + p)[i] {
          if i >= FieldStart { assert f[i - FieldStart] == s[i]; assert p[i - FieldStart] == f[i - FieldStart]; }
          else { assert s[..|Header|][i] == s[i]; }
        }
      }
    }
    if StartsWith(s, Header + p) {
      assert s[..|Header|] == Header by {
        forall i | 0 <= i < |Header| ensures s[i] == Header[i] {
          assert s[..|Header + p|][i] == s[i];
        }
      }
      assert f[..|p|] == p by {
        forall i | 0 <= i < |p| ensures f[i] == p[i] {
          assert s[..|Header + p|][FieldStart + i] == s[FieldStart + i];
        }
      }
    }
  }

  /** A message is an agent command exactly when it starts with `{"Cmd":"AGENTCOM` and is at least 19 characters long. */
  lemma ClassifyAgentIff(message: string)
    ensures Classify(message) == AgentCommand
        <==> |message| >= FieldStart + FieldLength && StartsWith(message, Header + AgentPrefix)
  {
    if |message| >= FieldStart + FieldLength { FieldPrefix(message, AgentPrefix); }
  }

  /** A message is a session command exactly when it starts with `{"Cmd":"SESSION"` and is at least 19 characters long. */
  lemma ClassifySessionIff(message: string)
    ensures Classify(message) == SessionCommand
        <==> |message| >= FieldStart + FieldLength && StartsWith(message, Header + SessionPrefix)
  {
    if |message| >= FieldStart + FieldLength {
      FieldPrefix(message, SessionPrefix);
      PrefixesExclusive(CommandField(message));
    }
  }

  /** A message is a disconnect command exactly when it starts with `{"Cmd":"DISCONNECT"`. */
  lemma ClassifyDisconnectIff(message: string)
    ensures Classify(message) == DisconnectCommand <==> StartsWith(message, Header + DisconnectPrefix)
  {
    if |message| >= FieldStart + FieldLength {
      FieldPrefix(message, DisconnectPrefix);
      PrefixesExclusive(CommandField(message));
    }
  }

  /** No command field starts with two of the three prefixes, so the order of the tests decides nothing. */
  lemma PrefixesExclusive(f: string)
    ensures !(StartsWith(f, AgentPrefix) && StartsWith(f, SessionPrefix))
    ensures !(StartsWith(f, AgentPrefix) && StartsWith(f, DisconnectPrefix))
    ensures !(StartsWith(f, SessionPrefix) && StartsWith(f, DisconnectPrefix))
  {
    assert StartsWith(f, AgentPrefix) ==> f[1] == AgentPrefix[1];
    assert StartsWith(f, SessionPrefix) ==> f[1] == SessionPrefix[1];
    assert StartsWith(f, DisconnectPrefix) ==> f[1] == DisconnectPrefix[1];
  }

  /** .NET `Boolean.ToString()`, which `Disconnect` uses: capitalised, unlike `ReplyOK` and `ReplyFalse`. */
  function BoolToString(b: bool): (r: string)
    ensures r != (if b then OkText else FalseText)
    ensures |r| > 0 && r[1..] == (if b then OkText else FalseText)[1..]
  {
    if b then "True" else "False"
  }

  /** The text differs from `OkText` and `FalseText` in its first letter only, which is a capital. */
  lemma BoolToStringCapitalised(b: bool)
    ensures BoolToString(b)[0] == (if b then 'T' else 'F')
    ensures BoolToString(b)[1..] == (if b then OkText else FalseText)[1..]
  {
  }

  /** The bytes `Reply` writes: the ASCII encoding of the reply text followed by one line feed. */
  function ReplyBytes(reply: string): (r: seq<byte>)
    ensures |r| == |reply| + 1 && r[..|reply|] == Encode(reply) && r[|reply|] == NewLine
    ensures IsAscii(reply) ==> Decode(r) == reply + "\n"
  {
    EncodeAppend(reply, "\n");
    assert Encode("\n") == [NewLine];
    if IsAscii(reply) then DecodeEncode(reply + "\n"); Encode(reply + "\n") else Encode(reply + "\n")
  }

  /** `string.IndexOf(char)`: the first position of `c`, or -1. */
  function IndexOf(s: string, c: char): (r: int)
    ensures -1 <= r < |s|
    ensures r == -1 <==> c !in s
    ensures r >= 0 ==> s[r] == c && c !in s[..r]
  {
    if |s| == 0 then -1
    else if s[0] == c then 0
    else
      var k := IndexOf(s[1..], c);
      if k == -1 then -1
      else
        assert s[..k + 1] == [s[0]] + s[1..][..k];
        k + 1
  }

  /** The chunk check of the buffer-based server: the chunk is decoded, and it is accepted only if its first newline is its last character. */
  function FrameChunk(chunk: seq<byte>): (r: Result<string, Fault>)
  {
    var message := Decode(chunk);
    var newLine := IndexOf(message, '\n');
    if newLine != -1 && newLine != |message| - 1 then Err(NewlineInMiddle)
    else if newLine == -1 then Err(MessageInParts)
    else Ok(message)
  }

  /** A chunk passes exactly when it ends with 0x0A and holds no earlier 0x0A; the message is then the whole decoded chunk, line feed included. */
  lemma FrameChunkIff(chunk: seq<byte>)
    ensures FrameChunk(chunk).Ok?
        <==> |chunk| > 0 && chunk[|chunk| - 1] == NewLine && NewLine !in chunk[..|chunk| - 1]
    ensures FrameChunk(chunk).Ok? ==> FrameChunk(chunk).value == Decode(chunk)
    ensures FrameChunk(chunk) == Err(MessageInParts) <==> NewLine !in chunk
  {
    var message := Decode(chunk);
    forall i | 0 <= i < |chunk| ensures message[i] == '\n' <==> chunk[i] == NewLine {
      DecodeNewLineAt(chunk, i);
    }
    var k := IndexOf(message, '\n');
    if k >= 0 {
      assert chunk[k] == NewLine;
      forall j | 0 <= j < k ensures chunk[..k][j] != NewLine {
        assert message[..k][j] == message[j];
      }
    } else {
      forall j | 0 <= j < |chunk| ensures chunk[j] != NewLine {
        assert message[j] in message;
      }
    }
    if |chunk| > 0 && chunk[|chunk| - 1] == NewLine && NewLine !in chunk[..|chunk| - 1] {
      assert message[|chunk| - 1] == '\n';
    }
  }
}
