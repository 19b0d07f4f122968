/**
 * The .NET `Encoding.ASCII` codec used by both plugin servers: `GetString` turns every byte
 * above 0x7F into '?', and `GetBytes` turns every character above U+007F into '?'.
 */
module Ascii {

  newtype byte = x: int | 0 <= x < 256

  const QuestionMark: byte := 63
  const NewLine: byte := 10

  predicate IsAsciiChar(c: char) { c as int < 128 }

  predicate IsAscii(s: string) { forall i :: 0 <= i < |s| ==> IsAsciiChar(s[i]) }

  predicate IsAsciiBytes(b: seq<byte>) { forall i :: 0 <= i < |b| ==> b[i] < 128 }

  function EncodeChar(c: char): byte
  {
    if IsAsciiChar(c) then c as int as byte else QuestionMark
  }

  function DecodeByte(b: byte): char
  {
    if b < 128 then b as int as char else '?'
  }

  /** `Encoding.ASCII.GetBytes(s)`: one byte per character. */
  function Encode(s: string): (r: seq<byte>)
    ensures |r| == |s|
    ensures forall i :: 0 <= i < |s| ==> r[i] == EncodeChar(s[i])
  {
    seq(|s|, i requires 0 <= i < |s| => EncodeChar(s[i]))
  }

  /** `Encoding.ASCII.GetString(b, 0, |b|)`: one character per byte. */
  function Decode(b: seq<byte>): (r: string)
    ensures |r| == |b|
    ensures forall i :: 0 <= i < |b| ==> r[i] == DecodeByte(b[i])
  {
    seq(|b|, i requires 0 <= i < |b| => DecodeByte(b[i]))
  }

  /** Decoding loses nothing on ASCII input. */
  lemma EncodeDecode(b: seq<byte>)
    requires IsAsciiBytes(b)
    ensures Encode(Decode(b)) == b
  {
    var r := Encode(Decode(b));
    forall i | 0 <= i < |b| ensures r[i] == b[i] {
      assert Decode(b)[i] == b[i] as int as char;
    }
  }

  /** Encoding loses nothing on ASCII text. */
  lemma DecodeEncode(s: string)
    requires IsAscii(s)
    ensures Decode(Encode(s)) == s
  {
    var r := Decode(Encode(s));
    forall i | 0 <= i < |s| ensures r[i] == s[i] {
      assert IsAsciiChar(s[i]);
    }
  }

  /** The decoded text holds a line feed exactly where the bytes hold 0x0A. */
  lemma DecodeNewLineAt(b: seq<byte>, i: nat)
    requires i < |b|
    ensures Decode(b)[i] == '\n' <==> b[i] == NewLine
  {
    if b[i] >= 128 {
      assert Decode(b)[i] == '?';
    }
  }

  /** Encoding distributes over concatenation. */
  lemma EncodeAppend(s: string, t: string)
    ensures Encode(s + t) == Encode(s) + Encode(t)
  {
    var l, r := Encode(s + t), Encode(s) + Encode(t);
    forall i | 0 <= i < |s + t| ensures l[i] == r[i] {
      if i < |s| { assert (s + t)[i] == s[i]; } else { assert (s + t)[i] == t[i - |s|]; }
    }
  }
}
