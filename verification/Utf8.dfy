/** UTF-8, section 3 of RFC 3629: the bytes whose number the byte bounds count. */
module Utf8 {
  import opened Wrappers
  import opened Keyset

  /** The bytes of one character. */
  function Bytes(c: char): (r: seq<int>)
    ensures 1 <= |r| <= 4 && forall i :: 0 <= i < |r| ==> 0 <= r[i] < 256
  {
    var u := c as int;
    if u < 0x80 then [u]
    else if u < 0x800 then [0xC0 + u / 64, 0x80 + u % 64]
    else if u < 0x10000 then [0xE0 + u / 4096, 0x80 + u / 64 % 64, 0x80 + u % 64]
    else [0xF0 + u / 262144, 0x80 + u / 4096 % 64, 0x80 + u / 64 % 64, 0x80 + u % 64]
  }

  function Encode(s: string): seq<int> {
    if s == [] then [] else Bytes(s[0]) + Encode(s[1..])
  }

  /** How many bytes the character that starts here takes, by its first byte. */
  function Width(first: int): nat {
    if first < 0x80 then 1 else if first < 0xE0 then 2 else if first < 0xF0 then 3 else 4
  }

  /** The code point of the character that starts here. */
  function CodePoint(b: seq<int>): int
    requires b != [] && Width(b[0]) <= |b|
  {
    match Width(b[0])
    case 1 => b[0]
    case 2 => (b[0] - 0xC0) * 64 + (b[1] - 0x80)
    case 3 => ((b[0] - 0xE0) * 64 + (b[1] - 0x80)) * 64 + (b[2] - 0x80)
    case _ => (((b[0] - 0xF0) * 64 + (b[1] - 0x80)) * 64 + (b[2] - 0x80)) * 64 + (b[3] - 0x80)
  }

  /** A character's bytes tell where they end and which character they are. */
  lemma CharacterReadsBack(c: char, rest: seq<int>)
    ensures var b := Bytes(c) + rest;
            && Width(b[0]) == |Bytes(c)| && CodePoint(b) == c as int && b[Width(b[0])..] == rest
  {
    var u := c as int;
    if u >= 0x800 { assert u / 4096 == u / 64 / 64; }
    if u >= 0x10000 { assert u / 262144 == u / 4096 / 64; }
  }

  /** Different texts have different bytes. */
  lemma {:induction false} EncodeIsInjective(s: string, t: string)
    requires Encode(s) == Encode(t)
    ensures s == t
  {
    if s != [] && t != [] {
      CharacterReadsBack(s[0], Encode(s[1..]));
      CharacterReadsBack(t[0], Encode(t[1..]));
      EncodeIsInjective(s[1..], t[1..]);
      assert s == [s[0]] + s[1..] && t == [t[0]] + t[1..];
    }
  }

  /** The length that the record and page bounds go by is the number of bytes of the text. */
  lemma {:induction false} LengthIsByteCount(s: string)
    ensures Utf8Length(s) == |Encode(s)|
  {
    if s != [] { LengthIsByteCount(s[1..]); }
  }
}
