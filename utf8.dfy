/**
 * UTF-8 as used by `OsStr::to_str`: on a Unix host an OS string is a byte
 * sequence, and `to_str` succeeds exactly when those bytes are well-formed
 * UTF-8 (Unicode Standard, section 3.9, Table 3-7), returning the decoded text.
 */
module Utf8 {
  import opened Wrappers

  newtype byte = x: int | 0 <= x < 0x100

  predicate IsContinuation(b: byte) {
    0x80 <= b <= 0xBF
  }

  /** Length of the well-formed sequence that a leading byte announces, 0 for a byte that cannot lead one. */
  function SequenceLength(b0: byte): nat {
    if b0 < 0x80 then 1
    else if 0xC2 <= b0 <= 0xDF then 2
    else if 0xE0 <= b0 <= 0xEF then 3
    else if 0xF0 <= b0 <= 0xF4 then 4
    else 0
  }

  /** Bounds of the second byte after a leading byte (Table 3-7 narrows them for E0, ED, F0 and F4). */
  function SecondMin(b0: byte): byte {
    if b0 == 0xE0 then 0xA0 else if b0 == 0xF0 then 0x90 else 0x80
  }

  function SecondMax(b0: byte): byte {
    if b0 == 0xED then 0x9F else if b0 == 0xF4 then 0x8F else 0xBF
  }

  /** Decodes the scalar value at the front of `s`, with the number of bytes it takes; None if ill-formed. */
  function DecodeFirst(s: seq<byte>): (r: Option<(char, nat)>)
    requires s != []
    ensures r.Some? ==> 1 <= r.value.1 <= |s| && r.value.1 == SequenceLength(s[0])
    ensures r.Some? ==> (r.value.0 as int < 0x80 <==> r.value.1 == 1)
  {
    var n := SequenceLength(s[0]);
    if n == 0 || |s| < n then None
    else if n == 1 then Some((s[0] as int as char, 1))
    else if !(SecondMin(s[0]) <= s[1] <= SecondMax(s[0])) then None
    else if n == 2 then
      Some((((s[0] as int - 0xC0) * 0x40 + (s[1] as int - 0x80)) as char, 2))
    else if !IsContinuation(s[2]) then None
    else if n == 3 then
      Some((((s[0] as int - 0xE0) * 0x1000 + (s[1] as int - 0x80) * 0x40 + (s[2] as int - 0x80)) as char, 3))
    else if !IsContinuation(s[3]) then None
    else
      Some((((s[0] as int - 0xF0) * 0x40000 + (s[1] as int - 0x80) * 0x1000
             + (s[2] as int - 0x80) * 0x40 + (s[3] as int - 0x80)) as char, 4))
  }

  /** `OsStr::to_str`: the text the bytes encode, or None when they are not well-formed UTF-8. */
  function Decode(s: seq<byte>): (r: Option<string>)
    ensures r.Some? ==> |r.value| <= |s|
    decreases |s|
  {
    if s == [] then Some([])
    else
      match DecodeFirst(s)
      case None => None
      case Some((c, n)) =>
        match Decode(s[n..])
        case None => None
        case Some(t) => Some([c] + t)
  }

  /** The UTF-8 encoding of one scalar value, shortest form. */
  function EncodeChar(c: char): (r: seq<byte>)
    ensures 1 <= |r| <= 4
  {
    var n := c as int;
    if n < 0x80 then [n as byte]
    else if n < 0x800 then [(0xC0 + n / 0x40) as byte, (0x80 + n % 0x40) as byte]
    else if n < 0x10000 then
      [(0xE0 + n / 0x1000) as byte, (0x80 + n / 0x40 % 0x40) as byte, (0x80 + n % 0x40) as byte]
    else
      [(0xF0 + n / 0x40000) as byte, (0x80 + n / 0x1000 % 0x40) as byte,
       (0x80 + n / 0x40 % 0x40) as byte, (0x80 + n % 0x40) as byte]
  }

  /** The UTF-8 encoding of a text: how a path written as that text is stored. */
  function Encode(s: string): seq<byte>
  {
    if s == [] then [] else EncodeChar(s[0]) + Encode(s[1..])
  }

  /** Decoding the encoding of one scalar value gives it back and consumes exactly its bytes. */
  lemma DecodeFirstEncodeChar(c: char, rest: seq<byte>)
    ensures DecodeFirst(EncodeChar(c) + rest) == Some((c, |EncodeChar(c)|))
  {
    var n := c as int;
    if n < 0x80 {
      assert (EncodeChar(c) + rest)[0] == n as byte;
    } else if n < 0x800 {
      DecodeTwo(c, rest);
    } else if n < 0x10000 {
      DecodeThree(c, rest);
    } else {
      DecodeFour(c, rest);
    }
  }

  lemma DecodeTwo(c: char, rest: seq<byte>)
    requires 0x80 <= c as int < 0x800
    ensures DecodeFirst(EncodeChar(c) + rest) == Some((c, 2))
  {
    var n := c as int;
    var s := EncodeChar(c) + rest;
    assert s[0] as int == 0xC0 + n / 0x40 && s[1] as int == 0x80 + n % 0x40;
    assert n == (n / 0x40) * 0x40 + n % 0x40;
  }

  lemma DecodeThree(c: char, rest: seq<byte>)
    requires 0x800 <= c as int < 0x10000
    ensures DecodeFirst(EncodeChar(c) + rest) == Some((c, 3))
  {
    var n := c as int;
    var s := EncodeChar(c) + rest;
    assert s[0] as int == 0xE0 + n / 0x1000 && s[1] as int == 0x80 + n / 0x40 % 0x40;
    assert s[2] as int == 0x80 + n % 0x40;
    assert n / 0x40 == (n / 0x1000) * 0x40 + n / 0x40 % 0x40;
    assert n == (n / 0x40) * 0x40 + n % 0x40;
  }

  lemma DecodeFour(c: char, rest: seq<byte>)
    requires 0x10000 <= c as int
    ensures DecodeFirst(EncodeChar(c) + rest) == Some((c, 4))
  {
    var n := c as int;
    var s := EncodeChar(c) + rest;
    assert s[0] as int == 0xF0 + n / 0x40000 && s[1] as int == 0x80 + n / 0x1000 % 0x40;
    assert s[2] as int == 0x80 + n / 0x40 % 0x40 && s[3] as int == 0x80 + n % 0x40;
    assert n / 0x1000 == (n / 0x40000) * 0x40 + n / 0x1000 % 0x40;
    assert n / 0x40 == (n / 0x1000) * 0x40 + n / 0x40 % 0x40;
    assert n == (n / 0x40) * 0x40 + n % 0x40;
  }

  lemma EncodeTwo(b0: byte, b1: byte)
    requires 0xC2 <= b0 <= 0xDF && IsContinuation(b1)
    ensures EncodeChar(((b0 as int - 0xC0) * 0x40 + (b1 as int - 0x80)) as char) == [b0, b1]
  {
    var n := (b0 as int - 0xC0) * 0x40 + (b1 as int - 0x80);
    assert n / 0x40 == b0 as int - 0xC0 && n % 0x40 == b1 as int - 0x80;
  }

  lemma EncodeThree(b0: byte, b1: byte, b2: byte)
    requires 0xE0 <= b0 <= 0xEF && SecondMin(b0) <= b1 <= SecondMax(b0) && IsContinuation(b2)
    ensures EncodeChar(((b0 as int - 0xE0) * 0x1000 + (b1 as int - 0x80) * 0x40 + (b2 as int - 0x80)) as char)
            == [b0, b1, b2]
  {
    var d0, d1, d2 := b0 as int - 0xE0, b1 as int - 0x80, b2 as int - 0x80;
    var n := d0 * 0x1000 + d1 * 0x40 + d2;
    assert n / 0x40 == d0 * 0x40 + d1 && n % 0x40 == d2;
    assert n / 0x40 % 0x40 == d1;
    assert n / 0x1000 == d0;
  }

  lemma EncodeFour(b0: byte, b1: byte, b2: byte, b3: byte)
    requires 0xF0 <= b0 <= 0xF4 && SecondMin(b0) <= b1 <= SecondMax(b0)
    requires IsContinuation(b2) && IsContinuation(b3)
    ensures EncodeChar(((b0 as int - 0xF0) * 0x40000 + (b1 as int - 0x80) * 0x1000
                        + (b2 as int - 0x80) * 0x40 + (b3 as int - 0x80)) as char) == [b0, b1, b2, b3]
  {
    var d0, d1, d2, d3 := b0 as int - 0xF0, b1 as int - 0x80, b2 as int - 0x80, b3 as int - 0x80;
    var n := d0 * 0x40000 + d1 * 0x1000 + d2 * 0x40 + d3;
    assert n / 0x40 == d0 * 0x1000 + d1 * 0x40 + d2 && n % 0x40 == d3;
    assert n / 0x40 % 0x40 == d2;
    assert n / 0x1000 == d0 * 0x40 + d1;
    assert n / 0x1000 % 0x40 == d1;
    assert n / 0x40000 == d0;
  }

  /** A well-formed leading sequence is the encoding of the scalar value it decodes to. */
  lemma EncodeCharDecodeFirst(s: seq<byte>)
    requires s != [] && DecodeFirst(s).Some?
    ensures EncodeChar(DecodeFirst(s).value.0) == s[..DecodeFirst(s).value.1]
  {
    var k := DecodeFirst(s).value.1;
    if k == 2 {
      EncodeTwo(s[0], s[1]);
    } else if k == 3 {
      EncodeThree(s[0], s[1], s[2]);
    } else if k == 4 {
      EncodeFour(s[0], s[1], s[2], s[3]);
    }
  }

  /** Round trip: every text decodes from its own encoding. */
  lemma {:induction false} DecodeEncode(s: string)
    ensures Decode(Encode(s)) == Some(s)
  {
    if s != [] {
      DecodeFirstEncodeChar(s[0], Encode(s[1..]));
      var b := Encode(s);
      assert b[|EncodeChar(s[0])|..] == Encode(s[1..]);
      DecodeEncode(s[1..]);
      assert [s[0]] + s[1..] == s;
    }
  }

  /** Round trip the other way: bytes that decode are the encoding of what they decode to. */
  lemma {:induction false} EncodeDecode(b: seq<byte>)
    requires Decode(b).Some?
    ensures Encode(Decode(b).value) == b
    decreases |b|
  {
    if b != [] {
      var c, n := DecodeFirst(b).value.0, DecodeFirst(b).value.1;
      var t := Decode(b[n..]).value;
      assert Decode(b).value == [c] + t;
      assert EncodeChar(c) == b[..n] by {
        EncodeCharDecodeFirst(b);
      }
      assert Encode(t) == b[n..] by {
        EncodeDecode(b[n..]);
      }
      assert Encode([c] + t) == EncodeChar(c) + Encode(t) by {
        assert ([c] + t)[0] == c && ([c] + t)[1..] == t;
      }
      assert b == b[..n] + b[n..];
    }
  }

  /** An ASCII byte occurs in an encoding only where its character occurs in the text. */
  lemma {:induction false} AsciiInEncode(s: string, b: byte)
    requires b < 0x80 && b in Encode(s)
    ensures b as int as char in s
  {
    if s != [] {
      var e := EncodeChar(s[0]);
      if b in e {
        assert s[0] as int < 0x80;
      } else {
        assert b in Encode(s[1..]);
        AsciiInEncode(s[1..], b);
      }
    }
  }
}
