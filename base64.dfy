/** Base64 encoding with the alphabet and padding of section 4 of RFC 4648,
    standing in for Base64::encode of external/base64.hpp, which is not part
    of this model. */
module Base64 {
  import opened Wrappers

  type Byte = b: int | 0 <= b < 256

  /** The character for a 6-bit group: A-Z, a-z, 0-9, '+', '/'. */
  function Sextet(i: int): char
    requires 0 <= i < 64
  {
    if i < 26 then ('A' as int + i) as char
    else if i < 52 then ('a' as int + i - 26) as char
    else if i < 62 then ('0' as int + i - 52) as char
    else if i == 62 then '+'
    else '/'
  }

  predicate IsSextetChar(c: char) {
    ('A' <= c <= 'Z') || ('a' <= c <= 'z') || ('0' <= c <= '9') || c == '+' || c == '/'
  }

  function SextetValue(c: char): (v: int)
    requires IsSextetChar(c)
    ensures 0 <= v < 64
  {
    if 'A' <= c <= 'Z' then c as int - 'A' as int
    else if 'a' <= c <= 'z' then c as int - 'a' as int + 26
    else if '0' <= c <= '9' then c as int - '0' as int + 52
    else if c == '+' then 62
    else 63
  }

  lemma SextetInverse(i: int)
    requires 0 <= i < 64
    ensures IsSextetChar(Sextet(i)) && SextetValue(Sextet(i)) == i
  {
  }

  /** Three bytes become four characters; one or two trailing bytes become
      two or three characters padded with '=' to four. */
  function Encode(b: seq<Byte>): (r: string)
    decreases |b|
  {
    if |b| == 0 then ""
    else if |b| == 1 then
      [Sextet(b[0] / 4), Sextet((b[0] % 4) * 16), '=', '=']
    else if |b| == 2 then
      [Sextet(b[0] / 4), Sextet((b[0] % 4) * 16 + b[1] / 16), Sextet((b[1] % 16) * 4), '=']
    else
      [Sextet(b[0] / 4), Sextet((b[0] % 4) * 16 + b[1] / 16),
       Sextet((b[1] % 16) * 4 + b[2] / 64), Sextet(b[2] % 64)] + Encode(b[3..])
  }

  /** The inverse of Encode; None for text that is not padded base64. */
  function Decode(t: string): Option<seq<Byte>>
    decreases |t|
  {
    if t == [] then Some([])
    else if |t| < 4 || !IsSextetChar(t[0]) || !IsSextetChar(t[1]) then None
    else
      var c0, c1 := SextetValue(t[0]), SextetValue(t[1]);
      if t[2] == '=' then
        (if t[3] == '=' && |t| == 4 then Some([c0 * 4 + c1 / 16]) else None)
      else if !IsSextetChar(t[2]) then None
      else
        var c2 := SextetValue(t[2]);
        if t[3] == '=' then
          (if |t| == 4 then Some([c0 * 4 + c1 / 16, (c1 % 16) * 16 + c2 / 4]) else None)
        else if !IsSextetChar(t[3]) then None
        else
          var c3 := SextetValue(t[3]);
          match Decode(t[4..])
          case None => None
          case Some(rest) => Some([c0 * 4 + c1 / 16, (c1 % 16) * 16 + c2 / 4, (c2 % 4) * 64 + c3] + rest)
  }

  lemma GroupArithmetic(b0: Byte, b1: Byte, b2: Byte)
    ensures (b0 / 4) * 4 + ((b0 % 4) * 16 + b1 / 16) / 16 == b0
    ensures (((b0 % 4) * 16 + b1 / 16) % 16) * 16 + ((b1 % 16) * 4 + b2 / 64) / 4 == b1
    ensures (((b1 % 16) * 4 + b2 / 64) % 4) * 64 + b2 % 64 == b2
    ensures ((b0 % 4) * 16) / 16 == b0 % 4
    ensures ((b1 % 16) * 4) / 4 == b1 % 16
  {
  }

  lemma OneByte(b0: Byte)
    ensures Decode(Encode([b0])) == Some([b0])
  {
    var t := Encode([b0]);
    var c0, c1 := b0 / 4, (b0 % 4) * 16;
    assert t == [Sextet(c0), Sextet(c1), '=', '='];
    SextetInverse(c0);
    SextetInverse(c1);
    assert c0 * 4 + c1 / 16 == b0;
  }

  lemma TwoBytes(b0: Byte, b1: Byte)
    ensures Decode(Encode([b0, b1])) == Some([b0, b1])
  {
    var t := Encode([b0, b1]);
    var c0, c1, c2 := b0 / 4, (b0 % 4) * 16 + b1 / 16, (b1 % 16) * 4;
    assert t == [Sextet(c0), Sextet(c1), Sextet(c2), '='];
    SextetInverse(c0);
    SextetInverse(c1);
    SextetInverse(c2);
    GroupArithmetic(b0, b1, 0);
    assert c0 * 4 + c1 / 16 == b0;
    assert (c1 % 16) * 16 + c2 / 4 == b1;
  }

  lemma Group(b0: Byte, b1: Byte, b2: Byte, rest: seq<Byte>)
    requires Decode(Encode(rest)) == Some(rest)
    ensures Decode(Encode([b0, b1, b2] + rest)) == Some([b0, b1, b2] + rest)
  {
    var b := [b0, b1, b2] + rest;
    var t := Encode(b);
    var c0, c1 := b0 / 4, (b0 % 4) * 16 + b1 / 16;
    var c2, c3 := (b1 % 16) * 4 + b2 / 64, b2 % 64;
    assert b[3..] == rest;
    assert t == [Sextet(c0), Sextet(c1), Sextet(c2), Sextet(c3)] + Encode(rest);
    assert t[4..] == Encode(rest);
    SextetInverse(c0);
    SextetInverse(c1);
    SextetInverse(c2);
    SextetInverse(c3);
    GroupArithmetic(b0, b1, b2);
    assert c0 * 4 + c1 / 16 == b0;
    assert (c1 % 16) * 16 + c2 / 4 == b1;
    assert (c2 % 4) * 64 + c3 == b2;
  }

  /** Decoding recovers every byte sequence that was encoded. */
  lemma {:induction false} RoundTrip(b: seq<Byte>)
    ensures Decode(Encode(b)) == Some(b)
    decreases |b|
  {
    if |b| == 1 {
      assert b == [b[0]];
      OneByte(b[0]);
    } else if |b| == 2 {
      assert b == [b[0], b[1]];
      TwoBytes(b[0], b[1]);
    } else if |b| >= 3 {
      RoundTrip(b[3..]);
      assert b == [b[0], b[1], b[2]] + b[3..];
      Group(b[0], b[1], b[2], b[3..]);
    }
  }
}
