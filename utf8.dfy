/** UTF-8, the encoding behind Rust's `String`: `String::len` is the length of
    the encoding, `str::as_bytes` is the encoding itself and `str::from_utf8`
    is the checking decoder. Dafny's `char` is a Unicode scalar value. */
module Utf8 {
  import opened Wire

  /** Number of bytes UTF-8 uses for `c`. */
  function Width(c: char): (w: nat)
    ensures 1 <= w <= 4
  {
    var n := c as int;
    if n < 0x80 then 1 else if n < 0x800 then 2 else if n < 0x1_0000 then 3 else 4
  }

  /** `s.len()` of a Rust string holding `s`: its UTF-8 byte length. */
  function Utf8Len(s: string): nat
  {
    if s == [] then 0 else Utf8Len(s[..|s| - 1]) + Width(s[|s| - 1])
  }

  /** The UTF-8 encoding of one scalar value. */
  function EncodeChar(c: char): (r: seq<byte>)
    ensures |r| == Width(c)
  {
    var n := c as int;
    if n < 0x80 then [n]
    else if n < 0x800 then [0xC0 + n / 0x40, 0x80 + n % 0x40]
    else if n < 0x1_0000 then [0xE0 + n / 0x1000, 0x80 + (n / 0x40) % 0x40, 0x80 + n % 0x40]
    else [0xF0 + n / 0x4_0000, 0x80 + (n / 0x1000) % 0x40, 0x80 + (n / 0x40) % 0x40, 0x80 + n % 0x40]
  }

  /** `s.as_bytes()`. */
  function Encode(s: string): seq<byte>
  {
    if s == [] then [] else Encode(s[..|s| - 1]) + EncodeChar(s[|s| - 1])
  }

  lemma {:induction false} EncodeLength(s: string)
    ensures |Encode(s)| == Utf8Len(s)
  {
    if s != [] {
      EncodeLength(s[..|s| - 1]);
    }
  }

  lemma {:induction false} EncodeAppend(a: string, b: string)
    ensures Encode(a + b) == Encode(a) + Encode(b)
    decreases |b|
  {
    if b == [] {
      assert a + b == a;
    } else {
      var b' := b[..|b| - 1];
      assert (a + b)[..|a + b| - 1] == a + b';
      EncodeAppend(a, b');
    }
  }

  lemma {:induction false} Utf8LenAppend(a: string, b: string)
    ensures Utf8Len(a + b) == Utf8Len(a) + Utf8Len(b)
  {
    EncodeLength(a + b);
    EncodeLength(a);
    EncodeLength(b);
    EncodeAppend(a, b);
  }

  predicate IsContinuation(b: byte) { 0x80 <= b < 0xC0 }

  /** The scalar value encoded at the start of `s`, with the number of bytes
      it takes, or `None` when `s` does not start with a well-formed UTF-8
      sequence (overlong forms, surrogates and values past U+10FFFF are
      ill-formed, as in `str::from_utf8`). */
  function DecodeChar(s: seq<byte>): (r: Option<(char, nat)>)
    ensures r.Some? ==> 1 <= r.value.1 <= |s| && r.value.1 == Width(r.value.0)
  {
    if s == [] then None
    else
      var b0: int := s[0];
      if b0 < 0x80 then Some((b0 as char, 1))
      else if 0xC2 <= b0 < 0xE0 then
        if |s| < 2 || !IsContinuation(s[1]) then None
        else Some((Payload2(b0, s[1]) as char, 2))
      else if 0xE0 <= b0 < 0xF0 then
        if |s| < 3 || !IsContinuation(s[1]) || !IsContinuation(s[2]) then None
        else
          var n := Payload3(b0, s[1], s[2]);
          if n < 0x800 || (0xD800 <= n < 0xE000) then None else Some((n as char, 3))
      else if 0xF0 <= b0 < 0xF5 then
        if |s| < 4 || !IsContinuation(s[1]) || !IsContinuation(s[2]) || !IsContinuation(s[3]) then None
        else
          var n := Payload4(b0, s[1], s[2], s[3]);
          if n < 0x1_0000 || n > 0x10_FFFF then None else Some((n as char, 4))
      else None
  }

  /** The value bits of a two-, three- and four-byte sequence. */
  function Payload2(b0: int, b1: int): (n: int)
    requires 0xC2 <= b0 < 0xE0 && 0x80 <= b1 < 0xC0
    ensures 0x80 <= n < 0x800
  {
    (b0 - 0xC0) * 0x40 + (b1 - 0x80)
  }

  function Payload3(b0: int, b1: int, b2: int): (n: int)
    requires 0xE0 <= b0 < 0xF0 && 0x80 <= b1 < 0xC0 && 0x80 <= b2 < 0xC0
    ensures 0 <= n < 0x1_0000
  {
    (b0 - 0xE0) * 0x1000 + (b1 - 0x80) * 0x40 + (b2 - 0x80)
  }

  function Payload4(b0: int, b1: int, b2: int, b3: int): (n: int)
    requires 0xF0 <= b0 < 0xF5 && 0x80 <= b1 < 0xC0 && 0x80 <= b2 < 0xC0 && 0x80 <= b3 < 0xC0
    ensures 0 <= n < 0x14_0000
  {
    (b0 - 0xF0) * 0x4_0000 + (b1 - 0x80) * 0x1000 + (b2 - 0x80) * 0x40 + (b3 - 0x80)
  }

  /** `str::from_utf8`: the text `s` encodes, or `None` if `s` is not valid UTF-8. */
  function Decode(s: seq<byte>): Option<string>
    decreases |s|
  {
    if s == [] then Some("")
    else match DecodeChar(s)
      case None => None
      case Some((c, w)) =>
        match Decode(s[w..])
        case None => None
        case Some(t) => Some([c] + t)
  }

  lemma DecodeEncodedChar(c: char, rest: seq<byte>)
    ensures DecodeChar(EncodeChar(c) + rest) == Some((c, Width(c)))
  {
    var n := c as int;
    if n < 0x80 {
    } else if n < 0x800 {
      DecodeTwo(c, rest);
    } else if n < 0x1_0000 {
      DecodeThree(c, rest);
    } else {
      DecodeFour(c, rest);
    }
  }

  lemma DecodeTwo(c: char, rest: seq<byte>)
    requires 0x80 <= c as int < 0x800
    ensures DecodeChar(EncodeChar(c) + rest) == Some((c, 2))
  {
    var n := c as int;
    var s := EncodeChar(c) + rest;
    var a, b := n / 0x40, n % 0x40;
    assert s[0] == 0xC0 + a && s[1] == 0x80 + b;
    assert n == a * 0x40 + b;
    assert Payload2(s[0], s[1]) == n;
  }

  lemma DecodeThree(c: char, rest: seq<byte>)
    requires 0x800 <= c as int < 0x1_0000
    ensures DecodeChar(EncodeChar(c) + rest) == Some((c, 3))
  {
    var n := c as int;
    var s := EncodeChar(c) + rest;
    var a, b, d := n / 0x1000, (n / 0x40) % 0x40, n % 0x40;
    assert s[0] == 0xE0 + a && s[1] == 0x80 + b && s[2] == 0x80 + d;
    assert n / 0x40 == a * 0x40 + b;
    assert n == (n / 0x40) * 0x40 + d;
    assert Payload3(s[0], s[1], s[2]) == n;
  }

  lemma DecodeFour(c: char, rest: seq<byte>)
    requires 0x1_0000 <= c as int
    ensures DecodeChar(EncodeChar(c) + rest) == Some((c, 4))
  {
    var n := c as int;
    var s := EncodeChar(c) + rest;
    var a, b, d, e := n / 0x4_0000, (n / 0x1000) % 0x40, (n / 0x40) % 0x40, n % 0x40;
    assert s[0] == 0xF0 + a && s[1] == 0x80 + b && s[2] == 0x80 + d && s[3] == 0x80 + e;
    assert n / 0x1000 == a * 0x40 + b;
    assert n / 0x40 == (n / 0x1000) * 0x40 + d;
    assert n == (n / 0x40) * 0x40 + e;
    assert Payload4(s[0], s[1], s[2], s[3]) == n;
  }

  lemma {:induction false} DecodeEncode(s: string)
    ensures Decode(Encode(s)) == Some(s)
    decreases |s|
  {
    if s != [] {
      var c, t := s[0], s[1..];
      assert s == [c] + t;
      EncodeAppend([c], t);
      assert Encode([c]) == EncodeChar(c) by {
        assert [c][..0] == [];
      }
      DecodeEncodedChar(c, Encode(t));
      var e := Encode(s);
      assert e[Width(c)..] == Encode(t);
      DecodeEncode(t);
    }
  }
}
