/** The game's string encoding (`SC3String::read_from_stdin`, src/game.rs).
    A string is a run of single-byte control tokens and two-byte character
    codes, closed by 0xFF. Control tokens become zero-width markers whose
    offset is the UTF-8 byte length of the text decoded so far (Rust's
    `String::len`); character codes index a fixed character table. */
module SC3 {
  import opened Wire
  import opened Utf8

  /** `SC3Op`: the marker kinds, each with its offset. */
  datatype SC3Op = Linebreak(offset: nat) | RubyBase(offset: nat) | RubyEnd(offset: nat)

  datatype SC3String = SC3String(content: string, markers: seq<SC3Op>)

  /** Why reading from the pipe failed: `read_exact` hit the end of input,
      or one of the two `InvalidData` errors of the decoder. */
  datatype ReadError = UnexpectedEof | UnknownCodepoint | UnknownStringToken

  const EndToken: byte := 0xFF
  const LinebreakToken: byte := 0x00
  const RubyBaseToken: byte := 0x09
  const RubyEndToken: byte := 0x0B

  /** The JSON field values `SC3Op::serialize` writes: the "op" name and the offset. */
  function Serialize(op: SC3Op): (r: (string, nat))
    ensures r.1 == op.offset
  {
    match op
    case Linebreak(o) => ("linebreak", o)
    case RubyBase(o) => ("ruby-base", o)
    case RubyEnd(o) => ("ruby-end", o)
  }

  /** The marker a client reads back from an ("op", "offset") pair. */
  function Deserialize(name: string, offset: nat): (r: Option<SC3Op>)
  {
    if name == "linebreak" then Some(Linebreak(offset))
    else if name == "ruby-base" then Some(RubyBase(offset))
    else if name == "ruby-end" then Some(RubyEnd(offset))
    else None
  }

  /** Serialising a marker loses nothing: the kind is told apart by its name. */
  lemma SerializeRoundTrip(op: SC3Op)
    ensures Deserialize(Serialize(op).0, Serialize(op).1) == Some(op)
  {
  }

  /** The character a table entry contributes: the ideographic space U+3000
      becomes an ASCII space, any other entry is taken as it is. */
  function Normalize(c: char): (r: char)
    ensures c == '\U{3000}' ==> r == ' '
    ensures c != '\U{3000}' ==> r == c
  {
    if c == '\U{3000}' then ' ' else c
  }

  /** `((hi << 8) | lo) - 0x8000` for a high byte in 0x80..=0xFE. */
  function Codepoint(hi: byte, lo: byte): (cp: nat)
    requires 0x80 <= hi
    ensures cp == (hi - 0x80) * 0x100 + lo
  {
    hi * 0x100 + lo - 0x8000
  }

  /** The source widens the two bytes to `usize` and computes
      `((hi << 8) | lo) - 0x8000`. The value fits in 16 bits, so the lemma
      states it on `bv16`. Since `lo` fills only the low byte, that is the
      arithmetic form above. */
  lemma CodepointBits(hi: bv8, lo: bv8)
    requires 0x80 <= hi
    ensures ((((hi as bv16) << 8) | (lo as bv16)) as int) - 0x8000 == Codepoint(hi as int, lo as int)
  {
  }

  /** A two-byte code names exactly one table entry: distinct byte pairs give
      distinct codes, and a high byte below 0xFF stays in the first 0x7F00. */
  lemma CodepointInjective(hi: byte, lo: byte, hi': byte, lo': byte)
    requires 0x80 <= hi && 0x80 <= hi'
    ensures hi < 0xFF ==> Codepoint(hi, lo) < 0x7F00
    ensures Codepoint(hi, lo) == Codepoint(hi', lo') ==> hi == hi' && lo == lo'
  {
    if hi < hi' {
      assert (hi' - 0x80) * 0x100 >= (hi - 0x80) * 0x100 + 0x100;
    } else if hi' < hi {
      assert (hi - 0x80) * 0x100 >= (hi' - 0x80) * 0x100 + 0x100;
    }
  }

  /** Decoding from `pos` with `content` and `markers` already accumulated:
      the result and the position just past the terminator, or the error. */
  function DecodeFrom(charset: seq<char>, input: seq<byte>, pos: nat,
                      content: string, markers: seq<SC3Op>): Result<(SC3String, nat), ReadError>
    decreases |input| - pos
  {
    if pos >= |input| then Failure(UnexpectedEof)
    else
      var b := input[pos];
      if b == LinebreakToken then
        DecodeFrom(charset, input, pos + 1, content, markers + [Linebreak(Utf8Len(content))])
      else if b == RubyBaseToken then
        DecodeFrom(charset, input, pos + 1, content, markers + [RubyBase(Utf8Len(content))])
      else if b == RubyEndToken then
        DecodeFrom(charset, input, pos + 1, content, markers + [RubyEnd(Utf8Len(content))])
      else if 0x80 <= b < 0xFF then
        if pos + 1 >= |input| then Failure(UnexpectedEof)
        else
          var cp := Codepoint(b, input[pos + 1]);
          if cp < |charset| then
            DecodeFrom(charset, input, pos + 2, content + [Normalize(charset[cp])], markers)
          else
            Failure(UnknownCodepoint)
      else if b == EndToken then
        Success((SC3String(content, markers), pos + 1))
      else
        Failure(UnknownStringToken)
  }

  /** The string encoded at `input[pos..]`. */
  function Decode(charset: seq<char>, input: seq<byte>, pos: nat): Result<(SC3String, nat), ReadError>
  {
    DecodeFrom(charset, input, pos, "", [])
  }

  /** `SC3String::read_from_stdin`: reads byte by byte until the terminator. */
  method ReadSC3String(charset: seq<char>, input: seq<byte>, start: nat)
    returns (r: Result<(SC3String, nat), ReadError>)
    ensures r == Decode(charset, input, start)
    ensures r.Success? ==> start < r.value.1 <= |input|
  {
    var reachedEnd := false;
    var content: string := "";
    var contentLen: nat := 0;
    var markers: seq<SC3Op> := [];
    var pos := start;
    while !reachedEnd
      invariant start <= pos
      invariant pos > start ==> pos <= |input|
      invariant contentLen == Utf8Len(content)
      invariant !reachedEnd ==> DecodeFrom(charset, input, pos, content, markers) == Decode(charset, input, start)
      invariant reachedEnd ==> pos > start && Success((SC3String(content, markers), pos)) == Decode(charset, input, start)
      decreases |input| - pos, !reachedEnd
    {
      if pos >= |input| {
        return Failure(UnexpectedEof);
      }
      ghost var p0, c0, m0 := pos, content, markers;
      var token := input[pos];
      pos := pos + 1;
      if token == LinebreakToken {
        markers := markers + [Linebreak(contentLen)];
        assert DecodeFrom(charset, input, p0, c0, m0) == DecodeFrom(charset, input, pos, content, markers) by {
          assert input[p0] == token;
        }
      } else if token == RubyBaseToken {
        markers := markers + [RubyBase(contentLen)];
        assert DecodeFrom(charset, input, p0, c0, m0) == DecodeFrom(charset, input, pos, content, markers) by {
          assert input[p0] == token;
        }
      } else if token == RubyEndToken {
        markers := markers + [RubyEnd(contentLen)];
        assert DecodeFrom(charset, input, p0, c0, m0) == DecodeFrom(charset, input, pos, content, markers) by {
          assert input[p0] == token;
        }
      } else if 0x80 <= token < 0xFF {
        if pos >= |input| {
          return Failure(UnexpectedEof);
        }
        var lowerHalf := input[pos];
        pos := pos + 1;
        var codepoint := Codepoint(token, lowerHalf);
        if codepoint < |charset| {
          ghost var before := content;
          var character := charset[codepoint];
          if character == '\U{3000}' {
            character := ' ';
          }
          content := content + [character];
          contentLen := contentLen + Width(character);
          assert DecodeFrom(charset, input, p0, c0, m0) == DecodeFrom(charset, input, pos, content, markers) by {
            assert content[..|content| - 1] == before;
          }
        } else {
          return Failure(UnknownCodepoint);
        }
      } else if token == EndToken {
        reachedEnd := true;
      } else {
        return Failure(UnknownStringToken);
      }
    }
    r := Success((SC3String(content, markers), pos));
  }

  /** Marker offsets never decrease in emission order and none lies past the
      end of the content's UTF-8 encoding. */
  ghost predicate WellFormed(s: SC3String)
  {
    && (forall i, j :: 0 <= i < j < |s.markers| ==> s.markers[i].offset <= s.markers[j].offset)
    && (forall i :: 0 <= i < |s.markers| ==> s.markers[i].offset <= Utf8Len(s.content))
  }

  lemma Utf8LenPush(s: string, c: char)
    ensures Utf8Len(s + [c]) == Utf8Len(s) + Width(c)
  {
    assert (s + [c])[..|s|] == s;
  }

  lemma {:induction false} DecodeFromWellFormed(charset: seq<char>, input: seq<byte>, pos: nat,
                                               content: string, markers: seq<SC3Op>)
    requires WellFormed(SC3String(content, markers))
    ensures DecodeFrom(charset, input, pos, content, markers).Success? ==>
              WellFormed(DecodeFrom(charset, input, pos, content, markers).value.0)
    decreases |input| - pos
  {
    if pos < |input| {
      var b := input[pos];
      var here := Utf8Len(content);
      if b == LinebreakToken {
        DecodeFromWellFormed(charset, input, pos + 1, content, markers + [Linebreak(here)]);
      } else if b == RubyBaseToken {
        DecodeFromWellFormed(charset, input, pos + 1, content, markers + [RubyBase(here)]);
      } else if b == RubyEndToken {
        DecodeFromWellFormed(charset, input, pos + 1, content, markers + [RubyEnd(here)]);
      } else if 0x80 <= b < 0xFF && pos + 1 < |input| {
        var cp := Codepoint(b, input[pos + 1]);
        if cp < |charset| {
          Utf8LenPush(content, Normalize(charset[cp]));
          DecodeFromWellFormed(charset, input, pos + 2, content + [Normalize(charset[cp])], markers);
        }
      }
    }
  }

  /** Every successfully decoded string satisfies the marker invariant. */
  lemma DecodeWellFormed(charset: seq<char>, input: seq<byte>, pos: nat)
    ensures Decode(charset, input, pos).Success? ==> WellFormed(Decode(charset, input, pos).value.0)
  {
    DecodeFromWellFormed(charset, input, pos, "", []);
  }

  // ---------------------------------------------------------------------------
  // The encoding, written per token, and the text a token list stands for.

  /** One unit of the encoding: a marker byte or a character-table index. */
  datatype Token = LinebreakMark | RubyBaseMark | RubyEndMark | Glyph(index: nat)

  /** A token list the encoding can carry (a code's high byte is at most 0xFE)
      and whose glyphs all exist in `charset`. */
  predicate ValidTokens(charset: seq<char>, ts: seq<Token>)
  {
    forall i :: 0 <= i < |ts| ==> ts[i].Glyph? ==> ts[i].index < |charset| && ts[i].index < 0x7F00
  }

  function EncodeToken(t: Token): seq<byte>
    requires t.Glyph? ==> t.index < 0x7F00
  {
    match t
    case LinebreakMark => [LinebreakToken]
    case RubyBaseMark => [RubyBaseToken]
    case RubyEndMark => [RubyEndToken]
    case Glyph(i) => [0x80 + i / 0x100, i % 0x100]
  }

  /** The bytes the game sends for `ts`, terminator included. */
  function Encode(charset: seq<char>, ts: seq<Token>): seq<byte>
    requires ValidTokens(charset, ts)
  {
    EncodeBody(charset, ts) + [EndToken]
  }

  function EncodeBody(charset: seq<char>, ts: seq<Token>): seq<byte>
    requires ValidTokens(charset, ts)
  {
    if ts == [] then [] else EncodeToken(ts[0]) + EncodeBody(charset, ts[1..])
  }

  /** What one token does to the value decoded so far: a glyph appends its
      (normalised) character, a marker records the UTF-8 length of the text
      before it. */
  function Apply(charset: seq<char>, s: SC3String, t: Token): SC3String
    requires t.Glyph? ==> t.index < |charset|
  {
    var here := Utf8Len(s.content);
    match t
    case LinebreakMark => SC3String(s.content, s.markers + [Linebreak(here)])
    case RubyBaseMark => SC3String(s.content, s.markers + [RubyBase(here)])
    case RubyEndMark => SC3String(s.content, s.markers + [RubyEnd(here)])
    case Glyph(i) => SC3String(s.content + [Normalize(charset[i])], s.markers)
  }

  /** The value `ts` stands for, starting from `s`. */
  function RenderFrom(charset: seq<char>, s: SC3String, ts: seq<Token>): SC3String
    requires ValidTokens(charset, ts)
    decreases |ts|
  {
    if ts == [] then s else RenderFrom(charset, Apply(charset, s, ts[0]), ts[1..])
  }

  function Render(charset: seq<char>, ts: seq<Token>): SC3String
    requires ValidTokens(charset, ts)
  {
    RenderFrom(charset, SC3String("", []), ts)
  }

  /** One token's bytes move the decoder from `s` to `Apply(charset, s, t)`. */
  lemma DecodeOneToken(charset: seq<char>, input: seq<byte>, pos: nat, s: SC3String, t: Token)
    requires t.Glyph? ==> t.index < |charset| && t.index < 0x7F00
    requires pos + |EncodeToken(t)| <= |input|
    requires input[pos..pos + |EncodeToken(t)|] == EncodeToken(t)
    ensures DecodeFrom(charset, input, pos, s.content, s.markers)
            == DecodeFrom(charset, input, pos + |EncodeToken(t)|,
                          Apply(charset, s, t).content, Apply(charset, s, t).markers)
  {
    var enc := EncodeToken(t);
    assert input[pos] == enc[0];
    if t.Glyph? {
      assert input[pos + 1] == enc[1];
      assert Codepoint(input[pos], input[pos + 1]) == t.index;
    }
  }

  /** The bytes of a non-empty token list: the first token's, then the rest's. */
  lemma BodySplit(charset: seq<char>, input: seq<byte>, pos: nat, ts: seq<Token>)
    returns (step: seq<byte>, tail: seq<byte>)
    requires ValidTokens(charset, ts) && ts != []
    requires pos + |EncodeBody(charset, ts)| <= |input|
    requires input[pos..pos + |EncodeBody(charset, ts)|] == EncodeBody(charset, ts)
    ensures ValidTokens(charset, ts[1..])
    ensures step == EncodeToken(ts[0]) && tail == EncodeBody(charset, ts[1..])
    ensures |EncodeBody(charset, ts)| == |step| + |tail|
    ensures input[pos..pos + |step|] == step
    ensures input[pos + |step|..pos + |step| + |tail|] == tail
  {
    var rest := ts[1..];
    assert ValidTokens(charset, rest) by {
      forall i | 0 <= i < |rest| ensures rest[i] == ts[i + 1] { }
    }
    step, tail := EncodeToken(ts[0]), EncodeBody(charset, rest);
    SliceSplit(input, pos, step, tail);
  }

  /** Decoding the bytes of a token list applies its tokens in order. */
  lemma {:induction false} DecodeBody(charset: seq<char>, input: seq<byte>, pos: nat,
                                     s: SC3String, ts: seq<Token>)
    requires ValidTokens(charset, ts)
    requires pos + |EncodeBody(charset, ts)| <= |input|
    requires input[pos..pos + |EncodeBody(charset, ts)|] == EncodeBody(charset, ts)
    ensures DecodeFrom(charset, input, pos, s.content, s.markers)
            == DecodeFrom(charset, input, pos + |EncodeBody(charset, ts)|,
                          RenderFrom(charset, s, ts).content, RenderFrom(charset, s, ts).markers)
    decreases |ts|, 1
  {
    if ts != [] {
      DecodeBodyCons(charset, input, pos, s, ts);
    }
  }

  /** The step of `DecodeBody` for a non-empty list: the first token, then the rest. */
  lemma {:induction false} DecodeBodyCons(charset: seq<char>, input: seq<byte>, pos: nat,
                                         s: SC3String, ts: seq<Token>)
    requires ValidTokens(charset, ts) && ts != []
    requires pos + |EncodeBody(charset, ts)| <= |input|
    requires input[pos..pos + |EncodeBody(charset, ts)|] == EncodeBody(charset, ts)
    ensures DecodeFrom(charset, input, pos, s.content, s.markers)
            == DecodeFrom(charset, input, pos + |EncodeBody(charset, ts)|,
                          RenderFrom(charset, s, ts).content, RenderFrom(charset, s, ts).markers)
    decreases |ts|, 0
  {
    var step, tail := BodySplit(charset, input, pos, ts);
    var next := Apply(charset, s, ts[0]);
    DecodeOneToken(charset, input, pos, s, ts[0]);
    DecodeBody(charset, input, pos + |step|, next, ts[1..]);
    assert pos + |step| + |tail| == pos + |EncodeBody(charset, ts)|;
    assert RenderFrom(charset, next, ts[1..]) == RenderFrom(charset, s, ts);
  }

  /** Decoding inverts the encoding: where the bytes sent for a token list
      stand in the input, they decode to the value the list stands for, and
      decoding stops just past the terminator. */
  lemma DecodeAt(charset: seq<char>, ts: seq<Token>, input: seq<byte>, pos: nat)
    requires ValidTokens(charset, ts)
    requires pos + |Encode(charset, ts)| <= |input|
    requires input[pos..pos + |Encode(charset, ts)|] == Encode(charset, ts)
    ensures Decode(charset, input, pos) == Success((Render(charset, ts), pos + |Encode(charset, ts)|))
  {
    var body := EncodeBody(charset, ts);
    SliceSplit(input, pos, body, [EndToken]);
    DecodeBody(charset, input, pos, SC3String("", []), ts);
    assert input[pos + |body|] == input[pos + |body|..pos + |body| + 1][0];
  }

  /** The same, for the token list's bytes between any prefix and suffix. */
  lemma DecodeEncode(charset: seq<char>, ts: seq<Token>, pre: seq<byte>, post: seq<byte>)
    requires ValidTokens(charset, ts)
    ensures Decode(charset, pre + Encode(charset, ts) + post, |pre|)
            == Success((Render(charset, ts), |pre| + |Encode(charset, ts)|))
  {
    var input := pre + Encode(charset, ts) + post;
    assert input[|pre|..|pre| + |Encode(charset, ts)|] == Encode(charset, ts);
    DecodeAt(charset, ts, input, |pre|);
  }

  /** Input that ends inside a string, after whole tokens, fails at the end of input. */
  lemma DecodeTruncated(charset: seq<char>, ts: seq<Token>, pre: seq<byte>)
    requires ValidTokens(charset, ts)
    ensures Decode(charset, pre + EncodeBody(charset, ts), |pre|) == Failure(UnexpectedEof)
  {
    var input := pre + EncodeBody(charset, ts);
    assert input[|pre|..|pre| + |EncodeBody(charset, ts)|] == EncodeBody(charset, ts);
    DecodeBody(charset, input, |pre|, SC3String("", []), ts);
  }

  /** Input that ends after whole tokens and the high byte of a character code
      fails at the end of input, on the read of the low byte. */
  lemma DecodeTruncatedGlyph(charset: seq<char>, ts: seq<Token>, pre: seq<byte>, hi: byte)
    requires ValidTokens(charset, ts) && 0x80 <= hi < 0xFF
    ensures Decode(charset, pre + EncodeBody(charset, ts) + [hi], |pre|) == Failure(UnexpectedEof)
  {
    var body := EncodeBody(charset, ts);
    var input := pre + body + [hi];
    assert input[|pre|..|pre| + |body|] == body;
    DecodeBody(charset, input, |pre|, SC3String("", []), ts);
    assert input[|pre| + |body|] == hi;
  }

  /** Without a terminator byte ahead, decoding cannot succeed. */
  lemma {:induction false} DecodeNeedsTerminator(charset: seq<char>, input: seq<byte>, pos: nat,
                                                content: string, markers: seq<SC3Op>)
    requires forall i :: pos <= i < |input| ==> input[i] != EndToken
    ensures DecodeFrom(charset, input, pos, content, markers).Failure?
    decreases |input| - pos
  {
    if pos < |input| {
      var b := input[pos];
      var here := Utf8Len(content);
      if b == LinebreakToken {
        DecodeNeedsTerminator(charset, input, pos + 1, content, markers + [Linebreak(here)]);
      } else if b == RubyBaseToken {
        DecodeNeedsTerminator(charset, input, pos + 1, content, markers + [RubyBase(here)]);
      } else if b == RubyEndToken {
        DecodeNeedsTerminator(charset, input, pos + 1, content, markers + [RubyEnd(here)]);
      } else if 0x80 <= b < 0xFF && pos + 1 < |input| {
        var cp := Codepoint(b, input[pos + 1]);
        if cp < |charset| {
          DecodeNeedsTerminator(charset, input, pos + 2, content + [Normalize(charset[cp])], markers);
        }
      }
    }
  }

  /** A byte that is no token (0x01-0x08, 0x0A, 0x0C-0x7F). */
  predicate IsUnknownToken(b: byte)
  {
    b < 0x80 && b != LinebreakToken && b != RubyBaseToken && b != RubyEndToken
  }

  /** After any run of valid tokens, an unknown byte fails the string. */
  lemma DecodeUnknownToken(charset: seq<char>, ts: seq<Token>, b: byte, pre: seq<byte>, post: seq<byte>)
    requires ValidTokens(charset, ts) && IsUnknownToken(b)
    ensures Decode(charset, pre + EncodeBody(charset, ts) + [b] + post, |pre|) == Failure(UnknownStringToken)
  {
    var body := EncodeBody(charset, ts);
    var input := pre + body + [b] + post;
    assert input[|pre|..|pre| + |body|] == body;
    DecodeBody(charset, input, |pre|, SC3String("", []), ts);
    assert input[|pre| + |body|] == b;
  }

  /** After any run of valid tokens, a code past the end of the table fails the string. */
  lemma DecodeUnknownCodepoint(charset: seq<char>, ts: seq<Token>, hi: byte, lo: byte,
                               pre: seq<byte>, post: seq<byte>)
    requires ValidTokens(charset, ts) && 0x80 <= hi < 0xFF && Codepoint(hi, lo) >= |charset|
    ensures Decode(charset, pre + EncodeBody(charset, ts) + [hi, lo] + post, |pre|) == Failure(UnknownCodepoint)
  {
    var body := EncodeBody(charset, ts);
    var input := pre + body + [hi, lo] + post;
    assert input[|pre|..|pre| + |body|] == body;
    DecodeBody(charset, input, |pre|, SC3String("", []), ts);
    assert input[|pre| + |body|] == hi && input[|pre| + |body| + 1] == lo;
  }

  /** The token at `pos` of a string that decodes, its width, and the
      decoder state it leads to. */
  lemma TokenAt(charset: seq<char>, input: seq<byte>, pos: nat, s: SC3String) returns (t: Token, w: nat)
    requires pos < |input| && input[pos] != EndToken
    requires DecodeFrom(charset, input, pos, s.content, s.markers).Success?
    ensures t.Glyph? ==> t.index < |charset| && t.index < 0x7F00
    ensures w == |EncodeToken(t)| && pos + w <= |input| && input[pos..pos + w] == EncodeToken(t)
    ensures DecodeFrom(charset, input, pos, s.content, s.markers)
            == DecodeFrom(charset, input, pos + w, Apply(charset, s, t).content, Apply(charset, s, t).markers)
  {
    var b := input[pos];
    if b == LinebreakToken {
      t, w := LinebreakMark, 1;
    } else if b == RubyBaseToken {
      t, w := RubyBaseMark, 1;
    } else if b == RubyEndToken {
      t, w := RubyEndMark, 1;
    } else {
      var cp := Codepoint(b, input[pos + 1]);
      t, w := Glyph(cp), 2;
      assert EncodeToken(t) == [b, input[pos + 1]];
    }
    assert EncodeToken(t) == input[pos..pos + w];
    DecodeOneToken(charset, input, pos, s, t);
  }

  /** A token in front of a list: its bytes come first, and it is applied first. */
  lemma EncodeCons(charset: seq<char>, s: SC3String, t: Token, rest: seq<Token>)
    requires t.Glyph? ==> t.index < |charset| && t.index < 0x7F00
    requires ValidTokens(charset, rest)
    ensures ValidTokens(charset, [t] + rest)
    ensures Encode(charset, [t] + rest) == EncodeToken(t) + Encode(charset, rest)
    ensures RenderFrom(charset, s, [t] + rest) == RenderFrom(charset, Apply(charset, s, t), rest)
  {
    var ts := [t] + rest;
    assert ts[1..] == rest;
    assert ValidTokens(charset, ts) by {
      forall i | 1 <= i < |ts| ensures ts[i] == rest[i - 1] { }
    }
    assert EncodeBody(charset, ts) == EncodeToken(t) + EncodeBody(charset, rest);
    assert (EncodeToken(t) + EncodeBody(charset, rest)) + [EndToken]
        == EncodeToken(t) + (EncodeBody(charset, rest) + [EndToken]);
  }

  /** The converse of `DecodeEncode`: whatever decodes successfully is the
      encoding of a token list, and the result is what that list stands for. */
  lemma {:induction false} DecodeFromIsEncoding(charset: seq<char>, input: seq<byte>, pos: nat, s: SC3String)
    returns (ts: seq<Token>)
    requires DecodeFrom(charset, input, pos, s.content, s.markers).Success?
    ensures ValidTokens(charset, ts)
    ensures var (r, q) := DecodeFrom(charset, input, pos, s.content, s.markers).value;
            pos + |Encode(charset, ts)| == q <= |input| && input[pos..q] == Encode(charset, ts)
            && r == RenderFrom(charset, s, ts)
    decreases |input| - pos, 1
  {
    if input[pos] == EndToken {
      ts := [];
      assert Encode(charset, ts) == [EndToken];
      assert input[pos..pos + 1] == [EndToken];
    } else {
      ts := TokenIsEncoding(charset, input, pos, s);
    }
  }

  /** The step of `DecodeFromIsEncoding` when the next byte is not the terminator. */
  lemma {:induction false} TokenIsEncoding(charset: seq<char>, input: seq<byte>, pos: nat, s: SC3String)
    returns (ts: seq<Token>)
    requires DecodeFrom(charset, input, pos, s.content, s.markers).Success?
    requires input[pos] != EndToken
    ensures ValidTokens(charset, ts)
    ensures var (r, q) := DecodeFrom(charset, input, pos, s.content, s.markers).value;
            pos + |Encode(charset, ts)| == q <= |input| && input[pos..q] == Encode(charset, ts)
            && r == RenderFrom(charset, s, ts)
    decreases |input| - pos, 0
  {
    var t, w := TokenAt(charset, input, pos, s);
    var rest := DecodeFromIsEncoding(charset, input, pos + w, Apply(charset, s, t));
    ts := [t] + rest;
    EncodeCons(charset, s, t, rest);
    SliceJoin(input, pos, EncodeToken(t), Encode(charset, rest));
  }

  lemma DecodeIsEncoding(charset: seq<char>, input: seq<byte>, pos: nat) returns (ts: seq<Token>)
    requires Decode(charset, input, pos).Success?
    ensures ValidTokens(charset, ts)
    ensures var (r, q) := Decode(charset, input, pos).value;
            pos + |Encode(charset, ts)| == q <= |input| && input[pos..q] == Encode(charset, ts)
            && r == Render(charset, ts)
  {
    ts := DecodeFromIsEncoding(charset, input, pos, SC3String("", []));
  }

  /** Two small inputs: a lone line break, and the first table entry. */
  lemma DecodeExamples(charset: seq<char>)
    ensures Decode(charset, [0x00, 0xFF], 0) == Success((SC3String("", [Linebreak(0)]), 2))
    ensures |charset| > 0 ==>
              Decode(charset, [0x80, 0x00, 0xFF], 0) == Success((SC3String([Normalize(charset[0])], []), 3))
    ensures |charset| == 0 ==> Decode(charset, [0x80, 0x00, 0xFF], 0) == Failure(UnknownCodepoint)
  {
    var lb := [LinebreakMark];
    assert lb[1..] == [];
    assert EncodeBody(charset, lb) == [0x00];
    assert Encode(charset, lb) == [0x00, 0xFF];
    DecodeEncode(charset, lb, [], []);
    assert [] + Encode(charset, lb) + [] == [0x00, 0xFF];
    assert Render(charset, lb) == SC3String("", [Linebreak(0)]);
    if |charset| > 0 {
      var g := [Glyph(0)];
      assert g[1..] == [];
      assert EncodeBody(charset, g) == [0x80, 0x00];
      assert Encode(charset, g) == [0x80, 0x00, 0xFF];
      DecodeEncode(charset, g, [], []);
      assert [] + Encode(charset, g) + [] == [0x80, 0x00, 0xFF];
      assert Render(charset, g) == SC3String([Normalize(charset[0])], []);
    } else {
      DecodeUnknownCodepoint(charset, [], 0x80, 0x00, [], [0xFF]);
      assert [] + EncodeBody(charset, []) + [0x80, 0x00] + [0xFF] == [0x80, 0x00, 0xFF];
    }
  }
}
