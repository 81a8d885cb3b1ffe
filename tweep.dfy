/** `Tweep::read_from_stdin` (src/game.rs): one record of the "TWEP"
    message. Fixed-width fields id(4) tab(2) pfp(2) day(2) count(2), then the
    author's user name, real name and the content, then `count` replies, each
    an SC3 string. */
module Tweeps {
  import opened Wire
  import opened SC3

  datatype Tweep = Tweep(
    id: u32,
    tab: u16,
    pfpId: u16,
    differentDay: bool,
    authorUsername: SC3String,
    authorRealname: SC3String,
    content: SC3String,
    replies: seq<SC3String>,
    replyPossible: bool)

  /** Bytes of the fixed-width part of a record. */
  const FixedSize: nat := 12

  /** `n` strings one after another from `pos`, and the position after them. */
  function DecodeStrings(charset: seq<char>, input: seq<byte>, pos: nat, n: nat)
    : (r: Result<(seq<SC3String>, nat), ReadError>)
    ensures r.Success? ==> |r.value.0| == n && pos <= r.value.1
    ensures r.Success? && n > 0 ==> pos < r.value.1 <= |input|
    decreases n
  {
    if n == 0 then Success(([], pos))
    else
      var first :- Decode(charset, input, pos);
      DecodeProgress(charset, input, pos);
      var rest :- DecodeStrings(charset, input, first.1, n - 1);
      Success(([first.0] + rest.0, rest.1))
  }

  lemma DecodeProgress(charset: seq<char>, input: seq<byte>, pos: nat)
    ensures Decode(charset, input, pos).Success? ==>
              pos < Decode(charset, input, pos).value.1 <= |input|
  {
    if Decode(charset, input, pos).Success? {
      var ts := DecodeIsEncoding(charset, input, pos);
    }
  }

  /** The record at `input[pos..]`, and the position after it: the fixed
      fields, then the user name, the real name, the content and `count`
      replies, read one string after another. */
  function DecodeTweep(charset: seq<char>, input: seq<byte>, pos: nat): Result<(Tweep, nat), ReadError>
  {
    if pos + FixedSize > |input| then Failure(UnexpectedEof)
    else
      var strings :- DecodeStrings(charset, input, pos + FixedSize, 3 + U16At(input, pos + 10));
      var s := strings.0;
      Success((Tweep(U32At(input, pos), U16At(input, pos + 4), U16At(input, pos + 6),
                     U16At(input, pos + 8) != 0, s[0], s[1], s[2], s[3..], false), strings.1))
  }

  /** What a successful read promises: the fixed fields as sent, exactly
      `count` replies, the day flag set iff its field is non-zero, replies not
      yet possible. */
  lemma DecodeTweepFields(charset: seq<char>, input: seq<byte>, pos: nat)
    ensures var r := DecodeTweep(charset, input, pos);
            r.Success? ==>
              && pos + FixedSize <= |input|
              && r.value.0.id == U32At(input, pos)
              && r.value.0.tab == U16At(input, pos + 4)
              && r.value.0.pfpId == U16At(input, pos + 6)
              && (r.value.0.differentDay <==> U16At(input, pos + 8) != 0)
              && |r.value.0.replies| == U16At(input, pos + 10)
              && !r.value.0.replyPossible
              && pos + FixedSize < r.value.1 <= |input|
  {
  }

  /** `r` with `xs` put in front of its strings. */
  function Prepend(xs: seq<SC3String>, r: Result<(seq<SC3String>, nat), ReadError>)
    : Result<(seq<SC3String>, nat), ReadError>
  {
    match r
    case Failure(e) => Failure(e)
    case Success((ys, p)) => Success((xs + ys, p))
  }

  lemma PrependNothing(r: Result<(seq<SC3String>, nat), ReadError>)
    ensures Prepend([], r) == r
  {
    if r.Success? {
      assert [] + r.value.0 == r.value.0;
    }
  }

  /** Reading one more string moves it from the pending reads to the front,
      or fails the whole read with its error. */
  lemma PrependStep(charset: seq<char>, input: seq<byte>, xs: seq<SC3String>, pos: nat, n: nat)
    requires n > 0
    ensures Decode(charset, input, pos).Failure? ==>
              Prepend(xs, DecodeStrings(charset, input, pos, n)) == Failure(Decode(charset, input, pos).error)
    ensures Decode(charset, input, pos).Success? ==>
              var (s, p) := Decode(charset, input, pos).value;
              Prepend(xs, DecodeStrings(charset, input, pos, n))
              == Prepend(xs + [s], DecodeStrings(charset, input, p, n - 1))
  {
    if Decode(charset, input, pos).Success? {
      var (s, p) := Decode(charset, input, pos).value;
      match DecodeStrings(charset, input, p, n - 1)
      case Failure(e) =>
      case Success((ys, q)) =>
        assert xs + ([s] + ys) == (xs + [s]) + ys;
    }
  }

  /** A record read is its fixed fields and the strings read after them. */
  lemma DecodeTweepOf(charset: seq<char>, input: seq<byte>, pos: nat)
    requires pos + FixedSize <= |input|
    ensures var all := DecodeStrings(charset, input, pos + FixedSize, 3 + U16At(input, pos + 10));
            && (all.Failure? ==> DecodeTweep(charset, input, pos) == Failure(all.error))
            && (all.Success? ==>
                  var ss := all.value.0;
                  DecodeTweep(charset, input, pos)
                  == Success((Tweep(U32At(input, pos), U16At(input, pos + 4), U16At(input, pos + 6),
                                    U16At(input, pos + 8) != 0, ss[0], ss[1], ss[2], ss[3..], false),
                              all.value.1)))
  {
  }

  /** `Tweep::read_from_stdin`: the fixed fields, three strings, then a loop
      reading the replies. */
  method ReadTweep(charset: seq<char>, input: seq<byte>, start: nat) returns (r: Result<(Tweep, nat), ReadError>)
    ensures r == DecodeTweep(charset, input, start)
  {
    if start + FixedSize > |input| {
      return Failure(UnexpectedEof);
    }
    var id := U32At(input, start);
    var tab := U16At(input, start + 4);
    var pfpId := U16At(input, start + 6);
    var differentDay := U16At(input, start + 8);
    var repliesAmount := U16At(input, start + 10);
    ghost var all := DecodeStrings(charset, input, start + FixedSize, 3 + repliesAmount as nat);
    DecodeTweepOf(charset, input, start);
    PrependNothing(all);

    var u := ReadSC3String(charset, input, start + FixedSize);
    PrependStep(charset, input, [], start + FixedSize, 3 + repliesAmount as nat);
    if u.Failure? {
      return Failure(u.error);
    }
    var authorUsername := u.value.0;
    var v := ReadSC3String(charset, input, u.value.1);
    PrependStep(charset, input, [authorUsername], u.value.1, 2 + repliesAmount as nat);
    if v.Failure? {
      return Failure(v.error);
    }
    var authorRealname := v.value.0;
    assert [authorUsername] + [authorRealname] == [authorUsername, authorRealname];
    var w := ReadSC3String(charset, input, v.value.1);
    PrependStep(charset, input, [authorUsername, authorRealname], v.value.1, 1 + repliesAmount as nat);
    if w.Failure? {
      return Failure(w.error);
    }
    var content := w.value.0;
    var replies := ReadReplies(charset, input, w.value.1, repliesAmount as nat);
    assert [authorUsername, authorRealname] + [content] == [authorUsername, authorRealname, content];
    if replies.Failure? {
      return Failure(replies.error);
    }
    assert all == Success(([authorUsername, authorRealname, content] + replies.value.0, replies.value.1));
    assert ([authorUsername, authorRealname, content] + replies.value.0)[3..] == replies.value.0;
    r := Success((Tweep(id, tab, pfpId, differentDay != 0, authorUsername, authorRealname, content,
                        replies.value.0, false), replies.value.1));
  }

  /** The loop of `Tweep::read_from_stdin` that reads the replies one by one. */
  method ReadReplies(charset: seq<char>, input: seq<byte>, start: nat, n: nat)
    returns (r: Result<(seq<SC3String>, nat), ReadError>)
    ensures r == DecodeStrings(charset, input, start, n)
  {
    var replies: seq<SC3String> := [];
    var pos := start;
    PrependNothing(DecodeStrings(charset, input, start, n));
    var i := 0;
    while i < n
      invariant 0 <= i <= n
      invariant Prepend(replies, DecodeStrings(charset, input, pos, n - i)) == DecodeStrings(charset, input, start, n)
    {
      var reply := ReadSC3String(charset, input, pos);
      PrependStep(charset, input, replies, pos, n - i);
      if reply.Failure? {
        return Failure(reply.error);
      }
      replies := replies + [reply.value.0];
      pos := reply.value.1;
      i := i + 1;
    }
    assert replies + [] == replies;
    r := Success((replies, pos));
  }

  // ---------------------------------------------------------------------------
  // The record as the game writes it.

  /** A record before encoding: its fixed fields and the token lists of its strings. */
  datatype TweepRecord = TweepRecord(
    id: u32, tab: u16, pfpId: u16, day: u16,
    username: seq<Token>, realname: seq<Token>, content: seq<Token>,
    replies: seq<seq<Token>>)

  /** The strings of a record in the order they are written. */
  function Strings(rec: TweepRecord): (r: seq<seq<Token>>)
    ensures |r| == 3 + |rec.replies|
  {
    [rec.username, rec.realname, rec.content] + rec.replies
  }

  /** Every token list of `tss` can be encoded. */
  predicate AllValid(charset: seq<char>, tss: seq<seq<Token>>)
    decreases |tss|
  {
    tss == [] || (ValidTokens(charset, tss[0]) && AllValid(charset, tss[1..]))
  }

  predicate ValidRecord(charset: seq<char>, rec: TweepRecord)
  {
    && |rec.replies| < 0x1_0000
    && ValidTokens(charset, rec.username) && ValidTokens(charset, rec.realname)
    && ValidTokens(charset, rec.content) && AllValid(charset, rec.replies)
  }

  lemma StringsValid(charset: seq<char>, rec: TweepRecord)
    requires ValidRecord(charset, rec)
    ensures AllValid(charset, Strings(rec))
  {
    var tss := Strings(rec);
    assert tss[1..][1..][1..] == rec.replies;
    assert tss[1..][1..][0] == rec.content;
    assert tss[1..][0] == rec.realname;
  }

  function EncodeAll(charset: seq<char>, tss: seq<seq<Token>>): seq<byte>
    requires AllValid(charset, tss)
    decreases |tss|
  {
    if tss == [] then [] else Encode(charset, tss[0]) + EncodeAll(charset, tss[1..])
  }

  function RenderAll(charset: seq<char>, tss: seq<seq<Token>>): (r: seq<SC3String>)
    requires AllValid(charset, tss)
    ensures |r| == |tss|
    decreases |tss|
  {
    if tss == [] then [] else [Render(charset, tss[0])] + RenderAll(charset, tss[1..])
  }

  lemma {:induction false} AllValidAt(charset: seq<char>, tss: seq<seq<Token>>, i: nat)
    requires AllValid(charset, tss) && i < |tss|
    ensures ValidTokens(charset, tss[i])
    decreases i
  {
    if i > 0 {
      AllValidAt(charset, tss[1..], i - 1);
    }
  }

  /** The `i`th rendered string is the rendering of the `i`th list. */
  lemma {:induction false} RenderAllAt(charset: seq<char>, tss: seq<seq<Token>>, i: nat)
    requires AllValid(charset, tss) && i < |tss|
    ensures ValidTokens(charset, tss[i])
    ensures RenderAll(charset, tss)[i] == Render(charset, tss[i])
    decreases i
  {
    AllValidAt(charset, tss, i);
    if i > 0 {
      RenderAllAt(charset, tss[1..], i - 1);
    }
  }

  /** Dropping lists drops their renderings. */
  lemma {:induction false} RenderAllDrop(charset: seq<char>, tss: seq<seq<Token>>, k: nat)
    requires AllValid(charset, tss) && k <= |tss|
    ensures AllValid(charset, tss[k..])
    ensures RenderAll(charset, tss)[k..] == RenderAll(charset, tss[k..])
    decreases k
  {
    if k > 0 {
      RenderAllDrop(charset, tss[1..], k - 1);
      assert tss[1..][k - 1..] == tss[k..];
    }
  }

  /** The fixed-width part of a record: id, tab, picture, day and reply count. */
  function EncodeFixed(rec: TweepRecord): (r: seq<byte>)
    requires |rec.replies| < 0x1_0000
    ensures |r| == FixedSize
  {
    LE32(rec.id) + (LE16(rec.tab) + (LE16(rec.pfpId) + (LE16(rec.day) + LE16(|rec.replies|))))
  }

  /** The bytes the game writes for a record. */
  function EncodeTweep(charset: seq<char>, rec: TweepRecord): seq<byte>
    requires ValidRecord(charset, rec)
  {
    StringsValid(charset, rec);
    EncodeFixed(rec) + EncodeAll(charset, Strings(rec))
  }

  /** The tweep a record decodes to. */
  function TweepOf(charset: seq<char>, rec: TweepRecord): Tweep
    requires ValidRecord(charset, rec)
  {
    Tweep(rec.id, rec.tab, rec.pfpId, rec.day != 0,
          Render(charset, rec.username), Render(charset, rec.realname), Render(charset, rec.content),
          RenderAll(charset, rec.replies), false)
  }

  /** The encodings of `tss` stand one after another from `pos`. */
  predicate EncodedAt(charset: seq<char>, tss: seq<seq<Token>>, input: seq<byte>, pos: nat)
    requires AllValid(charset, tss)
    decreases |tss|
  {
    tss == [] ||
    (&& pos + |Encode(charset, tss[0])| <= |input|
     && input[pos..pos + |Encode(charset, tss[0])|] == Encode(charset, tss[0])
     && EncodedAt(charset, tss[1..], input, pos + |Encode(charset, tss[0])|))
  }

  lemma {:induction false} EncodedAtAll(charset: seq<char>, tss: seq<seq<Token>>, input: seq<byte>, pos: nat)
    requires AllValid(charset, tss)
    requires pos + |EncodeAll(charset, tss)| <= |input|
    requires input[pos..pos + |EncodeAll(charset, tss)|] == EncodeAll(charset, tss)
    ensures EncodedAt(charset, tss, input, pos)
    decreases |tss|
  {
    if tss != [] {
      assert EncodeAll(charset, tss) == Encode(charset, tss[0]) + EncodeAll(charset, tss[1..]);
      SliceSplit(input, pos, Encode(charset, tss[0]), EncodeAll(charset, tss[1..]));
      EncodedAtAll(charset, tss[1..], input, pos + |Encode(charset, tss[0])|);
    }
  }

  /** Reading `count` strings where their encodings stand recovers them all. */
  lemma DecodeStringsAt(charset: seq<char>, tss: seq<seq<Token>>, input: seq<byte>, pos: nat)
    requires AllValid(charset, tss)
    requires pos + |EncodeAll(charset, tss)| <= |input|
    requires input[pos..pos + |EncodeAll(charset, tss)|] == EncodeAll(charset, tss)
    ensures DecodeStrings(charset, input, pos, |tss|)
            == Success((RenderAll(charset, tss), pos + |EncodeAll(charset, tss)|))
  {
    EncodedAtAll(charset, tss, input, pos);
    DecodeStringsEncoded(charset, tss, input, pos);
  }

  lemma {:induction false} DecodeStringsEncoded(charset: seq<char>, tss: seq<seq<Token>>, input: seq<byte>, pos: nat)
    requires AllValid(charset, tss) && EncodedAt(charset, tss, input, pos)
    ensures DecodeStrings(charset, input, pos, |tss|)
            == Success((RenderAll(charset, tss), pos + |EncodeAll(charset, tss)|))
    decreases |tss|
  {
    if tss != [] {
      DecodeStringsEncoded(charset, tss[1..], input, pos + |Encode(charset, tss[0])|);
      DecodeStringsStep(charset, tss, input, pos);
    }
  }

  /** The inductive step of `DecodeStringsAt`. */
  lemma DecodeStringsStep(charset: seq<char>, tss: seq<seq<Token>>, input: seq<byte>, pos: nat)
    requires tss != [] && AllValid(charset, tss)
    requires pos + |Encode(charset, tss[0])| <= |input|
    requires input[pos..pos + |Encode(charset, tss[0])|] == Encode(charset, tss[0])
    requires DecodeStrings(charset, input, pos + |Encode(charset, tss[0])|, |tss[1..]|)
             == Success((RenderAll(charset, tss[1..]),
                         pos + |Encode(charset, tss[0])| + |EncodeAll(charset, tss[1..])|))
    ensures DecodeStrings(charset, input, pos, |tss|)
            == Success((RenderAll(charset, tss), pos + |EncodeAll(charset, tss)|))
  {
    var e1, er := Encode(charset, tss[0]), EncodeAll(charset, tss[1..]);
    var rest := RenderAll(charset, tss[1..]);
    assert |tss[1..]| == |tss| - 1;
    DecodeStringsHead(charset, tss[0], input, pos, |tss|, rest, pos + |e1| + |er|);
    assert RenderAll(charset, tss) == [Render(charset, tss[0])] + rest;
    assert EncodeAll(charset, tss) == e1 + er;
  }

  /** One encoded string, then `n - 1` more. */
  lemma DecodeStringsHead(charset: seq<char>, ts: seq<Token>, input: seq<byte>, pos: nat, n: nat,
                          rest: seq<SC3String>, q: nat)
    requires ValidTokens(charset, ts) && n > 0
    requires pos + |Encode(charset, ts)| <= |input|
    requires input[pos..pos + |Encode(charset, ts)|] == Encode(charset, ts)
    requires DecodeStrings(charset, input, pos + |Encode(charset, ts)|, n - 1) == Success((rest, q))
    ensures DecodeStrings(charset, input, pos, n) == Success(([Render(charset, ts)] + rest, q))
  {
    DecodeAt(charset, ts, input, pos);
  }

  /** The fixed fields read back as written. */
  lemma FixedAt(rec: TweepRecord, input: seq<byte>, pos: nat)
    requires |rec.replies| < 0x1_0000
    requires pos + FixedSize <= |input| && input[pos..pos + FixedSize] == EncodeFixed(rec)
    ensures && U32At(input, pos) == rec.id
            && U16At(input, pos + 4) == rec.tab
            && U16At(input, pos + 6) == rec.pfpId
            && U16At(input, pos + 8) == rec.day
            && U16At(input, pos + 10) == |rec.replies|
  {
    var a, b, c, d, e := LE32(rec.id), LE16(rec.tab), LE16(rec.pfpId), LE16(rec.day), LE16(|rec.replies|);
    SliceSplit(input, pos, a, b + (c + (d + e)));
    U32AtLE32(input, pos, rec.id);
    SliceSplit(input, pos + 4, b, c + (d + e));
    U16AtLE16(input, pos + 4, rec.tab);
    SliceSplit(input, pos + 6, c, d + e);
    U16AtLE16(input, pos + 6, rec.pfpId);
    SliceSplit(input, pos + 8, d, e);
    U16AtLE16(input, pos + 8, rec.day);
    U16AtLE16(input, pos + 10, |rec.replies|);
  }

  /** Where a record's bytes stand, the fixed fields read back as written
      and its strings read back rendered, ending just past the record. */
  lemma RecordStringsAt(charset: seq<char>, rec: TweepRecord, input: seq<byte>, pos: nat)
    requires ValidRecord(charset, rec)
    requires pos + |EncodeTweep(charset, rec)| <= |input|
    requires input[pos..pos + |EncodeTweep(charset, rec)|] == EncodeTweep(charset, rec)
    ensures pos + FixedSize <= |input|
    ensures && U32At(input, pos) == rec.id
            && U16At(input, pos + 4) == rec.tab
            && U16At(input, pos + 6) == rec.pfpId
            && U16At(input, pos + 8) == rec.day
            && U16At(input, pos + 10) == |rec.replies|
    ensures AllValid(charset, Strings(rec))
    ensures DecodeStrings(charset, input, pos + FixedSize, 3 + |rec.replies|)
            == Success((RenderAll(charset, Strings(rec)), pos + |EncodeTweep(charset, rec)|))
  {
    var tss := Strings(rec);
    StringsValid(charset, rec);
    SliceSplit(input, pos, EncodeFixed(rec), EncodeAll(charset, tss));
    FixedAt(rec, input, pos);
    DecodeStringsAt(charset, tss, input, pos + FixedSize);
  }

  /** Reading a record back where its bytes stand recovers it: the fixed
      fields, the three strings and every reply, with the day flag reduced to
      "non-zero", and the read ends just past the record. */
  lemma DecodeTweepAt(charset: seq<char>, rec: TweepRecord, input: seq<byte>, pos: nat)
    requires ValidRecord(charset, rec)
    requires pos + |EncodeTweep(charset, rec)| <= |input|
    requires input[pos..pos + |EncodeTweep(charset, rec)|] == EncodeTweep(charset, rec)
    ensures DecodeTweep(charset, input, pos) == Success((TweepOf(charset, rec), pos + |EncodeTweep(charset, rec)|))
  {
    RecordStringsAt(charset, rec, input, pos);
    var tss := Strings(rec);
    var s := RenderAll(charset, tss);
    RenderAllAt(charset, tss, 0);
    RenderAllAt(charset, tss, 1);
    RenderAllAt(charset, tss, 2);
    RenderAllDrop(charset, tss, 3);
    assert tss[0] == rec.username && tss[1] == rec.realname && tss[2] == rec.content;
    assert tss[3..] == rec.replies;
    DecodeTweepOf(charset, input, pos);
  }


  /** The same, for a record between any prefix and suffix. */
  lemma DecodeEncodeTweep(charset: seq<char>, rec: TweepRecord, pre: seq<byte>, post: seq<byte>)
    requires ValidRecord(charset, rec)
    ensures DecodeTweep(charset, pre + EncodeTweep(charset, rec) + post, |pre|)
            == Success((TweepOf(charset, rec), |pre| + |EncodeTweep(charset, rec)|))
  {
    var enc := EncodeTweep(charset, rec);
    var input := pre + enc + post;
    assert input[|pre|..|pre| + |enc|] == enc;
    DecodeTweepAt(charset, rec, input, |pre|);
  }
}
