/** `read_stdin` (src/game.rs): one message from the game is a 4-byte tag and
    its payload. "CLEA" empties the tweep list, "TWEP" appends a record,
    "STRP" sets the reply flag of the first tweep with a given id. The event
    is then broadcast to every registered sink and the sinks whose send
    failed are dropped. An unknown tag means the reader has lost its place in
    the stream, which the source treats as fatal. */
module Game {
  import opened Wire
  import opened SC3
  import opened Tweeps
  import opened State

  // The hex digits spell the tag's name; on a little-endian wire the bytes
  // come in reverse order.
  const ClearTag: u32 := 0x434c4541             // "CLEA"; on the wire 41 45 4C 43
  const TweepTag: u32 := 0x54574550             // "TWEP"; on the wire 50 45 57 54
  const SetReplyPossibleTag: u32 := 0x53545250  // "STRP"; on the wire 50 52 54 53

  /** Why the message loop stops: a read error, or an unknown tag. */
  datatype Fatal = Io(error: ReadError) | Desync

  predicate KnownTag(tag: u32)
  {
    tag == ClearTag || tag == TweepTag || tag == SetReplyPossibleTag
  }

  /** The message at `input[pos..]`, as the event it asks for, and the
      position after it. */
  function ParseMessage(charset: seq<char>, input: seq<byte>, pos: nat): Result<(Event, nat), Fatal>
  {
    if pos + 4 > |input| then Failure(Io(UnexpectedEof))
    else
      var tag := U32At(input, pos);
      if tag == ClearTag then Success((Clear, pos + 4))
      else if tag == TweepTag then
        match DecodeTweep(charset, input, pos + 4)
        case Failure(e) => Failure(Io(e))
        case Success((t, q)) => Success((NewTweep(t), q))
      else if tag == SetReplyPossibleTag then
        if pos + 10 > |input| then Failure(Io(UnexpectedEof))
        else Success((SetReplyPossible(U32At(input, pos + 4), U16At(input, pos + 8) != 0), pos + 10))
      else Failure(Desync)
  }

  /** A message that is read moves the reader forward and stays inside the input. */
  lemma ParseMessageProgress(charset: seq<char>, input: seq<byte>, pos: nat)
    ensures var r := ParseMessage(charset, input, pos);
            r.Success? ==> pos < r.value.1 <= |input|
  {
    if pos + 4 <= |input| && U32At(input, pos) == TweepTag {
      DecodeTweepFields(charset, input, pos + 4);
    }
  }

  /** The loop loses its place exactly when four bytes are there and they are
      none of the three tags; a short read is an I/O error instead. */
  lemma ParseMessageDesync(charset: seq<char>, input: seq<byte>, pos: nat)
    ensures ParseMessage(charset, input, pos) == Failure(Desync)
            <==> pos + 4 <= |input| && !KnownTag(U32At(input, pos))
  {
    if pos + 4 <= |input| && U32At(input, pos) == TweepTag {
      match DecodeTweep(charset, input, pos + 4)
      case Failure(e) =>
        assert ParseMessage(charset, input, pos) == Failure(Io(e));
      case Success(_) =>
    }
  }

  /** Position of the first tweep with `id`, as `iter().find` picks it. */
  function FirstIndex(ts: seq<Tweep>, id: u32): (r: Option<nat>)
    ensures r.None? <==> forall j :: 0 <= j < |ts| ==> ts[j].id != id
    ensures r.Some? ==> r.value < |ts| && ts[r.value].id == id
                        && forall j :: 0 <= j < r.value ==> ts[j].id != id
  {
    if ts == [] then None
    else if ts[0].id == id then Some(0)
    else match FirstIndex(ts[1..], id)
      case None => None
      case Some(i) => Some(i + 1)
  }

  /** The tweep list after event `e`, or `None` when the event is an STRP for
      an id nobody has, which the loop skips without a broadcast. */
  function Apply(ts: seq<Tweep>, e: Event): (r: Option<seq<Tweep>>)
    ensures e.Clear? ==> r == Some([])
    ensures e.NewTweep? ==> r.Some? && |r.value| == |ts| + 1
                            && r.value[..|ts|] == ts && r.value[|ts|] == e.tweep
    ensures e.SetReplyPossible? ==>
              && (r.None? <==> forall j :: 0 <= j < |ts| ==> ts[j].id != e.tweepId)
              && (r.Some? ==>
                    var i := FirstIndex(ts, e.tweepId).value;
                    && |r.value| == |ts|
                    && r.value[i] == ts[i].(replyPossible := e.possible)
                    && forall j :: 0 <= j < |ts| && j != i ==> r.value[j] == ts[j])
  {
    match e
    case Clear => Some([])
    case NewTweep(t) => Some(ts + [t])
    case SetReplyPossible(id, possible) =>
      match FirstIndex(ts, id)
      case None => None
      case Some(i) => Some(ts[i := ts[i].(replyPossible := possible)])
  }

  /** The STRP update touches only the flag: every tweep keeps its id, its
      strings and its replies. */
  lemma SetReplyPossibleKeepsRecords(ts: seq<Tweep>, id: u32, possible: bool)
    requires Apply(ts, SetReplyPossible(id, possible)).Some?
    ensures var r := Apply(ts, SetReplyPossible(id, possible)).value;
            |r| == |ts| && forall j :: 0 <= j < |ts| ==> r[j].(replyPossible := false) == ts[j].(replyPossible := false)
  {
  }

  /** `iter().find(|tweep| tweep.id == id)` as the loop it runs. */
  method FindTweep(ts: seq<Tweep>, id: u32) returns (r: Option<nat>)
    ensures r == FirstIndex(ts, id)
  {
    var i := 0;
    while i < |ts|
      invariant 0 <= i <= |ts|
      invariant forall j :: 0 <= j < i ==> ts[j].id != id
    {
      if ts[i].id == id {
        return Some(i);
      }
      i := i + 1;
    }
    return None;
  }

  /** One turn of the `read_stdin` loop on the shared state `h`, with the
      sinks whose send fails given as `failed`. On an error nothing has
      changed; an STRP for an unknown id changes nothing and sends nothing;
      otherwise the list becomes `Apply` of the event, and the event is
      broadcast. */
  method ReadStdinStep(h: Hub, charset: seq<char>, input: seq<byte>, pos: nat, failed: set<SinkId>)
    returns (r: Result<nat, Fatal>)
    modifies h
    ensures ParseMessage(charset, input, pos).Failure? ==>
              r == Failure(ParseMessage(charset, input, pos).error)
              && h.tweeps == old(h.tweeps) && h.sinks == old(h.sinks) && h.outbox == old(h.outbox)
    ensures ParseMessage(charset, input, pos).Success? ==>
              var (e, q) := ParseMessage(charset, input, pos).value;
              && r == Success(q)
              && (Apply(old(h.tweeps), e).None? ==>
                    h.tweeps == old(h.tweeps) && h.sinks == old(h.sinks) && h.outbox == old(h.outbox))
              && (Apply(old(h.tweeps), e).Some? ==>
                    && h.tweeps == Apply(old(h.tweeps), e).value
                    && h.sinks == Surviving(old(h.sinks), failed)
                    && h.outbox == old(h.outbox) + Deliver(Surviving(old(h.sinks), failed), e))
  {
    if pos + 4 > |input| {
      return Failure(Io(UnexpectedEof));
    }
    var next: Event;
    var q: nat;
    var tag := U32At(input, pos);
    if tag == ClearTag {
      h.tweeps := [];
      next, q := Clear, pos + 4;
    } else if tag == TweepTag {
      var t := ReadTweep(charset, input, pos + 4);
      if t.Failure? {
        return Failure(Io(t.error));
      }
      next, q := NewTweep(t.value.0), t.value.1;
      h.tweeps := h.tweeps + [t.value.0];
    } else if tag == SetReplyPossibleTag {
      if pos + 8 > |input| {
        return Failure(Io(UnexpectedEof));
      }
      var id := U32At(input, pos + 4);
      if pos + 10 > |input| {
        return Failure(Io(UnexpectedEof));
      }
      var possible := U16At(input, pos + 8) != 0;
      var found := FindTweep(h.tweeps, id);
      if found.None? {
        return Success(pos + 10);
      }
      var i := found.value;
      h.tweeps := h.tweeps[i := h.tweeps[i].(replyPossible := possible)];
      next, q := SetReplyPossible(id, possible), pos + 10;
    } else {
      return Failure(Desync);
    }
    h.Broadcast(next, failed);
    r := Success(q);
  }

  // ---------------------------------------------------------------------------
  // The messages as the game writes them.

  /** A message before encoding; the STRP flag is the raw 16-bit field. */
  datatype Command = ClearCmd | TweepCmd(rec: TweepRecord) | SetReplyPossibleCmd(id: u32, possible: u16)

  predicate ValidCommand(charset: seq<char>, c: Command)
  {
    c.TweepCmd? ==> ValidRecord(charset, c.rec)
  }

  function EncodeMessage(charset: seq<char>, c: Command): seq<byte>
    requires ValidCommand(charset, c)
  {
    match c
    case ClearCmd => LE32(ClearTag)
    case TweepCmd(rec) => LE32(TweepTag) + EncodeTweep(charset, rec)
    case SetReplyPossibleCmd(id, possible) => LE32(SetReplyPossibleTag) + (LE32(id) + LE16(possible))
  }

  /** The event a command stands for. */
  function EventOf(charset: seq<char>, c: Command): Event
    requires ValidCommand(charset, c)
  {
    match c
    case ClearCmd => Clear
    case TweepCmd(rec) => NewTweep(TweepOf(charset, rec))
    case SetReplyPossibleCmd(id, possible) => SetReplyPossible(id, possible != 0)
  }

  /** Reading a message where its bytes stand recovers the event it stands
      for, and the read ends just past it. */
  lemma ParseEncodeMessage(charset: seq<char>, c: Command, input: seq<byte>, pos: nat)
    requires ValidCommand(charset, c)
    requires pos + |EncodeMessage(charset, c)| <= |input|
    requires input[pos..pos + |EncodeMessage(charset, c)|] == EncodeMessage(charset, c)
    ensures ParseMessage(charset, input, pos) == Success((EventOf(charset, c), pos + |EncodeMessage(charset, c)|))
  {
    match c
    case ClearCmd =>
      U32AtLE32(input, pos, ClearTag);
    case TweepCmd(rec) =>
      assert EncodeMessage(charset, c) == LE32(TweepTag) + EncodeTweep(charset, rec);
      ParseTweepMessage(charset, rec, input, pos);
    case SetReplyPossibleCmd(id, possible) =>
      assert EncodeMessage(charset, c) == LE32(SetReplyPossibleTag) + (LE32(id) + LE16(possible));
      ParseSetReplyPossibleMessage(id, possible, input, pos);
  }

  lemma ParseTweepMessage(charset: seq<char>, rec: TweepRecord, input: seq<byte>, pos: nat)
    requires ValidRecord(charset, rec)
    requires pos + 4 + |EncodeTweep(charset, rec)| <= |input|
    requires input[pos..pos + 4 + |EncodeTweep(charset, rec)|] == LE32(TweepTag) + EncodeTweep(charset, rec)
    ensures ParseMessage(charset, input, pos)
            == Success((NewTweep(TweepOf(charset, rec)), pos + 4 + |EncodeTweep(charset, rec)|))
  {
    SliceSplit(input, pos, LE32(TweepTag), EncodeTweep(charset, rec));
    U32AtLE32(input, pos, TweepTag);
    DecodeTweepAt(charset, rec, input, pos + 4);
  }

  lemma ParseSetReplyPossibleMessage(id: u32, possible: u16, input: seq<byte>, pos: nat)
    requires pos + 10 <= |input|
    requires input[pos..pos + 10] == LE32(SetReplyPossibleTag) + (LE32(id) + LE16(possible))
    ensures forall charset :: ParseMessage(charset, input, pos) == Success((SetReplyPossible(id, possible != 0), pos + 10))
  {
    SliceSplit(input, pos, LE32(SetReplyPossibleTag), LE32(id) + LE16(possible));
    U32AtLE32(input, pos, SetReplyPossibleTag);
    SliceSplit(input, pos + 4, LE32(id), LE16(possible));
    U32AtLE32(input, pos + 4, id);
    U16AtLE16(input, pos + 8, possible);
  }
}
