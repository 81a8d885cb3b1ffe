/** `handle_websocket` (src/http.rs): a new WebSocket client is first sent
    every tweep already on the list, in order, and only then registered as a
    sink for later broadcasts. After that each message it sends is a reply
    choice, which is checked against the tweep list and forwarded to the
    game as a 12-byte frame; the first bad message ends the session. */
module Session {
  import opened Wire
  import opened Tweeps
  import opened State
  import opened Game

  // ---------------------------------------------------------------------------
  // Joining: replay, then register.

  /** The deliveries that replay `ts` to `sink`, one per tweep, in order. */
  function Replayed(sink: SinkId, ts: seq<Tweep>): (r: seq<Delivery>)
    ensures |r| == |ts|
    ensures forall i :: 0 <= i < |ts| ==> r[i] == Delivery(sink, NewTweep(ts[i]))
  {
    if ts == [] then [] else [Delivery(sink, NewTweep(ts[0]))] + Replayed(sink, ts[1..])
  }

  lemma ReplayedSnoc(sink: SinkId, ts: seq<Tweep>, i: nat)
    requires i < |ts|
    ensures Replayed(sink, ts[..i + 1]) == Replayed(sink, ts[..i]) + [Delivery(sink, NewTweep(ts[i]))]
  {
    var a, b := Replayed(sink, ts[..i + 1]), Replayed(sink, ts[..i]) + [Delivery(sink, NewTweep(ts[i]))];
    assert forall k :: 0 <= k < |a| ==> a[k] == b[k];
  }

  /** How many tweeps the replay delivers: all of them, unless the send of
      tweep `firstFailure` fails. */
  function ReplayedCount(n: nat, firstFailure: Option<nat>): (r: nat)
    ensures r <= n
    ensures r < n <==> firstFailure.Some? && firstFailure.value < n
    ensures r < n ==> r == firstFailure.value
  {
    if firstFailure.Some? && firstFailure.value < n then firstFailure.value else n
  }

  /** The start of `handle_websocket` on the shared state `h`: each tweep is
      sent to `sink` in list order; `firstFailure` is the position of the
      first send that fails, if any, which ends the session before `sink`
      is registered. */
  method Join(h: Hub, sink: SinkId, firstFailure: Option<nat>) returns (joined: bool)
    modifies h
    ensures var sent := ReplayedCount(|old(h.tweeps)|, firstFailure);
            && (joined <==> sent == |old(h.tweeps)|)
            && h.outbox == old(h.outbox) + Replayed(sink, old(h.tweeps)[..sent])
            && h.sinks == (if joined then old(h.sinks) + [sink] else old(h.sinks))
            && h.tweeps == old(h.tweeps)
  {
    var i: nat := 0;
    while i < |h.tweeps|
      invariant i <= |h.tweeps|
      invariant firstFailure.Some? ==> firstFailure.value >= i
      invariant h.outbox == old(h.outbox) + Replayed(sink, h.tweeps[..i])
      invariant h.sinks == old(h.sinks) && h.tweeps == old(h.tweeps)
    {
      if firstFailure == Some(i) {
        return false;
      }
      ReplayedSnoc(sink, h.tweeps, i);
      h.outbox := h.outbox + [Delivery(sink, NewTweep(h.tweeps[i]))];
      i := i + 1;
    }
    assert h.tweeps[..i] == h.tweeps;
    h.sinks := h.sinks + [sink];
    return true;
  }

  /** Once registered, a sink whose send does not fail receives the next
      broadcast, after every sink registered before it. */
  lemma JoinedReceivesBroadcast(sinks: seq<SinkId>, sink: SinkId, failed: set<SinkId>, e: Event)
    requires sink !in failed
    ensures var d := Deliver(Surviving(sinks + [sink], failed), e);
            && |d| == |Surviving(sinks, failed)| + 1
            && d[|d| - 1] == Delivery(sink, e)
            && d[..|d| - 1] == Deliver(Surviving(sinks, failed), e)
  {
    SurvivingAppend(sinks, [sink], failed);
    assert Surviving([sink], failed) == [sink] by {
      assert [sink][..0] == [];
    }
    DeliverSnoc(Surviving(sinks, failed), sink, e);
  }

  // ---------------------------------------------------------------------------
  // Reply choices.

  /** The `TweepReply` a text message deserialises to. */
  datatype TweepReply = TweepReply(kind: string, tweepId: u32, replyId: u32)

  /** Why the reply loop ends early: a message that is not a readable text
      reply, or one of the three checks. */
  datatype ReplyError = Malformed | InvalidType | InvalidTweepId | InvalidReplyId

  const ReplyTag: u32 := 0x594c5052  // "RPLY"; on the wire 52 50 4C 59

  /** The frame the game receives: the tag, the tweep id, the reply index. */
  function ReplyFrame(tweepId: u32, replyId: u32): (r: seq<byte>)
    ensures |r| == 12
  {
    LE32(ReplyTag) + LE32(tweepId) + LE32(replyId)
  }

  /** The game's side: read a frame back. */
  function DecodeReplyFrame(frame: seq<byte>): Option<(u32, u32)>
  {
    if |frame| != 12 || U32At(frame, 0) != ReplyTag then None
    else Some((U32At(frame, 4), U32At(frame, 8)))
  }

  lemma DecodeReplyFrameRoundTrip(tweepId: u32, replyId: u32)
    ensures DecodeReplyFrame(ReplyFrame(tweepId, replyId)) == Some((tweepId, replyId))
  {
    var f := ReplyFrame(tweepId, replyId);
    SliceSplit(f, 0, LE32(ReplyTag) + LE32(tweepId), LE32(replyId));
    SliceSplit(f, 0, LE32(ReplyTag), LE32(tweepId));
    U32AtLE32(f, 0, ReplyTag);
    U32AtLE32(f, 4, tweepId);
    U32AtLE32(f, 8, replyId);
  }

  /** The reply names a tweep on the list (the first with that id) and one
      of its replies. */
  predicate Answerable(ts: seq<Tweep>, m: TweepReply)
  {
    exists j :: 0 <= j < |ts| && ts[j].id == m.tweepId && (forall k :: 0 <= k < j ==> ts[k].id != m.tweepId)
                && m.replyId < |ts[j].replies|
  }

  /** The three checks of the reply loop, in the source's order, and the
      frame forwarded when all pass. */
  function ValidateReply(ts: seq<Tweep>, m: TweepReply): (r: Result<seq<byte>, ReplyError>)
    ensures r.Success? <==> m.kind == "reply" && Answerable(ts, m)
    ensures r.Success? ==> r.value == ReplyFrame(m.tweepId, m.replyId)
    ensures r == Failure(InvalidType) <==> m.kind != "reply"
    ensures r == Failure(InvalidTweepId) <==> m.kind == "reply" && forall j :: 0 <= j < |ts| ==> ts[j].id != m.tweepId
    ensures r.Failure? ==> r.error != Malformed
  {
    if m.kind != "reply" then Failure(InvalidType)
    else match FirstIndex(ts, m.tweepId)
      case None => Failure(InvalidTweepId)
      case Some(i) =>
        if m.replyId >= |ts[i].replies| then
          assert forall j :: 0 <= j < |ts| && ts[j].id == m.tweepId && (forall k :: 0 <= k < j ==> ts[k].id != m.tweepId)
                        ==> j == i;
          Failure(InvalidReplyId)
        else
          Success(ReplyFrame(m.tweepId, m.replyId))
  }

  /** A message gets through: it is a readable reply and passes the checks. */
  predicate Accepts(ts: seq<Tweep>, msg: Option<TweepReply>)
  {
    msg.Some? && ValidateReply(ts, msg.value).Success?
  }

  /** The number of messages the loop forwards before it stops. */
  function AcceptedCount(ts: seq<Tweep>, inbound: seq<Option<TweepReply>>): (r: nat)
    ensures r <= |inbound|
    ensures forall k :: 0 <= k < r ==> Accepts(ts, inbound[k])
    ensures r < |inbound| ==> !Accepts(ts, inbound[r])
  {
    if inbound == [] || !Accepts(ts, inbound[0]) then 0
    else 1 + AcceptedCount(ts, inbound[1..])
  }

  /** The frames for a run of accepted messages, in order. */
  function Frames(ms: seq<TweepReply>): (r: seq<byte>)
    ensures |r| == 12 * |ms|
  {
    if ms == [] then [] else Frames(ms[..|ms| - 1]) + ReplyFrame(ms[|ms| - 1].tweepId, ms[|ms| - 1].replyId)
  }

  /** The replies carried by the first `n` messages. */
  function Replies(inbound: seq<Option<TweepReply>>, n: nat): (r: seq<TweepReply>)
    requires n <= |inbound|
    requires forall k :: 0 <= k < n ==> inbound[k].Some?
    ensures |r| == n
    ensures forall k :: 0 <= k < n ==> r[k] == inbound[k].value
  {
    if n == 0 then [] else Replies(inbound, n - 1) + [inbound[n - 1].value]
  }

  /** The reply loop after registration, with `inbound` the messages the
      client sends; `None` stands for a message that fails to arrive, whose
      payload is not UTF-8, or that does not deserialise to a `TweepReply`. It writes one frame
      per accepted message and stops at the first message that is not
      accepted, reporting why; at the end of the stream it reports nothing. */
  method ServeReplies(ts: seq<Tweep>, inbound: seq<Option<TweepReply>>)
    returns (written: seq<byte>, stopped: Option<ReplyError>)
    ensures var n := AcceptedCount(ts, inbound);
            && written == Frames(Replies(inbound, n))
            && (stopped.None? <==> n == |inbound|)
            && (n < |inbound| ==>
                  stopped == Some(if inbound[n].None? then Malformed else ValidateReply(ts, inbound[n].value).error))
  {
    ghost var n := AcceptedCount(ts, inbound);
    written := [];
    var i := 0;
    while i < |inbound|
      invariant i <= n
      invariant written == Frames(Replies(inbound, i))
    {
      var msg := inbound[i];
      if msg.None? {
        assert !Accepts(ts, inbound[i]);
        assert i == n;
        return written, Some(Malformed);
      }
      var checked := ValidateReply(ts, msg.value);
      if checked.Failure? {
        assert !Accepts(ts, inbound[i]);
        assert i == n;
        return written, Some(checked.error);
      }
      assert i < n by {
        assert Accepts(ts, inbound[i]);
      }
      ReplySnoc(inbound, i);
      written := written + checked.value;
      i := i + 1;
    }
    return written, None;
  }

  lemma ReplySnoc(inbound: seq<Option<TweepReply>>, i: nat)
    requires i < |inbound|
    requires forall k :: 0 <= k <= i ==> inbound[k].Some?
    ensures Frames(Replies(inbound, i + 1))
         == Frames(Replies(inbound, i)) + ReplyFrame(inbound[i].value.tweepId, inbound[i].value.replyId)
  {
    assert Replies(inbound, i + 1)[..i] == Replies(inbound, i);
  }

  /** Every frame the loop writes reads back, in order, as the tweep id and
      reply index of the message it came from. */
  lemma {:induction false} FramesDecode(ms: seq<TweepReply>, k: nat)
    requires k < |ms|
    ensures 12 * k + 12 <= |Frames(ms)|
    ensures DecodeReplyFrame(Frames(ms)[12 * k..12 * k + 12]) == Some((ms[k].tweepId, ms[k].replyId))
  {
    var init := ms[..|ms| - 1];
    var last := ReplyFrame(ms[|ms| - 1].tweepId, ms[|ms| - 1].replyId);
    assert Frames(ms) == Frames(init) + last;
    if k == |ms| - 1 {
      assert Frames(ms)[12 * k..12 * k + 12] == last;
      DecodeReplyFrameRoundTrip(ms[k].tweepId, ms[k].replyId);
    } else {
      FramesDecode(init, k);
      assert Frames(ms)[12 * k..12 * k + 12] == Frames(init)[12 * k..12 * k + 12];
      assert init[k] == ms[k];
    }
  }

  /** Each forwarded frame names a tweep on the list and one of its replies. */
  lemma ForwardedAreAnswerable(ts: seq<Tweep>, inbound: seq<Option<TweepReply>>, k: nat)
    requires k < AcceptedCount(ts, inbound)
    ensures var ms := Replies(inbound, AcceptedCount(ts, inbound));
            && DecodeReplyFrame(Frames(ms)[12 * k..12 * k + 12]) == Some((ms[k].tweepId, ms[k].replyId))
            && ms[k].kind == "reply" && Answerable(ts, ms[k])
  {
    var ms := Replies(inbound, AcceptedCount(ts, inbound));
    FramesDecode(ms, k);
    assert Accepts(ts, inbound[k]);
  }
}
