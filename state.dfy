/** The state the game reader and the connections share: the list of tweeps
    received so far (`Tweeps` in src/game.rs) and the registry of WebSocket
    sinks that receive the broadcast events (`WriteStreams` in src/http.rs).
    A send is not observable in itself, so the model keeps an outbox: every
    send that succeeds appends one delivery to it. */
module State {
  import opened Wire
  import opened Tweeps

  /** Identity of one connection's write half. */
  type SinkId = nat

  /** The JSON events sent to the browser: `{"type": "clear"}`,
      `{"type": "tweep", …}` and `{"type": "set_reply_possible", …}`. */
  datatype Event = Clear | NewTweep(tweep: Tweep) | SetReplyPossible(tweepId: u32, possible: bool)

  /** `event` was sent to `sink`. */
  datatype Delivery = Delivery(sink: SinkId, event: Event)

  /** The registry after a pass that drops the sinks in `failed`: the other
      sinks, in their order. */
  function Surviving(sinks: seq<SinkId>, failed: set<SinkId>): seq<SinkId>
  {
    if sinks == [] then []
    else Surviving(sinks[..|sinks| - 1], failed)
         + (if sinks[|sinks| - 1] in failed then [] else [sinks[|sinks| - 1]])
  }

  /** One delivery of `e` to each of `sinks`, in order. */
  function Deliver(sinks: seq<SinkId>, e: Event): (r: seq<Delivery>)
    ensures |r| == |sinks|
  {
    if sinks == [] then [] else Deliver(sinks[..|sinks| - 1], e) + [Delivery(sinks[|sinks| - 1], e)]
  }

  /** The `i`-th delivery goes to the `i`-th sink. */
  lemma {:induction false} DeliverAt(sinks: seq<SinkId>, e: Event, i: nat)
    requires i < |sinks|
    ensures Deliver(sinks, e)[i] == Delivery(sinks[i], e)
  {
    if i < |sinks| - 1 {
      DeliverAt(sinks[..|sinks| - 1], e, i);
    }
  }

  /** A sink survives exactly when it was registered and its send did not fail. */
  lemma {:induction false} SurvivingMembers(sinks: seq<SinkId>, failed: set<SinkId>, x: SinkId)
    ensures x in Surviving(sinks, failed) <==> x in sinks && x !in failed
  {
    if sinks != [] {
      var init := sinks[..|sinks| - 1];
      SurvivingMembers(init, failed, x);
      assert sinks == init + [sinks[|sinks| - 1]];
    }
  }

  /** Pruning works piece by piece, so survivors keep their relative order. */
  lemma {:induction false} SurvivingAppend(a: seq<SinkId>, b: seq<SinkId>, failed: set<SinkId>)
    ensures Surviving(a + b, failed) == Surviving(a, failed) + Surviving(b, failed)
    decreases |b|
  {
    if b == [] {
      assert a + b == a;
    } else {
      var b' := b[..|b| - 1];
      assert (a + b)[..|a + b| - 1] == a + b';
      SurvivingAppend(a, b', failed);
    }
  }

  /** Pruning twice with the same failures changes nothing more. */
  lemma {:induction false} SurvivingIdempotent(sinks: seq<SinkId>, failed: set<SinkId>)
    ensures Surviving(Surviving(sinks, failed), failed) == Surviving(sinks, failed)
  {
    if sinks != [] {
      var init, last := sinks[..|sinks| - 1], sinks[|sinks| - 1];
      SurvivingIdempotent(init, failed);
      var tail := if last in failed then [] else [last];
      SurvivingAppend(Surviving(init, failed), tail, failed);
      if last !in failed {
        assert tail[..0] == [];
      }
    }
  }

  // ---------------------------------------------------------------------------
  // Removal by position, as `Vec::remove` does it.

  /** The elements of `s` at positions `lo..hi` that are not in `drop`. */
  function KeepRange(s: seq<SinkId>, drop: set<nat>, lo: nat, hi: nat): (r: seq<SinkId>)
    requires lo <= hi <= |s|
    ensures |r| <= hi - lo
    decreases hi
  {
    if hi == lo then [] else KeepRange(s, drop, lo, hi - 1) + (if hi - 1 in drop then [] else [s[hi - 1]])
  }

  lemma {:induction false} KeepRangeSplit(s: seq<SinkId>, drop: set<nat>, lo: nat, mid: nat, hi: nat)
    requires lo <= mid <= hi <= |s|
    ensures KeepRange(s, drop, lo, hi) == KeepRange(s, drop, lo, mid) + KeepRange(s, drop, mid, hi)
    decreases hi
  {
    if hi > mid {
      KeepRangeSplit(s, drop, lo, mid, hi - 1);
    }
  }

  /** Only the dropped positions inside the range matter. */
  lemma {:induction false} KeepRangeAgree(s: seq<SinkId>, d1: set<nat>, d2: set<nat>, lo: nat, hi: nat)
    requires lo <= hi <= |s|
    requires forall j :: lo <= j < hi ==> (j in d1 <==> j in d2)
    ensures KeepRange(s, d1, lo, hi) == KeepRange(s, d2, lo, hi)
    decreases hi
  {
    if hi > lo {
      KeepRangeAgree(s, d1, d2, lo, hi - 1);
    }
  }

  /** Nothing dropped below `hi`: the range is kept whole. */
  lemma {:induction false} KeepRangeWhole(s: seq<SinkId>, drop: set<nat>, hi: nat)
    requires hi <= |s|
    requires forall j :: 0 <= j < hi ==> j !in drop
    ensures KeepRange(s, drop, 0, hi) == s[..hi]
  {
    if hi > 0 {
      KeepRangeWhole(s, drop, hi - 1);
      assert s[..hi] == s[..hi - 1] + [s[hi - 1]];
    }
  }

  /** Removing position `p` from what is left after dropping only positions
      above `p` is the same as dropping `p` as well. */
  lemma RemoveBelow(s: seq<SinkId>, drop: set<nat>, p: nat)
    requires p < |s| && p !in drop
    requires forall d :: d in drop ==> d > p
    ensures var k := KeepRange(s, drop, 0, |s|);
            p < |k| && k[..p] + k[p + 1..] == KeepRange(s, drop + {p}, 0, |s|)
  {
    var tail := KeepRange(s, drop, p + 1, |s|);
    KeptAround(s, drop, p, true);
    KeptAround(s, drop + {p}, p, false);
    KeepRangeAgree(s, drop, drop + {p}, p + 1, |s|);
    RemoveMiddle(s[..p], s[p], tail);
  }

  /** What is kept of `s` around position `p` when nothing below it is dropped. */
  lemma KeptAround(s: seq<SinkId>, drop: set<nat>, p: nat, kept: bool)
    requires p < |s| && (p in drop <==> !kept)
    requires forall d :: d in drop && d != p ==> d > p
    ensures KeepRange(s, drop, 0, |s|)
            == s[..p] + (if kept then [s[p]] else []) + KeepRange(s, drop, p + 1, |s|)
  {
    KeepRangeSplit(s, drop, 0, p, |s|);
    KeepRangeSplit(s, drop, p, p + 1, |s|);
    KeepRangeWhole(s, drop, p);
    var mid := KeepRange(s, drop, p, p + 1);
    assert mid == (if kept then [s[p]] else []);
    assert s[..p] + (mid + KeepRange(s, drop, p + 1, |s|)) == s[..p] + mid + KeepRange(s, drop, p + 1, |s|);
  }

  lemma RemoveMiddle(a: seq<SinkId>, x: SinkId, b: seq<SinkId>)
    ensures var k := a + [x] + b;
            k[..|a|] + k[|a| + 1..] == a + [] + b
  {
    var k := a + [x] + b;
    assert k[..|a|] == a;
    assert k[|a| + 1..] == b;
  }

  /** One turn of the removal loop: with the positions `xs[k..]` already
      gone, removing at `xs[k - 1]` drops that position as well. */
  lemma RemoveStep(s: seq<SinkId>, xs: seq<nat>, k: nat)
    requires Ascending(xs) && 0 < k <= |xs|
    requires forall a :: 0 <= a < |xs| ==> xs[a] < |s|
    ensures var left, p := KeepRange(s, Positions(xs[k..]), 0, |s|), xs[k - 1];
            p < |left| && left[..p] + left[p + 1..] == KeepRange(s, Positions(xs[k - 1..]), 0, |s|)
  {
    var p := xs[k - 1];
    var above := Positions(xs[k..]);
    forall d | d in above
      ensures d > p
    {
      assert d in xs[k..];
      var a :| k <= a < |xs| && xs[a] == d;
    }
    assert p !in above;
    RemoveBelow(s, above, p);
    assert xs[k - 1..] == [p] + xs[k..];
    assert Positions(xs[k - 1..]) == above + {p};
  }

  /** The positions of `s` below `n` whose sink failed. */
  function FailedPositions(s: seq<SinkId>, failed: set<SinkId>, n: nat): set<nat>
    requires n <= |s|
  {
    set j | 0 <= j < n && s[j] in failed
  }

  /** Dropping the failed positions is pruning the failed sinks. */
  lemma {:induction false} KeepFailedIsSurviving(s: seq<SinkId>, failed: set<SinkId>, n: nat)
    requires n <= |s|
    ensures KeepRange(s, FailedPositions(s, failed, |s|), 0, n) == Surviving(s[..n], failed)
  {
    if n > 0 {
      KeepFailedIsSurviving(s, failed, n - 1);
      assert s[..n][..n - 1] == s[..n - 1];
    }
  }

  lemma SurvivingStep(s: seq<SinkId>, failed: set<SinkId>, i: nat)
    requires i < |s|
    ensures Surviving(s[..i + 1], failed) == Surviving(s[..i], failed) + (if s[i] in failed then [] else [s[i]])
  {
    assert s[..i + 1][..i] == s[..i];
  }

  lemma FailedPositionsStep(s: seq<SinkId>, failed: set<SinkId>, i: nat)
    requires i < |s|
    ensures FailedPositions(s, failed, i + 1)
            == FailedPositions(s, failed, i) + (if s[i] in failed then {i} else {})
  {
  }

  /** The entries of `xs`, as a set. */
  function Positions(xs: seq<nat>): (r: set<nat>)
    ensures forall x :: x in r <==> x in xs
  {
    if xs == [] then {} else {xs[0]} + Positions(xs[1..])
  }

  lemma PositionsSnoc(xs: seq<nat>, x: nat)
    ensures Positions(xs + [x]) == Positions(xs) + {x}
  {
  }

  /** The positions of `s` below `n` whose sink failed, in ascending order. */
  function FailedIndices(s: seq<SinkId>, failed: set<SinkId>, n: nat): seq<nat>
    requires n <= |s|
  {
    if n == 0 then [] else FailedIndices(s, failed, n - 1) + (if s[n - 1] in failed then [n - 1] else [])
  }

  lemma FailedIndicesFacts(s: seq<SinkId>, failed: set<SinkId>, n: nat)
    requires n <= |s|
    ensures var xs := FailedIndices(s, failed, n);
            && Ascending(xs)
            && (forall a :: 0 <= a < |xs| ==> xs[a] < n)
            && Positions(xs) == FailedPositions(s, failed, n)
  {
    FailedIndicesAscending(s, failed, n);
    FailedIndicesPositions(s, failed, n);
  }

  lemma {:induction false} FailedIndicesAscending(s: seq<SinkId>, failed: set<SinkId>, n: nat)
    requires n <= |s|
    ensures var xs := FailedIndices(s, failed, n);
            Ascending(xs) && forall a :: 0 <= a < |xs| ==> xs[a] < n
  {
    if n > 0 {
      var xs := FailedIndices(s, failed, n - 1);
      FailedIndicesAscending(s, failed, n - 1);
      if s[n - 1] in failed {
        AscendingSnoc(xs, n - 1);
      } else {
        assert FailedIndices(s, failed, n) == xs;
      }
    }
  }

  lemma {:induction false} FailedIndicesPositions(s: seq<SinkId>, failed: set<SinkId>, n: nat)
    requires n <= |s|
    ensures Positions(FailedIndices(s, failed, n)) == FailedPositions(s, failed, n)
  {
    if n > 0 {
      var xs := FailedIndices(s, failed, n - 1);
      FailedIndicesPositions(s, failed, n - 1);
      FailedPositionsStep(s, failed, n - 1);
      if s[n - 1] in failed {
        PositionsSnoc(xs, n - 1);
      } else {
        assert FailedIndices(s, failed, n) == xs;
      }
    }
  }

  /** What one more sink adds to the survivors' deliveries and to the
      collected positions. */
  lemma SendStep(s: seq<SinkId>, failed: set<SinkId>, i: nat, e: Event)
    requires i < |s|
    ensures s[i] in failed ==>
              && FailedIndices(s, failed, i + 1) == FailedIndices(s, failed, i) + [i]
              && Deliver(Surviving(s[..i + 1], failed), e) == Deliver(Surviving(s[..i], failed), e)
    ensures s[i] !in failed ==>
              && FailedIndices(s, failed, i + 1) == FailedIndices(s, failed, i)
              && Deliver(Surviving(s[..i + 1], failed), e)
                 == Deliver(Surviving(s[..i], failed), e) + [Delivery(s[i], e)]
  {
    SurvivingStep(s, failed, i);
    var sent := Surviving(s[..i], failed);
    if s[i] in failed {
      assert sent + [] == sent;
      assert FailedIndices(s, failed, i + 1) == FailedIndices(s, failed, i) + [i];
    } else {
      DeliverSnoc(sent, s[i], e);
      assert FailedIndices(s, failed, i) + [] == FailedIndices(s, failed, i);
    }
  }

  lemma DeliverSnoc(sinks: seq<SinkId>, x: SinkId, e: Event)
    ensures Deliver(sinks + [x], e) == Deliver(sinks, e) + [Delivery(x, e)]
  {
    assert (sinks + [x])[..|sinks|] == sinks;
  }

  lemma AscendingSnoc(xs: seq<nat>, x: nat)
    requires Ascending(xs)
    requires forall a :: 0 <= a < |xs| ==> xs[a] < x
    ensures Ascending(xs + [x])
  {
  }

  /** Earlier entries of an ascending sequence are smaller. */
  predicate Ascending(xs: seq<nat>)
  {
    forall a, b :: 0 <= a < b < |xs| ==> xs[a] < xs[b]
  }

  class Hub {
    /** The tweeps received from the game, in order of arrival. */
    var tweeps: seq<Tweep>
    /** The registered sinks, in order of registration. */
    var sinks: seq<SinkId>
    /** Every message sent so far, in order. */
    var outbox: seq<Delivery>

    constructor ()
      ensures tweeps == [] && sinks == [] && outbox == []
    {
      tweeps := [];
      sinks := [];
      outbox := [];
    }

    /** The broadcast-and-prune pass of `read_stdin`: send `e` to every sink,
        collect the positions whose send failed, then remove them from the
        back. The registry keeps exactly the sinks whose send succeeded, in
        their order, and each of them has received `e`. */
    method Broadcast(e: Event, failed: set<SinkId>)
      modifies this
      ensures sinks == Surviving(old(sinks), failed)
      ensures outbox == old(outbox) + Deliver(Surviving(old(sinks), failed), e)
      ensures tweeps == old(tweeps)
    {
      var s0 := sinks;
      var indexToRemove := SendAll(e, failed);
      FailedIndicesFacts(s0, failed, |s0|);
      RemoveDescending(indexToRemove);
      KeepFailedIsSurviving(s0, failed, |s0|);
      assert s0[..|s0|] == s0;
    }

    /** The first loop of the pass: one send per sink; the positions whose
        send failed, in ascending order. */
    method SendAll(e: Event, failed: set<SinkId>) returns (indexToRemove: seq<nat>)
      modifies this
      ensures indexToRemove == FailedIndices(sinks, failed, |sinks|)
      ensures outbox == old(outbox) + Deliver(Surviving(sinks, failed), e)
      ensures sinks == old(sinks) && tweeps == old(tweeps)
    {
      indexToRemove := [];
      var streams := sinks;
      var i: nat := 0;
      while i < |streams|
        invariant i <= |streams| && streams == sinks == old(sinks) && tweeps == old(tweeps)
        invariant indexToRemove == FailedIndices(streams, failed, i)
        invariant outbox == old(outbox) + Deliver(Surviving(streams[..i], failed), e)
      {
        SendStep(streams, failed, i, e);
        if streams[i] in failed {
          indexToRemove := indexToRemove + [i];
        } else {
          assert (old(outbox) + Deliver(Surviving(streams[..i], failed), e)) + [Delivery(streams[i], e)]
                 == old(outbox) + (Deliver(Surviving(streams[..i], failed), e) + [Delivery(streams[i], e)]);
          outbox := outbox + [Delivery(streams[i], e)];
        }
        i := i + 1;
      }
      assert streams[..|streams|] == streams;
    }

    /** The second loop of the pass: `Vec::remove` at each collected
        position, largest first, so that the smaller positions still point at
        the same sinks. */
    method RemoveDescending(indexToRemove: seq<nat>)
      requires Ascending(indexToRemove)
      requires forall a :: 0 <= a < |indexToRemove| ==> indexToRemove[a] < |sinks|
      modifies this
      ensures sinks == KeepRange(old(sinks), Positions(indexToRemove), 0, |old(sinks)|)
      ensures outbox == old(outbox) && tweeps == old(tweeps)
    {
      var s0 := sinks;
      var k := |indexToRemove|;
      KeepRangeWhole(s0, {}, |s0|);
      assert s0[..|s0|] == s0;
      assert indexToRemove[k..] == [];
      while k > 0
        invariant 0 <= k <= |indexToRemove|
        invariant sinks == KeepRange(s0, Positions(indexToRemove[k..]), 0, |s0|)
        invariant outbox == old(outbox) && tweeps == old(tweeps)
      {
        var p := indexToRemove[k - 1];
        RemoveStep(s0, indexToRemove, k);
        sinks := sinks[..p] + sinks[p + 1..];
        k := k - 1;
      }
      assert indexToRemove[0..] == indexToRemove;
    }
  }
}
