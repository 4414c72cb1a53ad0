/** Uses of the player manager from the container's side, each showing one
    promise of the manager across several calls, with the looper turned by
    hand through `Elapse` and `Deliver`. */
module Scenarios {
  import opened HandlerQueue
  import opened Widget

  /** Attaching the same player twice: the second attach reports that it was
      already there, and the copy of the members holds it exactly once. */
  method AttachTwice<P(==)>(pm: PlayerManager<P>, p: P) returns (first: bool, second: bool, list: seq<P>)
    modifies pm`players
    ensures first <==> !old(pm.Manages(p))
    ensures !second
    ensures pm.players == old(pm.players) + {p}
    ensures p in list && forall i, j :: 0 <= i < j < |list| ==> list[i] != list[j]
  {
    first := pm.AttachPlayer(p);
    second := pm.AttachPlayer(p);
    list := pm.GetPlayers();
  }

  /** Turns the looper once per entry of `steps`, letting that much time pass
      before each turn. Delivery only ever makes players play, and while `p`
      has no deferred play, no turn makes `p` play, however much time
      passes. */
  method RunLooper<P(==)>(pm: PlayerManager<P>, p: P, steps: seq<nat>)
    requires pm.Valid() && PendingPlays(pm.queue, p) == 0
    modifies pm`queue, pm`calls, pm`now
    ensures pm.Valid() && PendingPlays(pm.queue, p) == 0
    ensures |pm.calls| >= |old(pm.calls)| && pm.calls[..|old(pm.calls)|] == old(pm.calls)
    ensures forall i :: |old(pm.calls)| <= i < |pm.calls| ==> pm.calls[i].PlayCall? && pm.calls[i] != PlayCall(p)
  {
    var k := 0;
    while k < |steps|
      invariant 0 <= k <= |steps|
      invariant pm.Valid() && PendingPlays(pm.queue, p) == 0
      invariant |pm.calls| >= |old(pm.calls)| && pm.calls[..|old(pm.calls)|] == old(pm.calls)
      invariant forall i :: |old(pm.calls)| <= i < |pm.calls| ==> pm.calls[i].PlayCall? && pm.calls[i] != PlayCall(p)
    {
      pm.Elapse(steps[k]);
      ghost var q := pm.queue;
      ghost var before := pm.calls;
      if q != [] {
        NoPendingPlayNeverPlays(q, p);
      }
      var delivered := pm.Deliver();
      assert pm.calls[..|before|] == before;
      k := k + 1;
    }
  }

  /** Playing twice with real delays keeps one deferred play, the one the
      second call posted. */
  method PlayTwice<P(==)>(pm: PlayerManager<P>, p: P, first: int, second: int)
    requires pm.Valid()
    requires first > pm.delayInfinite && first != pm.delayNone
    requires second > pm.delayInfinite && second != pm.delayNone && second >= 0
    modifies pm`queue, pm`calls
    ensures pm.Valid() && pm.calls == old(pm.calls)
    ensures PendingPlays(pm.queue, p) == 1
    ensures forall i :: 0 <= i < |pm.queue| && pm.queue[i].obj == Some(p) ==> pm.queue[i].due == pm.now + second
  {
    var o1 := pm.Play(p, first);
    ghost var q := pm.queue;
    var o2 := pm.Play(p, second);
    var d := Decide(second, pm.delayInfinite, pm.delayNone);
    assert d == After(second);
    PlayLeavesAtMostOne(q, p, d, pm.now);
    var m := Msg(MSG_PLAY, Some(p), pm.now + second);
    var k :| 0 <= k < |pm.queue| && pm.queue[k] == m;
    forall i | 0 <= i < |pm.queue| && pm.queue[i].obj == Some(p)
      ensures pm.queue[i].due == pm.now + second
    {
      assert pm.queue[i].obj == pm.queue[k].obj;
    }
  }

  /** Pausing a player after a deferred play cancels that play: the pause is
      made exactly once, and later turns of the looper never make the player
      play. */
  method PauseCancelsPlay<P(==)>(pm: PlayerManager<P>, p: P, delay: int, steps: seq<nat>)
    requires pm.Valid()
    requires delay > pm.delayInfinite && delay != pm.delayNone
    modifies pm`queue, pm`calls, pm`now
    ensures pm.Valid()
    ensures |pm.calls| > |old(pm.calls)| && pm.calls[..|old(pm.calls)| + 1] == old(pm.calls) + [PauseCall(p)]
    ensures forall i :: |old(pm.calls)| <= i < |pm.calls| ==> pm.calls[i] != PlayCall(p)
    ensures forall i :: |old(pm.calls)| < i < |pm.calls| ==> pm.calls[i] != PauseCall(p)
  {
    var o := pm.Play(p, delay);
    pm.Pause(p);
    CancelPlayer(old(pm.queue), p);
    assert PendingPlays(pm.queue, p) == 0 by {
      CountZero(pm.queue, PlayOf(p));
    }
    ghost var paused := pm.calls;
    RunLooper(pm, p, steps);
    assert pm.calls[..|paused|] == paused;
    assert pm.calls[..|old(pm.calls)| + 1] == paused[..|old(pm.calls)| + 1];
  }

  /** Scrolling cancels every deferred play, and coming to rest afterwards
      does not bring any back. */
  method ScrollThenIdle<P(==)>(pm: PlayerManager<P>, scrolling: int)
    requires pm.Valid() && scrolling != pm.scrollStateIdle
    modifies pm`queue
    ensures pm.Valid() && pm.queue == []
  {
    pm.OnContainerScrollStateChanged(scrolling);
    pm.OnContainerScrollStateChanged(pm.scrollStateIdle);
  }

  /** Releasing a player the manager does not hold reports failure and calls
      nothing on it, yet still flushes every deferred play. */
  method ReleaseUnmanaged<P(==)>(pm: PlayerManager<P>, p: P) returns (released: bool)
    requires !pm.Manages(p)
    modifies pm`queue, pm`calls
    ensures !released && pm.queue == [] && pm.calls == old(pm.calls)
    ensures pm.players == old(pm.players)
  {
    released := pm.Release(p);
  }

  /** Clearing twice leaves the manager as clearing once does. */
  method ClearTwice<P(==)>(pm: PlayerManager<P>) returns (list: seq<P>)
    modifies pm`queue, pm`players
    ensures pm.Valid() && pm.queue == [] && pm.players == {} && list == []
  {
    pm.Clear();
    pm.Clear();
    list := pm.GetPlayers();
  }

  /** A delay below "never" is refused before anything changes. */
  method RefusedPlay<P(==)>(pm: PlayerManager<P>, p: P, delay: int) returns (outcome: Outcome)
    requires pm.Valid() && delay < pm.delayInfinite
    modifies pm`queue, pm`calls
    ensures outcome.IllegalArgument?
    ensures pm.queue == old(pm.queue) && pm.calls == old(pm.calls)
  {
    outcome := pm.Play(p, delay);
  }

  /** Two players attached to a fresh manager, the first given a play
      deferred by 50 and the second played at once. The sentinels are any
      values for which 50 is an ordinary delay. */
  method DeferOneStartOther(delayInfinite: int, delayNone: int, idle: int) returns (pm: PlayerManager<int>)
    requires delayInfinite < delayNone && delayInfinite < 50 && delayNone != 50
    ensures fresh(pm) && pm.Valid()
    ensures pm.delayInfinite == delayInfinite && pm.delayNone == delayNone
    ensures pm.players == {1, 2} && pm.now == 0
    ensures pm.queue == [Msg(MSG_PLAY, Some(1), 50)] && pm.calls == [PlayCall(2)]
  {
    pm := new PlayerManager<int>(delayInfinite, delayNone, idle);
    var a1 := pm.AttachPlayer(1);
    var a2 := pm.AttachPlayer(2);
    var m := Msg(MSG_PLAY, Some(1), 50);
    assert Decide(50, delayInfinite, delayNone) == After(50);
    var o1 := pm.Play(1, 50);
    assert pm.queue == [m];
    assert Decide(delayNone, delayInfinite, delayNone) == Immediately;
    assert RemoveMatching([m], PlayOf(2)) == [m] by {
      assert [m][1..] == [];
    }
    var o2 := pm.Play(2, delayNone);
  }

  /** The second player has played at once; the first plays when, and not
      before, 50 has passed. */
  method DeferredPlaysWhenDue(delayInfinite: int, delayNone: int, idle: int)
    returns (pm: PlayerManager<int>, early: Option<Msg<int>>, due: Option<Msg<int>>)
    requires delayInfinite < delayNone && delayInfinite < 50 && delayNone != 50
    ensures early == None && due == Some(Msg(MSG_PLAY, Some(1), 50))
    ensures pm.now == 50 && pm.queue == [] && pm.calls == [PlayCall(2), PlayCall(1)]
  {
    pm := DeferOneStartOther(delayInfinite, delayNone, idle);
    pm.Elapse(49);
    early := pm.Deliver();
    assert pm.calls == [PlayCall(2)];
    pm.Elapse(1);
    due := pm.Deliver();
  }

  /** Pausing the first player before its 50 have passed: it is paused once
      and never plays, however the looper turns afterwards. */
  method PausedBeforeDue(delayInfinite: int, delayNone: int, idle: int, steps: seq<nat>)
    returns (pm: PlayerManager<int>)
    requires delayInfinite < delayNone && delayInfinite < 50 && delayNone != 50
    ensures |pm.calls| >= 2 && pm.calls[..2] == [PlayCall(2), PauseCall(1)]
    ensures forall i :: 0 <= i < |pm.calls| ==> pm.calls[i] != PlayCall(1)
    ensures forall i :: 2 <= i < |pm.calls| ==> pm.calls[i] != PauseCall(1)
  {
    pm := DeferOneStartOther(delayInfinite, delayNone, idle);
    pm.Elapse(20);
    var early := pm.Deliver();
    pm.Pause(1);
    assert pm.queue == [];
    assert pm.calls == [PlayCall(2), PauseCall(1)];
    RunLooper(pm, 1, steps);
  }
}
