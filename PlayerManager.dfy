/** The player manager of one container: the set of players it manages and
    the handler queue of deferred "play" messages it posts to itself, with
    the cancellation each operation performs. Players are opaque values
    compared by equality; what the manager asks of them (play, pause,
    release) is recorded in a ghost log. */
module Widget {
  import opened HandlerQueue

  /** The `what` code of a deferred play message. */
  const MSG_PLAY: int := 100

  /** A call the manager makes on a player. */
  datatype PlayerCall<P> = PlayCall(player: P) | PauseCall(player: P) | ReleaseCall(player: P)

  /** How `Play` ends: normally, or by throwing an IllegalArgumentException. */
  datatype Outcome = Completed | IllegalArgument(message: string)

  /** The selector of `removeMessages(MSG_PLAY, p)`. */
  function PlayOf<P>(p: P): Selector<P> {
    WhatAndObj(MSG_PLAY, p)
  }

  /** How many deferred plays for `p` are waiting in `q`. */
  function PendingPlays<P(==)>(q: seq<Msg<P>>, p: P): nat {
    CountMatching(q, PlayOf(p))
  }

  /** What the handler does with a delivered message: a play message that
      carries a player makes that player play; anything else is ignored. */
  function HandleMessage<P>(m: Msg<P>): (r: seq<PlayerCall<P>>)
    ensures m.what == MSG_PLAY && m.obj.Some? ==> r == [PlayCall(m.obj.value)]
    ensures !(m.what == MSG_PLAY && m.obj.Some?) ==> r == []
  {
    if !m.obj.Some? then []
    else if m.what == MSG_PLAY then [PlayCall(m.obj.value)]
    else []
  }

  /** The queue the manager keeps: in due order, holding only play messages
      that carry a player, and no two for the same player. */
  ghost predicate WellFormed<P>(q: seq<Msg<P>>) {
    && Sorted(q)
    && (forall i :: 0 <= i < |q| ==> q[i].what == MSG_PLAY && q[i].obj.Some?)
    && DistinctObjs(q)
  }

  /** Delivering the head of a well-formed queue leaves a well-formed queue. */
  lemma DropHeadKeepsWellFormed<P>(q: seq<Msg<P>>)
    requires WellFormed(q) && q != []
    ensures WellFormed(q[1..])
  {
  }

  /** In a well-formed queue no player has two deferred plays. */
  lemma {:induction false} AtMostOnePending<P>(q: seq<Msg<P>>, p: P)
    requires WellFormed(q)
    ensures PendingPlays(q, p) <= 1
  {
    if q != [] {
      DropHeadKeepsWellFormed(q);
      AtMostOnePending(q[1..], p);
      if Matches(PlayOf(p), q[0]) {
        CountZero(q[1..], PlayOf(p));
        assert forall i :: 0 <= i < |q| - 1 ==> q[1..][i] == q[i + 1];
      }
    }
  }

  /** Every removal keeps the queue well formed. */
  lemma RemoveKeepsWellFormed<P>(q: seq<Msg<P>>, sel: Selector<P>)
    requires WellFormed(q)
    ensures WellFormed(RemoveMatching(q, sel))
  {
    var r := RemoveMatching(q, sel);
    RemoveSorted(q, sel);
    RemoveDistinct(q, sel);
    forall i | 0 <= i < |r| ensures r[i].what == MSG_PLAY && r[i].obj.Some? {
      var j := RemoveFrom(q, sel, i);
    }
  }

  /** `removeMessages(MSG_PLAY, p)` leaves no deferred play for `p` and the
      deferred plays of every other player as they were. */
  lemma CancelPlay<P>(q: seq<Msg<P>>, p: P, r: P)
    ensures PendingPlays(RemoveMatching(q, PlayOf(p)), r) == if r == p then 0 else PendingPlays(q, r)
  {
    if r == p {
      RemoveCovered(q, PlayOf(p), PlayOf(p));
    } else {
      CountRemoveDisjoint(q, PlayOf(p), PlayOf(r));
    }
  }

  /** Posting a play for `p` adds one deferred play for `p` and none for
      any other player. */
  lemma ScheduleCount<P>(q: seq<Msg<P>>, p: P, due: int, r: P)
    ensures PendingPlays(Enqueue(q, Msg(MSG_PLAY, Some(p), due)), r)
            == PendingPlays(q, r) + if r == p then 1 else 0
  {
    CountEnqueue(q, Msg(MSG_PLAY, Some(p), due), PlayOf(r));
  }

  /** Posting a play for `p` into a queue with none for it keeps the queue
      well formed. */
  lemma SchedulePlay<P>(q: seq<Msg<P>>, p: P, due: int)
    requires WellFormed(q) && PendingPlays(q, p) == 0
    ensures WellFormed(Enqueue(q, Msg(MSG_PLAY, Some(p), due)))
  {
    var m := Msg(MSG_PLAY, Some(p), due);
    CountZero(q, PlayOf(p));
    EnqueueSorted(q, m);
    EnqueueDistinct(q, m);
  }

  /** `removeCallbacksAndMessages(p)` leaves nothing queued for `p`. */
  lemma CancelPlayer<P>(q: seq<Msg<P>>, p: P)
    ensures forall i :: 0 <= i < |RemoveMatching(q, ObjOnly(p))| ==> RemoveMatching(q, ObjOnly(p))[i].obj != Some(p)
    ensures PendingPlays(RemoveMatching(q, ObjOnly(p)), p) == 0
  {
    RemoveCovered(q, ObjOnly(p), PlayOf(p));
  }

  /** In the manager's queue every message is a play, so
      `removeMessages(MSG_PLAY)` empties it. */
  lemma CancelAllPlaysEmpties<P>(q: seq<Msg<P>>)
    requires WellFormed(q)
    ensures RemoveMatching(q, WhatOnly(MSG_PLAY)) == []
  {
  }

  /** A queue with no deferred play for `p` holds no message whose delivery
      makes `p` play. */
  lemma NoPendingPlayNeverPlays<P>(q: seq<Msg<P>>, p: P)
    requires PendingPlays(q, p) == 0
    ensures forall i :: 0 <= i < |q| ==> PlayCall(p) !in HandleMessage(q[i])
  {
    CountZero(q, PlayOf(p));
  }

  /** What `play` does with the delay the policy gave it. */
  datatype Decision = Invalid | Never | Immediately | After(ms: nat)

  /** Classifies a delay against the policy's sentinels. A delay below
      "never" is invalid; "never" is tested before "play now"; any other
      delay schedules a play, a negative one with no wait, as
      `Handler.sendMessageDelayed` treats a negative delay as zero. */
  function Decide(delay: int, delayInfinite: int, delayNone: int): Decision {
    if delay < delayInfinite then Invalid
    else if delay == delayInfinite then Never
    else if delay == delayNone then Immediately
    else After(if delay < 0 then 0 else delay)
  }

  /** The queue after `play(p)` decided `d` at time `now`: an invalid delay
      throws before touching it; otherwise every deferred play for `p` is
      removed and, for a real delay, one new play is posted. */
  function PlayQueue<P(==)>(q: seq<Msg<P>>, p: P, d: Decision, now: int): seq<Msg<P>> {
    if d == Invalid then q
    else if d.After? then Enqueue(RemoveMatching(q, PlayOf(p)), Msg(MSG_PLAY, Some(p), now + d.ms))
    else RemoveMatching(q, PlayOf(p))
  }

  /** The player calls `play(p)` makes at once. */
  function PlayCalls<P>(p: P, d: Decision): seq<PlayerCall<P>> {
    if d == Immediately then [PlayCall(p)] else []
  }

  /** The delay classification covers the four cases of `play` exactly. */
  lemma DecideCases(delay: int, delayInfinite: int, delayNone: int)
    ensures Decide(delay, delayInfinite, delayNone) == Invalid <==> delay < delayInfinite
    ensures Decide(delay, delayInfinite, delayNone) == Never <==> delay == delayInfinite
    ensures Decide(delay, delayInfinite, delayNone) == Immediately <==> delay == delayNone && delay > delayInfinite
    ensures Decide(delay, delayInfinite, delayNone).After? ==>
      delay > delayInfinite && delay != delayNone && Decide(delay, delayInfinite, delayNone).ms == if delay < 0 then 0 else delay
  {
  }

  /** After `play(p)` the queue is still well formed. */
  lemma PlayKeepsWellFormed<P>(q: seq<Msg<P>>, p: P, d: Decision, now: int)
    requires WellFormed(q)
    ensures WellFormed(PlayQueue(q, p, d, now))
  {
    if d != Invalid {
      var cancelled := RemoveMatching(q, PlayOf(p));
      CancelPlay(q, p, p);
      RemoveKeepsWellFormed(q, PlayOf(p));
      if d.After? {
        SchedulePlay(cancelled, p, now + d.ms);
        assert PlayQueue(q, p, d, now) == Enqueue(cancelled, Msg(MSG_PLAY, Some(p), now + d.ms));
      } else {
        assert PlayQueue(q, p, d, now) == cancelled;
      }
    }
  }

  /** After a valid `play(p)`, `p` has at most one deferred play: none when
      the play was dropped or done at once, one due `d.ms` from now when it
      was deferred. */
  lemma PlayLeavesAtMostOne<P>(q: seq<Msg<P>>, p: P, d: Decision, now: int)
    requires d != Invalid
    ensures PendingPlays(PlayQueue(q, p, d, now), p) == if d.After? then 1 else 0
    ensures d.After? ==> Msg(MSG_PLAY, Some(p), now + d.ms) in PlayQueue(q, p, d, now)
  {
    var cancelled := RemoveMatching(q, PlayOf(p));
    CancelPlay(q, p, p);
    if d.After? {
      ScheduleCount(cancelled, p, now + d.ms, p);
      var k := Slot(cancelled, now + d.ms);
      assert PlayQueue(q, p, d, now)[k] == Msg(MSG_PLAY, Some(p), now + d.ms);
    }
  }

  /** `play(p)` leaves every other player's deferred plays as they were. */
  lemma PlayLeavesOthers<P>(q: seq<Msg<P>>, p: P, d: Decision, now: int, r: P)
    requires r != p
    ensures PendingPlays(PlayQueue(q, p, d, now), r) == PendingPlays(q, r)
  {
    if d != Invalid {
      CancelPlay(q, p, r);
      if d.After? {
        ScheduleCount(RemoveMatching(q, PlayOf(p)), p, now + d.ms, r);
      }
    }
  }

  /** `play(p)` leaves every message not carrying `p` in the queue exactly
      as often as before: other players' deferred plays keep their due
      times. */
  lemma PlayKeepsOtherMsgs<P>(q: seq<Msg<P>>, p: P, d: Decision, now: int, m: Msg<P>)
    requires m.obj != Some(p)
    ensures multiset(PlayQueue(q, p, d, now))[m] == multiset(q)[m]
  {
    if d != Invalid {
      RemoveMultiset(q, PlayOf(p), m);
      if d.After? {
        EnqueueMultiset(RemoveMatching(q, PlayOf(p)), Msg(MSG_PLAY, Some(p), now + d.ms));
      }
    }
  }

  class PlayerManager<P(==)> {
    /** The delay policy's "never play" and "play now" sentinels. */
    const delayInfinite: int
    const delayNone: int
    /** The container's idle scroll state. */
    const scrollStateIdle: int

    var players: set<P>
    var queue: seq<Msg<P>>
    /** The looper's clock. */
    var now: int
    ghost var calls: seq<PlayerCall<P>>

    ghost predicate Valid()
      reads this
    {
      WellFormed(queue)
    }

    predicate Manages(p: P): (b: bool)
      reads this
      ensures b <==> p in players
    {
      p in players
    }

    constructor (delayInfinite: int, delayNone: int, scrollStateIdle: int)
      ensures Valid()
      ensures this.delayInfinite == delayInfinite && this.delayNone == delayNone
      ensures this.scrollStateIdle == scrollStateIdle
      ensures players == {} && queue == [] && now == 0 && calls == []
    {
      this.delayInfinite := delayInfinite;
      this.delayNone := delayNone;
      this.scrollStateIdle := scrollStateIdle;
      players := {};
      queue := [];
      now := 0;
      calls := [];
    }

    method AttachPlayer(p: P) returns (added: bool)
      modifies this`players
      ensures added <==> !old(Manages(p))
      ensures Manages(p) && players == old(players) + {p}
      ensures queue == old(queue) && calls == old(calls)
    {
      added := p !in players;
      players := players + {p};
    }

    method DetachPlayer(p: P) returns (removed: bool)
      modifies this`players
      ensures removed <==> old(Manages(p))
      ensures !Manages(p) && players == old(players) - {p}
      ensures queue == old(queue) && calls == old(calls)
    {
      removed := p in players;
      players := players - {p};
    }

    /** A copy of the managed players, each once, in some order. */
    method GetPlayers() returns (list: seq<P>)
      ensures forall x :: x in list <==> Manages(x)
      ensures |list| == |players|
      ensures forall i, j :: 0 <= i < j < |list| ==> list[i] != list[j]
    {
      list := [];
      var rest := players;
      while rest != {}
        invariant rest <= players
        invariant forall x :: x in list <==> x in players && x !in rest
        invariant |list| + |rest| == |players|
        invariant forall i, j :: 0 <= i < j < |list| ==> list[i] != list[j]
        decreases rest
      {
        var x :| x in rest;
        list := list + [x];
        rest := rest - {x};
      }
    }

    /** `handler.removeMessages(...)` and `handler.removeCallbacksAndMessages(obj)`:
        the messages the selector matches leave the queue. */
    method RemoveMessages(sel: Selector<P>)
      requires Valid()
      modifies this`queue
      ensures Valid()
      ensures queue == RemoveMatching(old(queue), sel)
    {
      RemoveKeepsWellFormed(queue, sel);
      queue := RemoveMatching(queue, sel);
    }

    /** `handler.removeCallbacksAndMessages(null)`: the queue is emptied. */
    method RemoveAllMessages()
      modifies this`queue
      ensures Valid()
      ensures queue == []
    {
      queue := [];
    }

    /** `handler.sendMessageDelayed(handler.obtainMessage(MSG_PLAY, p), delay)`:
        a play message for `p` is posted, due `delay` after now; the handler
        treats a negative delay as none. */
    method SendPlayDelayed(p: P, delay: int)
      requires Valid() && PendingPlays(queue, p) == 0
      modifies this`queue
      ensures Valid()
      ensures queue == Enqueue(old(queue), Msg(MSG_PLAY, Some(p), now + if delay < 0 then 0 else delay))
    {
      SchedulePlay(queue, p, now + if delay < 0 then 0 else delay);
      queue := Enqueue(queue, Msg(MSG_PLAY, Some(p), now + if delay < 0 then 0 else delay));
    }

    /** Plays `p` after `delay`, the answer the delay policy gives for it:
        a delay below "never" is refused, every deferred play for `p` is
        cancelled, and then `p` is left alone, played at once, or given a
        new deferred play. */
    method Play(p: P, delay: int) returns (outcome: Outcome)
      requires Valid()
      modifies this`queue, this`calls
      ensures Valid()
      ensures outcome == if delay < delayInfinite then IllegalArgument("Too negative") else Completed
      ensures queue == PlayQueue(old(queue), p, Decide(delay, delayInfinite, delayNone), now)
      ensures calls == old(calls) + PlayCalls(p, Decide(delay, delayInfinite, delayNone))
    {
      ghost var d := Decide(delay, delayInfinite, delayNone);
      DecideCases(delay, delayInfinite, delayNone);
      if delay < delayInfinite {
        return IllegalArgument("Too negative");
      }
      CancelPlay(queue, p, p);
      RemoveMessages(PlayOf(p));
      if delay == delayInfinite {
        // the play is dropped
      } else if delay == delayNone {
        calls := calls + [PlayCall(p)];
      } else {
        SendPlayDelayed(p, delay);
      }
      outcome := Completed;
    }

    /** Cancels everything queued for `p`, then pauses it. */
    method Pause(p: P)
      requires Valid()
      modifies this`queue, this`calls
      ensures Valid()
      ensures queue == RemoveMatching(old(queue), ObjOnly(p))
      ensures forall i :: 0 <= i < |queue| ==> queue[i].obj != Some(p)
      ensures calls == old(calls) + [PauseCall(p)]
    {
      CancelPlayer(queue, p);
      RemoveMessages(ObjOnly(p));
      calls := calls + [PauseCall(p)];
    }

    /** Flushes the whole queue, then releases `p` only if it is managed. */
    method Release(p: P) returns (released: bool)
      modifies this`queue, this`calls
      ensures Valid()
      ensures queue == []
      ensures released <==> Manages(p)
      ensures calls == old(calls) + if released then [ReleaseCall(p)] else []
    {
      RemoveAllMessages();
      if Manages(p) {
        calls := calls + [ReleaseCall(p)];
        return true;
      } else {
        return false;
      }
    }

    /** Flushes the whole queue; nothing else. */
    method Recycle(p: P)
      modifies this`queue
      ensures Valid()
      ensures queue == []
    {
      RemoveAllMessages();
    }

    /** Flushes the whole queue and forgets every player. */
    method Clear()
      modifies this`queue, this`players
      ensures Valid()
      ensures queue == [] && players == {}
    {
      RemoveAllMessages();
      players := {};
    }

    /** Any scroll state but idle cancels every deferred play; becoming idle
        changes nothing. */
    method OnContainerScrollStateChanged(state: int)
      requires Valid()
      modifies this`queue
      ensures Valid()
      ensures state != scrollStateIdle ==> queue == RemoveMatching(old(queue), WhatOnly(MSG_PLAY))
      ensures state != scrollStateIdle ==> queue == []
      ensures state == scrollStateIdle ==> queue == old(queue)
    {
      if state != scrollStateIdle {
        CancelAllPlaysEmpties(queue);
        RemoveMessages(WhatOnly(MSG_PLAY));
      }
    }

    /** Lets `d` units of time pass on the looper's clock. */
    method Elapse(d: nat)
      modifies this`now
      ensures now == old(now) + d
    {
      now := now + d;
    }

    /** One turn of the looper: the earliest message, if it is due, is taken
        off the queue and handled. */
    method Deliver() returns (delivered: Option<Msg<P>>)
      requires Valid()
      modifies this`queue, this`calls
      ensures Valid()
      ensures old(queue) != [] && old(queue)[0].due <= now ==>
        && delivered == Some(old(queue)[0])
        && queue == old(queue)[1..]
        && calls == old(calls) + HandleMessage(old(queue)[0])
      ensures old(queue) == [] || now < old(queue)[0].due ==>
        delivered == None && queue == old(queue) && calls == old(calls)
    {
      if queue != [] && queue[0].due <= now {
        var m := queue[0];
        DropHeadKeepsWellFormed(queue);
        queue := queue[1..];
        calls := calls + HandleMessage(m);
        delivered := Some(m);
      } else {
        delivered := None;
      }
    }
  }
}
