/** The message queue behind an Android `Handler`, reduced to the calls the
    player manager makes on it: posting a delayed message, and removing
    messages by `what` code, by carried object, or by both. Time is an
    abstract integer clock; a message is delivered once the clock reaches
    its due time, earliest first. */
module HandlerQueue {

  datatype Option<+T> = None | Some(value: T)

  /** A message: its `what` code, the object it carries (`None` when it
      carries nothing the receiver recognises), and the clock value at
      which it falls due. */
  datatype Msg<P> = Msg(what: int, obj: Option<P>, due: int)

  /** Which messages a removal call drops. */
  datatype Selector<P> =
    | WhatAndObj(what: int, obj: P)  // removeMessages(what, obj)
    | ObjOnly(obj: P)                // removeCallbacksAndMessages(obj)
    | WhatOnly(what: int)            // removeMessages(what)

  predicate Matches<P(==)>(sel: Selector<P>, m: Msg<P>) {
    match sel
    case WhatAndObj(w, o) => m.what == w && m.obj == Some(o)
    case ObjOnly(o) => m.obj == Some(o)
    case WhatOnly(w) => m.what == w
  }

  /** The queue is kept in order of due time. */
  ghost predicate Sorted<P>(q: seq<Msg<P>>) {
    forall i, j :: 0 <= i < j < |q| ==> q[i].due <= q[j].due
  }

  /** Where a message due at `t` is inserted: after every leading message
      that is due no later than `t`, before the first one due later. */
  function Slot<P>(q: seq<Msg<P>>, t: int): (k: nat)
    ensures k <= |q|
  {
    if q == [] || t < q[0].due then 0 else 1 + Slot(q[1..], t)
  }

  /** The slot sits after every message it passes and before the first one
      due later than `t`. */
  lemma {:induction false} SlotBounds<P>(q: seq<Msg<P>>, t: int)
    ensures forall i :: 0 <= i < Slot(q, t) ==> q[i].due <= t
    ensures Slot(q, t) < |q| ==> t < q[Slot(q, t)].due
  {
    if q != [] && q[0].due <= t {
      SlotBounds(q[1..], t);
      assert forall i :: 1 <= i < |q| ==> q[i] == q[1..][i - 1];
    }
  }

  /** Posting a message: it goes in at its slot, the messages before the
      slot stay ahead of it and the rest move one place back, so messages
      due at the same time keep their posting order. */
  function Enqueue<P>(q: seq<Msg<P>>, m: Msg<P>): (r: seq<Msg<P>>)
    ensures |r| == |q| + 1
  {
    var k := Slot(q, m.due);
    q[..k] + [m] + q[k..]
  }

  /** Where each message of the queue ends up after posting `m`. */
  lemma EnqueueIndex<P>(q: seq<Msg<P>>, m: Msg<P>)
    ensures forall i :: 0 <= i < Slot(q, m.due) ==> Enqueue(q, m)[i] == q[i]
    ensures Enqueue(q, m)[Slot(q, m.due)] == m
    ensures forall i :: Slot(q, m.due) < i <= |q| ==> Enqueue(q, m)[i] == q[i - 1]
  {
  }

  /** Posting into a queue in due order keeps it in due order. */
  lemma EnqueueSorted<P>(q: seq<Msg<P>>, m: Msg<P>)
    requires Sorted(q)
    ensures Sorted(Enqueue(q, m))
  {
    var k := Slot(q, m.due);
    var r := Enqueue(q, m);
    SlotBounds(q, m.due);
    EnqueueIndex(q, m);
    forall i, j | 0 <= i < j < |r| ensures r[i].due <= r[j].due {
      if j < k || i > k {
      } else if i == k {
        assert r[j] == q[j - 1];
      } else if j == k {
      } else {
        assert r[j] == q[j - 1];
      }
    }
  }

  /** Posting adds exactly the posted message: the queue afterwards is a
      permutation of the one before plus that message. */
  lemma EnqueueMultiset<P>(q: seq<Msg<P>>, m: Msg<P>)
    ensures multiset(Enqueue(q, m)) == multiset(q) + multiset{m}
  {
    var k := Slot(q, m.due);
    assert q == q[..k] + q[k..];
    assert Enqueue(q, m) == q[..k] + [m] + q[k..];
  }

  /** Removing every message the selector matches; the others stay, in
      their order. */
  function RemoveMatching<P(==)>(q: seq<Msg<P>>, sel: Selector<P>): (r: seq<Msg<P>>)
    ensures |r| <= |q|
  {
    if q == [] then []
    else
      var rest := RemoveMatching(q[1..], sel);
      if Matches(sel, q[0]) then rest
      else [q[0]] + rest
  }

  /** Nothing the selector matches is left after a removal. */
  lemma {:induction false} RemoveLeavesNoMatch<P>(q: seq<Msg<P>>, sel: Selector<P>)
    ensures forall i :: 0 <= i < |RemoveMatching(q, sel)| ==> !Matches(sel, RemoveMatching(q, sel)[i])
  {
    if q != [] {
      RemoveLeavesNoMatch(q[1..], sel);
    }
  }

  /** Every message left after a removal was in the queue before. */
  lemma {:induction false} RemoveFrom<P>(q: seq<Msg<P>>, sel: Selector<P>, i: nat) returns (j: nat)
    requires i < |RemoveMatching(q, sel)|
    ensures j < |q| && q[j] == RemoveMatching(q, sel)[i]
  {
    var rest := RemoveMatching(q[1..], sel);
    if Matches(sel, q[0]) {
      j := RemoveFrom(q[1..], sel, i);
      j := j + 1;
    } else if i == 0 {
      j := 0;
    } else {
      j := RemoveFrom(q[1..], sel, i - 1);
      j := j + 1;
    }
  }

  /** Removal from a queue in due order leaves it in due order. */
  lemma {:induction false} RemoveSorted<P>(q: seq<Msg<P>>, sel: Selector<P>)
    requires Sorted(q)
    ensures Sorted(RemoveMatching(q, sel))
  {
    if q != [] {
      var rest := RemoveMatching(q[1..], sel);
      RemoveSorted(q[1..], sel);
      if !Matches(sel, q[0]) {
        forall i | 0 <= i < |rest| ensures q[0].due <= rest[i].due {
          var j := RemoveFrom(q[1..], sel, i);
        }
        assert RemoveMatching(q, sel) == [q[0]] + rest;
      }
    }
  }

  /** No two queued messages carry the same object. */
  ghost predicate DistinctObjs<P>(q: seq<Msg<P>>) {
    forall i, j :: 0 <= i < j < |q| ==> q[i].obj != q[j].obj
  }

  /** Removal keeps the carried objects distinct. */
  lemma {:induction false} RemoveDistinct<P>(q: seq<Msg<P>>, sel: Selector<P>)
    requires DistinctObjs(q)
    ensures DistinctObjs(RemoveMatching(q, sel))
  {
    if q != [] {
      var rest := RemoveMatching(q[1..], sel);
      RemoveDistinct(q[1..], sel);
      if !Matches(sel, q[0]) {
        forall i | 0 <= i < |rest| ensures q[0].obj != rest[i].obj {
          var j := RemoveFrom(q[1..], sel, i);
        }
        assert RemoveMatching(q, sel) == [q[0]] + rest;
      }
    }
  }

  /** Posting a message whose object nothing queued carries keeps the
      carried objects distinct. */
  lemma EnqueueDistinct<P>(q: seq<Msg<P>>, m: Msg<P>)
    requires DistinctObjs(q)
    requires forall i :: 0 <= i < |q| ==> q[i].obj != m.obj
    ensures DistinctObjs(Enqueue(q, m))
  {
    var k := Slot(q, m.due);
    var r := Enqueue(q, m);
    EnqueueIndex(q, m);
    forall i, j | 0 <= i < j < |r| ensures r[i].obj != r[j].obj {
      if j < k || i > k {
      } else if i == k {
        assert r[j] == q[j - 1];
      } else if j == k {
      } else {
        assert r[j] == q[j - 1];
      }
    }
  }

  /** Removal keeps every unmatched message exactly as often as it was
      queued, and no matched one. */
  lemma {:induction false} RemoveMultiset<P>(q: seq<Msg<P>>, sel: Selector<P>, m: Msg<P>)
    ensures multiset(RemoveMatching(q, sel))[m] == if Matches(sel, m) then 0 else multiset(q)[m]
  {
    if q != [] {
      RemoveMultiset(q[1..], sel, m);
      assert q == [q[0]] + q[1..];
    }
  }

  /** How many queued messages the selector matches. */
  function CountMatching<P(==)>(q: seq<Msg<P>>, sel: Selector<P>): nat {
    if q == [] then 0
    else (if Matches(sel, q[0]) then 1 else 0) + CountMatching(q[1..], sel)
  }

  lemma {:induction false} CountZero<P>(q: seq<Msg<P>>, sel: Selector<P>)
    ensures CountMatching(q, sel) == 0 <==> forall i :: 0 <= i < |q| ==> !Matches(sel, q[i])
  {
    if q != [] {
      CountZero(q[1..], sel);
      assert forall i :: 1 <= i < |q| ==> q[i] == q[1..][i - 1];
    }
  }

  lemma {:induction false} CountAppend<P>(a: seq<Msg<P>>, b: seq<Msg<P>>, sel: Selector<P>)
    ensures CountMatching(a + b, sel) == CountMatching(a, sel) + CountMatching(b, sel)
  {
    if a != [] {
      assert (a + b)[1..] == a[1..] + b;
      CountAppend(a[1..], b, sel);
    } else {
      assert a + b == b;
    }
  }

  /** Removing never adds to the number of messages any selector matches. */
  lemma {:induction false} CountRemoveAtMost<P>(q: seq<Msg<P>>, sel: Selector<P>, other: Selector<P>)
    ensures CountMatching(RemoveMatching(q, sel), other) <= CountMatching(q, other)
  {
    if q != [] {
      CountRemoveAtMost(q[1..], sel, other);
      if !Matches(sel, q[0]) {
        assert ([q[0]] + RemoveMatching(q[1..], sel))[1..] == RemoveMatching(q[1..], sel);
      }
    }
  }

  /** Removing by one selector leaves the messages another selector matches
      untouched when no message matches both. */
  lemma {:induction false} CountRemoveDisjoint<P>(q: seq<Msg<P>>, sel: Selector<P>, other: Selector<P>)
    requires forall m :: Matches(other, m) ==> !Matches(sel, m)
    ensures CountMatching(RemoveMatching(q, sel), other) == CountMatching(q, other)
  {
    if q != [] {
      CountRemoveDisjoint(q[1..], sel, other);
      if !Matches(sel, q[0]) {
        assert ([q[0]] + RemoveMatching(q[1..], sel))[1..] == RemoveMatching(q[1..], sel);
      }
    }
  }

  /** After removing by a selector, nothing it covers is left. */
  lemma RemoveCovered<P>(q: seq<Msg<P>>, sel: Selector<P>, other: Selector<P>)
    requires forall m :: Matches(other, m) ==> Matches(sel, m)
    ensures CountMatching(RemoveMatching(q, sel), other) == 0
  {
    RemoveLeavesNoMatch(q, sel);
    CountZero(RemoveMatching(q, sel), other);
  }

  /** Removal is idempotent: a second identical call finds nothing. */
  lemma {:induction false} RemoveIdempotent<P>(q: seq<Msg<P>>, sel: Selector<P>)
    ensures RemoveMatching(RemoveMatching(q, sel), sel) == RemoveMatching(q, sel)
  {
    if q != [] {
      RemoveIdempotent(q[1..], sel);
      if !Matches(sel, q[0]) {
        assert ([q[0]] + RemoveMatching(q[1..], sel))[1..] == RemoveMatching(q[1..], sel);
      }
    }
  }

  /** Posting a message adds one to the count of exactly the selectors that
      match it. */
  lemma CountEnqueue<P>(q: seq<Msg<P>>, m: Msg<P>, sel: Selector<P>)
    ensures CountMatching(Enqueue(q, m), sel) == CountMatching(q, sel) + (if Matches(sel, m) then 1 else 0)
  {
    var k := Slot(q, m.due);
    assert q == q[..k] + q[k..];
    CountAppend(q[..k], q[k..], sel);
    CountAppend(q[..k] + [m], q[k..], sel);
    CountAppend(q[..k], [m], sel);
    assert [m][1..] == [];
  }
}
