# PlayerManager of the Toro widget, modelled in Dafny

Toro's `PlayerManager` keeps the players of one container. It holds two
pieces of state:

- the set of players it manages;
- a private Android `Handler` on the main looper. The handler holds deferred
  "play" messages (`MSG_PLAY`, carrying the player) and, when one is
  delivered, makes that player play.

Each operation changes this state in a specific way:

- `attachPlayer`, `detachPlayer` and `clear` change the set.
- `play` asks the container's delay policy for a delay, then:
  - refuses a delay below `DELAY_INFINITE` by throwing;
  - cancels the player's pending play;
  - then does nothing (`DELAY_INFINITE`), plays at once (`DELAY_NONE`), or posts a new deferred play.
- `pause` cancels everything queued for one player.
- `release`, `recycle` and `clear` flush the whole queue.
- A scroll state other than idle cancels every pending play.

The model has three modules:

- `HandlerQueue` (HandlerQueue.dfy) is the handler's message queue, reduced to what the manager uses.
  - A message has a `what` code, an optional carried object, and the clock value at which it falls due.
  - Posting inserts a message after every message due no later than it, so the queue stays in due order.
  - Removal drops the messages a selector matches. The three selectors are `removeMessages(what, obj)`, `removeCallbacksAndMessages(obj)` and `removeMessages(what)`.
  - Lemmas give each operation's effect on order, contents, distinctness and per-selector counts.
- `Widget` (PlayerManager.dfy) is the class `PlayerManager`.
  - Its fields are `players` (a set), `queue` (a sequence of messages), `now` (the looper's clock), and a ghost log `calls` of the `play`/`pause`/`release` calls made on players.
  - Each handler call the manager makes is a method of its own: `RemoveMessages`, `RemoveAllMessages` and `SendPlayDelayed`.
  - The public operations are built from these methods, with the same branches as the Java code.
  - `Deliver` is one turn of the looper: it pops the earliest message if it is due and handles it as `handleMessage` does.
  - The class invariant `Valid` says the queue is in due order, holds only play messages that carry a player, and holds at most one per player.
  - `play`'s effect is specified by `PlayQueue`/`PlayCalls` over the delay's classification `Decide`. Lemmas about those functions prove the "at most one pending play" rule and that other players are untouched.
- `Scenarios` (Scenarios.dfy) drives a manager through several calls.
  - It covers: attaching twice, playing twice, pausing a deferred play, scrolling then idling, releasing an unmanaged player, clearing twice and a refused delay.
  - It also covers the two-player example: one player deferred by 50 and one played at once.
  - `RunLooper` turns the looper over any sequence of time steps and shows that a player with no pending play is never made to play.

Players are values of a type parameter compared by equality. The sentinels
`DELAY_INFINITE`, `DELAY_NONE` and `SCROLL_STATE_IDLE` are constructor
parameters, so no numeric value is assumed; `MSG_PLAY` is 100.

## Model

| member | source | states |
|---|---|---|
| HandlerQueue.Slot | toro-core/src/main/java/im/ene/toro/widget/PlayerManager.java:86 | the insertion point of a posted message lies within the queue |
| HandlerQueue.SlotBounds | toro-core/src/main/java/im/ene/toro/widget/PlayerManager.java:86 | a posted message goes after every message due no later than it and before the first one due later |
| HandlerQueue.Enqueue | toro-core/src/main/java/im/ene/toro/widget/PlayerManager.java:86 | posting adds exactly one message to the queue |
| HandlerQueue.EnqueueIndex | toro-core/src/main/java/im/ene/toro/widget/PlayerManager.java:86 | after posting, the messages before the slot are unchanged, the posted one is at the slot and the rest move back by one |
| HandlerQueue.EnqueueSorted | toro-core/src/main/java/im/ene/toro/widget/PlayerManager.java:86 | posting keeps the queue in due order |
| HandlerQueue.EnqueueMultiset | toro-core/src/main/java/im/ene/toro/widget/PlayerManager.java:86 | the queue after posting is a permutation of the old queue plus the posted message |
| HandlerQueue.EnqueueDistinct | toro-core/src/main/java/im/ene/toro/widget/PlayerManager.java:86 | posting a message for an object nothing queued carries keeps carried objects distinct |
| HandlerQueue.CountEnqueue | toro-core/src/main/java/im/ene/toro/widget/PlayerManager.java:86 | posting raises a selector's match count by one exactly when the selector matches the posted message |
| HandlerQueue.RemoveMatching | toro-core/src/main/java/im/ene/toro/widget/PlayerManager.java:80 | removal never lengthens the queue |
| HandlerQueue.RemoveLeavesNoMatch | toro-core/src/main/java/im/ene/toro/widget/PlayerManager.java:80 | after removal no remaining message matches the selector |
| HandlerQueue.RemoveFrom | toro-core/src/main/java/im/ene/toro/widget/PlayerManager.java:80 | every message left after removal was in the queue before |
| HandlerQueue.RemoveMultiset | toro-core/src/main/java/im/ene/toro/widget/PlayerManager.java:91 | removal keeps every unmatched message as often as it was queued and drops every matched one |
| HandlerQueue.RemoveSorted | toro-core/src/main/java/im/ene/toro/widget/PlayerManager.java:91 | removal keeps the queue in due order |
| HandlerQueue.RemoveDistinct | toro-core/src/main/java/im/ene/toro/widget/PlayerManager.java:91 | removal keeps carried objects distinct |
| HandlerQueue.RemoveIdempotent | toro-core/src/main/java/im/ene/toro/widget/PlayerManager.java:119 | removing twice with the same selector is the same as removing once |
| HandlerQueue.CountZero | toro-core/src/main/java/im/ene/toro/widget/PlayerManager.java:80 | a selector matches nothing in the queue exactly when its match count is zero |
| HandlerQueue.CountAppend | toro-core/src/main/java/im/ene/toro/widget/PlayerManager.java:86 | the match count of a concatenation is the sum of the parts' counts |
| HandlerQueue.CountRemoveAtMost | toro-core/src/main/java/im/ene/toro/widget/PlayerManager.java:91 | removal never raises any selector's match count |
| HandlerQueue.CountRemoveDisjoint | toro-core/src/main/java/im/ene/toro/widget/PlayerManager.java:80 | removal leaves unchanged the count of a selector that matches nothing the removed selector matches |
| HandlerQueue.RemoveCovered | toro-core/src/main/java/im/ene/toro/widget/PlayerManager.java:91 | after removal nothing is left that a narrower selector matches |
| Widget.HandleMessage | toro-core/src/main/java/im/ene/toro/widget/PlayerManager.java:126-132 | a delivered message makes its player play exactly when it is a play message carrying a player; any other message leads to no call |
| Widget.DropHeadKeepsWellFormed | toro-core/src/main/java/im/ene/toro/widget/PlayerManager.java:125-133 | delivering the head of a well-formed queue leaves it well formed |
| Widget.AtMostOnePending | toro-core/src/main/java/im/ene/toro/widget/PlayerManager.java:80-87 | in a well-formed queue no player has more than one deferred play |
| Widget.RemoveKeepsWellFormed | toro-core/src/main/java/im/ene/toro/widget/PlayerManager.java:80 | every kind of removal keeps the queue well formed |
| Widget.CancelPlay | toro-core/src/main/java/im/ene/toro/widget/PlayerManager.java:80 | `removeMessages(MSG_PLAY, p)` leaves no deferred play for `p` and every other player's count unchanged |
| Widget.ScheduleCount | toro-core/src/main/java/im/ene/toro/widget/PlayerManager.java:86 | posting a play for `p` adds one deferred play for `p` and none for any other player |
| Widget.SchedulePlay | toro-core/src/main/java/im/ene/toro/widget/PlayerManager.java:80-86 | posting a play for `p` after its old ones were cancelled keeps the queue well formed |
| Widget.CancelPlayer | toro-core/src/main/java/im/ene/toro/widget/PlayerManager.java:91 | `removeCallbacksAndMessages(p)` leaves no message carrying `p` and no deferred play for `p` |
| Widget.CancelAllPlaysEmpties | toro-core/src/main/java/im/ene/toro/widget/PlayerManager.java:119 | `removeMessages(MSG_PLAY)` empties the manager's queue |
| Widget.NoPendingPlayNeverPlays | toro-core/src/main/java/im/ene/toro/widget/PlayerManager.java:125-133 | with no deferred play for `p` queued, no queued message makes `p` play when handled |
| Widget.DecideCases | toro-core/src/main/java/im/ene/toro/widget/PlayerManager.java:78-87 | a delay is refused exactly when below "never"; it is dropped exactly at "never", played at once exactly at "play now" above "never", and otherwise deferred by its non-negative value |
| Widget.PlayKeepsWellFormed | toro-core/src/main/java/im/ene/toro/widget/PlayerManager.java:80-87 | the queue after `play` is still well formed |
| Widget.PlayLeavesAtMostOne | toro-core/src/main/java/im/ene/toro/widget/PlayerManager.java:80-87 | after a valid `play(p)`, `p` has exactly one deferred play, due at now plus the delay, when deferred, and none otherwise |
| Widget.PlayLeavesOthers | toro-core/src/main/java/im/ene/toro/widget/PlayerManager.java:80-87 | `play(p)` leaves the number of deferred plays of every other player unchanged |
| Widget.PlayKeepsOtherMsgs | toro-core/src/main/java/im/ene/toro/widget/PlayerManager.java:80-87 | `play(p)` keeps every message not carrying `p` exactly as often as before, so other players' deferred plays keep their due times |
| Widget.PlayerManager.constructor | toro-core/src/main/java/im/ene/toro/widget/PlayerManager.java:44-49 | a new manager has no players, an empty queue and an empty call log |
| Widget.PlayerManager.AttachPlayer | toro-core/src/main/java/im/ene/toro/widget/PlayerManager.java:51-53 | returns true exactly when the player was not managed; afterwards it is managed, and the queue and call log are unchanged |
| Widget.PlayerManager.DetachPlayer | toro-core/src/main/java/im/ene/toro/widget/PlayerManager.java:55-57 | returns true exactly when the player was managed; afterwards it is not, and its deferred plays stay queued |
| Widget.PlayerManager.Manages | toro-core/src/main/java/im/ene/toro/widget/PlayerManager.java:59-61 | a player is managed exactly when it is in the player set |
| Widget.PlayerManager.GetPlayers | toro-core/src/main/java/im/ene/toro/widget/PlayerManager.java:63-70 | the copy holds exactly the managed players, each once |
| Widget.PlayerManager.RemoveMessages | toro-core/src/main/java/im/ene/toro/widget/PlayerManager.java:80 | the handler drops exactly the messages the selector matches, and the invariant holds |
| Widget.PlayerManager.RemoveAllMessages | toro-core/src/main/java/im/ene/toro/widget/PlayerManager.java:98 | `removeCallbacksAndMessages(null)` leaves the queue empty |
| Widget.PlayerManager.SendPlayDelayed | toro-core/src/main/java/im/ene/toro/widget/PlayerManager.java:86 | posts one play for `p`, due after the delay (a negative one counts as none), and keeps the invariant when `p` had none pending |
| Widget.PlayerManager.Play | toro-core/src/main/java/im/ene/toro/widget/PlayerManager.java:76-88 | refuses a delay below "never" and then changes nothing; otherwise the queue and the call log become `PlayQueue` and `PlayCalls` of the delay's classification, and the invariant holds |
| Widget.PlayerManager.Pause | toro-core/src/main/java/im/ene/toro/widget/PlayerManager.java:90-93 | drops every message carrying the player and no other, then logs one pause call |
| Widget.PlayerManager.Release | toro-core/src/main/java/im/ene/toro/widget/PlayerManager.java:95-105 | empties the whole queue; returns whether the player is managed and logs a release call only then |
| Widget.PlayerManager.Recycle | toro-core/src/main/java/im/ene/toro/widget/PlayerManager.java:107-110 | empties the whole queue and changes nothing else |
| Widget.PlayerManager.Clear | toro-core/src/main/java/im/ene/toro/widget/PlayerManager.java:112-115 | empties both the queue and the player set |
| Widget.PlayerManager.OnContainerScrollStateChanged | toro-core/src/main/java/im/ene/toro/widget/PlayerManager.java:117-121 | any state but idle removes every play message and so empties the queue; idle leaves it unchanged |
| Widget.PlayerManager.Elapse | toro-core/src/main/java/im/ene/toro/widget/PlayerManager.java:125 | the looper's clock advances by the given amount |
| Widget.PlayerManager.Deliver | toro-core/src/main/java/im/ene/toro/widget/PlayerManager.java:125-133 | a due head message is taken off the queue, and only a play message carrying a player makes that player play; otherwise nothing changes |
| Scenarios.AttachTwice | toro-core/src/main/java/im/ene/toro/widget/PlayerManager.java:48-70 | a second attach of the same player returns false, and the copy of the members holds it exactly once |
| Scenarios.RunLooper | toro-core/src/main/java/im/ene/toro/widget/PlayerManager.java:125-133 | looper turns only ever make players play, and while a player has no deferred play, no number of turns makes it play, whatever time passes |
| Scenarios.PlayTwice | toro-core/src/main/java/im/ene/toro/widget/PlayerManager.java:80-87 | two deferred plays of one player leave one deferred play, due at the second call's delay, and no play call |
| Scenarios.PauseCancelsPlay | toro-core/src/main/java/im/ene/toro/widget/PlayerManager.java:90-93 | pausing after a deferred play logs exactly one pause, and the player never plays afterwards |
| Scenarios.ScrollThenIdle | toro-core/src/main/java/im/ene/toro/widget/PlayerManager.java:117-121 | scrolling cancels every deferred play, and becoming idle restores none |
| Scenarios.ReleaseUnmanaged | toro-core/src/main/java/im/ene/toro/widget/PlayerManager.java:97-105 | releasing an unmanaged player returns false and calls nothing, yet empties the queue |
| Scenarios.ClearTwice | toro-core/src/main/java/im/ene/toro/widget/PlayerManager.java:112-115 | clearing twice leaves no players, an empty queue and an empty copy of the members |
| Scenarios.RefusedPlay | toro-core/src/main/java/im/ene/toro/widget/PlayerManager.java:77-78 | a delay below "never" throws and leaves the queue and the call log unchanged |
| Scenarios.DeferredPlaysWhenDue | toro-core/src/main/java/im/ene/toro/widget/PlayerManager.java:76-88 | continuing from the two-player start, a turn at 49 delivers nothing and a turn at 50 delivers the deferred play, so the log is the immediate play followed by the deferred one |
| Scenarios.PausedBeforeDue | toro-core/src/main/java/im/ene/toro/widget/PlayerManager.java:90-93 | continuing from the two-player start, pausing the deferred player at 20 logs one pause; that player never plays and is never paused again, however the looper turns |
| Scenarios.DeferOneStartOther | toro-core/src/main/java/im/ene/toro/widget/PlayerManager.java:76-88 | after a play deferred by 50 and an immediate play, the queue holds only the deferred play and the log only the immediate play call |

## Left out

- `initialize` (PlayerManager.java:72-74) is not modelled. It only passes through to `ToroPlayer.initialize` and `Container.getPlaybackInfo`, which are not part of this model.
- The `container` field and the delay policy `getDelayToPlay` (line 77) are not modelled. The delay is a parameter of `Play`.
- The Android `Handler`, `Looper`, main thread and real time are not modelled.
  - Time is an integer clock that `Elapse` advances.
  - `Deliver` stands for one looper turn.
  - Each operation runs to completion before the next, as on the single looper thread.
- Two parts of the handler's behaviour come from Android's documented behaviour, not from the source:
  - posting places a message after every message due no later than it;
  - `sendMessageDelayed` treats a negative delay as zero.
- The values of `PlayerDispatcher.DELAY_INFINITE`, `PlayerDispatcher.DELAY_NONE` and `RecyclerView.SCROLL_STATE_IDLE` are not fixed. They are defined in files that are not part of this model, so they are constructor parameters.
- Player internals and exceptions thrown by players are not modelled. Calls on players are only recorded in the ghost log.
- Widget.PlayerManager.GetPlayers: does not fix the order of the copy. The model uses a mathematical set, and `ArraySet`'s iteration order is not part of this model.
- Widget.PlayerManager.Play: its contract states the new queue through `PlayQueue`. The per-player facts are lemmas about that function, not clauses of the method: at most one pending play is `PlayLeavesAtMostOne`, and other players' messages being untouched is `PlayKeepsOtherMsgs` (with `PlayLeavesOthers` for their counts).
- A message carrying something other than a player is modelled as carrying nothing (`None`). The handler is private, so only the manager posts to it.
