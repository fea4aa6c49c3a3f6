/** The pending-change queue of httptest-geektime/lib/event_loop.c as a system of interleaved
    steps: the owner thread that runs the loop, and any number of other threads that hand it
    channel changes. A step is one lock acquisition, one action inside the lock, or one read,
    write or return of poll. */
module Reactor {

  /** A channel_element: 1 adds, 2 removes and 3 updates a channel. */
  datatype Change = Change(kind: int, fd: int, events: int)

  /** A thread other than the owner, inside event_loop_do_channel_event. */
  datatype Foreign =
    | Out
    | Wants(ch: Change)     // about to lock
    | Holds(ch: Change)     // holds the lock, at the assertion
    | Queued                // lock released, wake-up byte still to be written

  /** The owner thread. `nested` tells whether a drain was called from a callback (through
      event_loop_do_channel_event) or from event_loop_run. */
  datatype Owner =
    | Polling
    | Waking                              // poll reported the wake-up socket, its byte is unread
    | Callbacks                           // other callbacks of this dispatch
    | OwnWants(ch: Change)
    | OwnHolds(ch: Change)                // holds the lock, at the assertion
    | WantsDrain(nested: bool)
    | Draining(nested: bool, next: nat)   // holds the lock, `next` elements handled

  datatype Lock = Free | ByOwner | ByForeign(i: nat)

  /** `enqueued` and `applied` are history: the changes in the order in which they were queued
      under the lock, and in the order in which they were handled. */
  datatype State = State(
    owner: Owner, foreign: seq<Foreign>, mutex: Lock, isHandlePending: bool,
    pending: seq<Change>, bytes: nat, room: nat,
    enqueued: seq<Change>, applied: seq<Change>)

  datatype Step =
    | Call(i: nat, ch: Change) | TakeLock(i: nat) | Queue(i: nat) | Write(i: nat)
    | PollWake | PollOther | ReadByte | OwnCall(ch: Change) | OwnLock | OwnQueue
    | EndCallbacks | DrainLock | Handle | DrainEnd

  predicate Enabled(s: State, a: Step) {
    match a
    case Call(i, _) => i < |s.foreign| && s.foreign[i] == Out
    case TakeLock(i) => i < |s.foreign| && s.foreign[i].Wants? && s.mutex == Free
    case Queue(i) => i < |s.foreign| && s.foreign[i].Holds?
    case Write(i) => i < |s.foreign| && s.foreign[i] == Queued && s.bytes < s.room
    case PollWake => s.owner == Polling && s.bytes > 0
    case PollOther => s.owner == Polling
    case ReadByte => s.owner == Waking && s.bytes > 0
    case OwnCall(_) => s.owner == Callbacks
    case OwnLock => s.owner.OwnWants? && s.mutex == Free
    case OwnQueue => s.owner.OwnHolds?
    case EndCallbacks => s.owner == Callbacks
    case DrainLock => s.owner.WantsDrain? && s.mutex == Free
    case Handle => s.owner.Draining? && s.owner.next < |s.pending|
    case DrainEnd => s.owner.Draining? && s.owner.next >= |s.pending|
  }

  function Do(s: State, a: Step): State
    requires Enabled(s, a)
  {
    match a
    case Call(i, ch) => s.(foreign := s.foreign[i := Wants(ch)])
    case TakeLock(i) => s.(foreign := s.foreign[i := Holds(s.foreign[i].ch)], mutex := ByForeign(i))
    case Queue(i) => s.(foreign := s.foreign[i := Queued], mutex := Free,
                        pending := s.pending + [s.foreign[i].ch], enqueued := s.enqueued + [s.foreign[i].ch])
    case Write(i) => s.(foreign := s.foreign[i := Out], bytes := s.bytes + 1)
    case PollWake => s.(owner := Waking)
    case PollOther => s.(owner := Callbacks)
    case ReadByte => s.(owner := Callbacks, bytes := s.bytes - 1)
    case OwnCall(ch) => s.(owner := OwnWants(ch))
    case OwnLock => s.(owner := OwnHolds(s.owner.ch), mutex := ByOwner)
    case OwnQueue => s.(owner := WantsDrain(true), mutex := Free,
                        pending := s.pending + [s.owner.ch], enqueued := s.enqueued + [s.owner.ch])
    case EndCallbacks => s.(owner := WantsDrain(false))
    case DrainLock => s.(owner := Draining(s.owner.nested, 0), mutex := ByOwner, isHandlePending := true)
    case Handle => s.(owner := Draining(s.owner.nested, s.owner.next + 1),
                      applied := s.applied + [s.pending[s.owner.next]])
    case DrainEnd => s.(owner := if s.owner.nested then Callbacks else Polling,
                        mutex := Free, isHandlePending := false, pending := [])
  }

  /** The loop after event_loop_init: the owner is in poll, nothing is pending. */
  ghost predicate Init(s: State) {
    && s.owner == Polling && s.mutex == Free && !s.isHandlePending
    && s.pending == s.enqueued == s.applied == [] && s.bytes == 0 && s.room > 0
    && forall i :: 0 <= i < |s.foreign| ==> s.foreign[i] == Out
  }

  ghost predicate IsRun(s: State, run: seq<Step>)
    decreases |run|, 0
  {
    run == [] || (IsRun(s, run[..|run| - 1]) && Enabled(After(s, run[..|run| - 1]), run[|run| - 1]))
  }

  ghost function After(s: State, run: seq<Step>): State
    requires IsRun(s, run)
    decreases |run|, 1
  {
    if run == [] then s else Do(After(s, run[..|run| - 1]), run[|run| - 1])
  }

  // ---- the invariant ----

  predicate OwnerInside(o: Owner) { o.OwnHolds? || o.Draining? }

  ghost predicate LockInv(s: State) {
    && (OwnerInside(s.owner) <==> s.mutex == ByOwner)
    && (forall i :: 0 <= i < |s.foreign| ==> (s.foreign[i].Holds? <==> s.mutex == ByForeign(i)))
    && (s.mutex.ByForeign? ==> s.mutex.i < |s.foreign|)
    && (s.isHandlePending <==> s.owner.Draining?)
  }

  function Handled(s: State): nat {
    if s.owner.Draining? && s.owner.next <= |s.pending| then s.owner.next else 0
  }

  /** Changes handled so far, followed by those still to be handled, are the changes queued so far. */
  ghost predicate QueueInv(s: State) {
    && (s.owner.Draining? ==> s.owner.next <= |s.pending|)
    && s.enqueued == s.applied + s.pending[Handled(s)..]
  }

  /** Pending changes have an enqueuer about to write, an unread byte, or an owner that will drain
      before it polls again. */
  ghost predicate NoLostWakeup(s: State) {
    && (s.pending != [] ==>
          || (exists i :: 0 <= i < |s.foreign| && s.foreign[i] == Queued)
          || s.bytes > 0
          || s.owner != Polling)
    && (s.owner == Waking ==> s.bytes > 0)
    && s.room > 0
  }

  ghost predicate Inv(s: State) { LockInv(s) && QueueInv(s) && NoLostWakeup(s) }

  lemma LockStep(s: State, a: Step)
    requires LockInv(s) && Enabled(s, a)
    ensures LockInv(Do(s, a))
  {}

  lemma QueueStep(s: State, a: Step)
    requires LockInv(s) && QueueInv(s) && Enabled(s, a)
    ensures QueueInv(Do(s, a))
  {
    var s' := Do(s, a);
    match a
    case Queue(i) =>
      assert (s.pending + [s.foreign[i].ch])[0..] == s.pending[0..] + [s.foreign[i].ch];
    case OwnQueue =>
      assert (s.pending + [s.owner.ch])[0..] == s.pending[0..] + [s.owner.ch];
    case Handle =>
      var n := s.owner.next;
      assert s.pending[n..] == [s.pending[n]] + s.pending[n + 1..];
    case _ =>
  }

  lemma WakeupStep(s: State, a: Step)
    requires NoLostWakeup(s) && Enabled(s, a)
    ensures NoLostWakeup(Do(s, a))
  {
    var s' := Do(s, a);
    if a.Queue? {
      assert s'.foreign[a.i] == Queued;
    } else if i :| 0 <= i < |s.foreign| && s.foreign[i] == Queued {
      assert !a.Write? || a.i != i ==> s'.foreign[i] == Queued;
    }
  }

  lemma InvStep(s: State, a: Step)
    requires Inv(s) && Enabled(s, a)
    ensures Inv(Do(s, a))
  {
    LockStep(s, a);
    QueueStep(s, a);
    WakeupStep(s, a);
  }

  lemma {:induction false} RunInv(s: State, run: seq<Step>)
    requires Init(s) && IsRun(s, run)
    ensures Inv(After(s, run))
  {
    if run != [] {
      hide Inv, Enabled, Do;
      RunInv(s, run[..|run| - 1]);
      InvStep(After(s, run[..|run| - 1]), run[|run| - 1]);
    }
  }

  // ---- main results ----

  /** In every interleaving: changes are handled in the order in which they were queued, none is
      lost, repeated or reordered. */
  lemma HandledInOrder(s: State, run: seq<Step>)
    requires Init(s) && IsRun(s, run)
    ensures var z := After(s, run); z.enqueued == z.applied + z.pending[Handled(z)..]
  {
    RunInv(s, run);
  }

  /** The assertion in event_loop_do_channel_event never fails, on either kind of thread. */
  lemma AssertionHolds(s: State, run: seq<Step>)
    requires Init(s) && IsRun(s, run)
    ensures var z := After(s, run);
      && (z.owner.OwnHolds? ==> !z.isHandlePending)
      && forall i :: 0 <= i < |z.foreign| && z.foreign[i].Holds? ==> !z.isHandlePending
  {
    RunInv(s, run);
  }

  /** No wake-up is lost: while the owner is blocked in poll, a pending change has a byte that
      makes poll return, or a thread that is about to write one. */
  lemma PendingWakesOwner(s: State, run: seq<Step>)
    requires Init(s) && IsRun(s, run)
    requires After(s, run).owner == Polling && After(s, run).pending != []
    ensures var z := After(s, run);
      Enabled(z, PollWake) || exists i :: Enabled(z, Write(i))
  {
    RunInv(s, run);
    var z := After(s, run);
    if z.bytes == 0 {
      var i :| 0 <= i < |z.foreign| && z.foreign[i] == Queued;
      assert Enabled(z, Write(i));
    }
  }

  /** Steps that need no new call, no time-out and no other socket. */
  predicate Internal(a: Step) { !a.Call? && !a.OwnCall? && !a.PollOther? }

  ghost predicate Quiet(s: State) {
    && s.owner == Polling && s.bytes == 0 && s.pending == []
    && forall i :: 0 <= i < |s.foreign| ==> s.foreign[i] == Out
  }

  lemma Moves(s: State)
    requires Inv(s)
    ensures Quiet(s) || exists a :: Enabled(s, a) && Internal(a)
  {
    if s.mutex.ByForeign? {
      assert Enabled(s, Queue(s.mutex.i)) && Internal(Queue(s.mutex.i));
    } else if s.owner != Polling {
      var a := match s.owner
        case Waking => ReadByte
        case Callbacks => EndCallbacks
        case OwnWants(_) => OwnLock
        case OwnHolds(_) => OwnQueue
        case WantsDrain(_) => DrainLock
        case Draining(_, next) => if next < |s.pending| then Handle else DrainEnd
        case Polling => PollWake;
      assert Enabled(s, a) && Internal(a);
    } else if s.bytes > 0 {
      assert Enabled(s, PollWake) && Internal(PollWake);
    } else if i :| 0 <= i < |s.foreign| && s.foreign[i] != Out {
      var a := if s.foreign[i].Wants? then TakeLock(i) else Write(i);
      assert Enabled(s, a) && Internal(a);
    }
  }

  /** No deadlock: a reachable loop that cannot move by itself has nothing left to handle. */
  lemma NeverStuck(s: State, run: seq<Step>)
    requires Init(s) && IsRun(s, run)
    requires forall a :: Internal(a) ==> !Enabled(After(s, run), a)
    ensures Quiet(After(s, run)) && After(s, run).applied == After(s, run).enqueued
  {
    RunInv(s, run);
    Moves(After(s, run));
  }

  // ---- every change is handled after finitely many steps ----

  function ForeignRank(f: Foreign): nat {
    match f case Out => 0 case Queued => 11 case Holds(_) => 13 case Wants(_) => 14
  }

  function ForeignersRank(fs: seq<Foreign>): nat {
    if fs == [] then 0 else ForeignersRank(fs[..|fs| - 1]) + ForeignRank(fs[|fs| - 1])
  }

  function OwnerRank(o: Owner): nat {
    match o
    case Waking => 4
    case Polling => 5
    case Draining(nested, _) => if nested then 10 else 7
    case WantsDrain(nested) => if nested then 11 else 8
    case Callbacks => 9
    case OwnHolds(_) => 13
    case OwnWants(_) => 14
  }

  function Rank(s: State): nat {
    10 * s.bytes + (|s.pending| - Handled(s)) + ForeignersRank(s.foreign) + OwnerRank(s.owner)
  }

  lemma {:induction false} ForeignersRankUpdate(fs: seq<Foreign>, i: nat, f: Foreign)
    requires i < |fs|
    ensures ForeignersRank(fs[i := f]) + ForeignRank(fs[i]) == ForeignersRank(fs) + ForeignRank(f)
  {
    var n := |fs| - 1;
    if i == n {
      assert fs[i := f][..n] == fs[..n];
    } else {
      assert fs[i := f][..n] == fs[..n][i := f];
      ForeignersRankUpdate(fs[..n], i, f);
    }
  }

  lemma RankDrops(s: State, a: Step)
    requires Inv(s) && Enabled(s, a) && Internal(a)
    ensures Rank(Do(s, a)) < Rank(s)
  {
    match a
    case TakeLock(i) => ForeignersRankUpdate(s.foreign, i, Holds(s.foreign[i].ch));
    case Queue(i) => ForeignersRankUpdate(s.foreign, i, Queued);
    case Write(i) => ForeignersRankUpdate(s.foreign, i, Out);
    case _ =>
  }

  /** From any reachable state, without new calls, every run ends after at most Rank steps;
      where it ends every queued change has been handled. */
  lemma {:induction false} DrainBounded(s: State, before: seq<Step>, rest: seq<Step>)
    requires Init(s) && IsRun(s, before) && IsRun(After(s, before), rest)
    requires forall i :: 0 <= i < |rest| ==> Internal(rest[i])
    ensures Inv(After(After(s, before), rest))
    ensures |rest| + Rank(After(After(s, before), rest)) <= Rank(After(s, before))
    ensures (forall a :: Internal(a) ==> !Enabled(After(After(s, before), rest), a)) ==>
      var z := After(After(s, before), rest); z.pending == [] && z.applied == z.enqueued
  {
    RunInv(s, before);
    if rest != [] {
      var front := rest[..|rest| - 1];
      DrainBounded(s, before, front);
      var y := After(After(s, before), front);
      assert Internal(rest[|rest| - 1]);
      RankDrops(y, rest[|rest| - 1]);
      InvStep(y, rest[|rest| - 1]);
    }
    Moves(After(After(s, before), rest));
  }
}
