/** The dining philosophers of 操作系统算法/哲学家就餐问题/main.cpp for any number of seats from two
    up: all but the last philosopher take the left fork first, the last one takes the right. */
module Philosophers {

  /** Where a philosopher stands in the endless loop of ThreadFun. */
  datatype Phase =
    | WantsFirst
    | WantsSecond   // holds the first fork
    | Eating        // holds both
    | PuttingDown   // has released the first fork, still holds the second

  datatype Fork = OnTable | TakenBy(p: nat)

  datatype State = State(phase: seq<Phase>, forks: seq<Fork>)

  datatype Step = TakeFirst(p: nat) | TakeSecond(p: nat) | ReleaseFirst(p: nat) | ReleaseSecond(p: nat)

  /** The fork a philosopher locks first: its own, except that the last one starts with fork 0. */
  function First(p: nat, n: nat): nat
    requires p < n
  {
    if p < n - 1 then p else (p + 1) % n
  }

  function Second(p: nat, n: nat): nat
    requires p < n
  {
    if p < n - 1 then (p + 1) % n else p
  }

  predicate WellSized(s: State) { 2 <= |s.phase| == |s.forks| }

  predicate Enabled(s: State, a: Step)
    requires WellSized(s)
  {
    && a.p < |s.phase|
    && match a
       case TakeFirst(p) => s.phase[p] == WantsFirst && s.forks[First(p, |s.phase|)] == OnTable
       case TakeSecond(p) => s.phase[p] == WantsSecond && s.forks[Second(p, |s.phase|)] == OnTable
       case ReleaseFirst(p) => s.phase[p] == Eating
       case ReleaseSecond(p) => s.phase[p] == PuttingDown
  }

  function Do(s: State, a: Step): (s': State)
    requires WellSized(s) && Enabled(s, a)
    ensures WellSized(s') && |s'.phase| == |s.phase|
  {
    var n := |s.phase|;
    match a
    case TakeFirst(p) => State(s.phase[p := WantsSecond], s.forks[First(p, n) := TakenBy(p)])
    case TakeSecond(p) => State(s.phase[p := Eating], s.forks[Second(p, n) := TakenBy(p)])
    case ReleaseFirst(p) => State(s.phase[p := PuttingDown], s.forks[First(p, n) := OnTable])
    case ReleaseSecond(p) => State(s.phase[p := WantsFirst], s.forks[Second(p, n) := OnTable])
  }

  ghost predicate Init(s: State) {
    && WellSized(s)
    && (forall p :: 0 <= p < |s.phase| ==> s.phase[p] == WantsFirst)
    && (forall f :: 0 <= f < |s.forks| ==> s.forks[f] == OnTable)
  }

  ghost predicate IsRun(s: State, run: seq<Step>)
    decreases |run|, 0
  {
    run == [] || (IsRun(s, run[..|run| - 1]) &&
                  WellSized(After(s, run[..|run| - 1])) &&
                  Enabled(After(s, run[..|run| - 1]), run[|run| - 1]))
  }

  ghost function After(s: State, run: seq<Step>): State
    requires IsRun(s, run)
    decreases |run|, 1
  {
    if run == [] then s else Do(After(s, run[..|run| - 1]), run[|run| - 1])
  }

  predicate HoldsFirst(ph: Phase) { ph == WantsSecond || ph == Eating }

  predicate HoldsSecond(ph: Phase) { ph == Eating || ph == PuttingDown }

  /** A fork is taken by p exactly when p's phase says that p holds it. */
  ghost predicate Inv(s: State) {
    && WellSized(s)
    && (forall f :: 0 <= f < |s.forks| && s.forks[f].TakenBy? ==> s.forks[f].p < |s.phase|)
    && (forall f, p :: 0 <= f < |s.forks| && 0 <= p < |s.phase| ==>
          (s.forks[f] == TakenBy(p) <==>
            || (f == First(p, |s.phase|) && HoldsFirst(s.phase[p]))
            || (f == Second(p, |s.phase|) && HoldsSecond(s.phase[p]))))
  }

  /** Every philosopher locks its lower-numbered fork first. */
  lemma Ascending(p: nat, n: nat)
    requires p < n && n >= 2
    ensures First(p, n) < Second(p, n) < n
  {}

  lemma InvStep(s: State, a: Step)
    requires Inv(s) && Enabled(s, a)
    ensures Inv(Do(s, a))
  {
    hide First, Second;
    var s', n, q := Do(s, a), |s.phase|, a.p;
    Ascending(q, n);
    forall f, p | 0 <= f < n && 0 <= p < n
      ensures s'.forks[f] == TakenBy(p) <==>
        (f == First(p, n) && HoldsFirst(s'.phase[p])) || (f == Second(p, n) && HoldsSecond(s'.phase[p]))
    {
      Ascending(p, n);
      assert s.forks[f] == TakenBy(p) <==>
        (f == First(p, n) && HoldsFirst(s.phase[p])) || (f == Second(p, n) && HoldsSecond(s.phase[p]));
    }
  }

  lemma {:induction false} RunInv(s: State, run: seq<Step>)
    requires Init(s) && IsRun(s, run)
    ensures Inv(After(s, run)) && |After(s, run).phase| == |s.phase|
  {
    if run != [] {
      RunInv(s, run[..|run| - 1]);
      InvStep(After(s, run[..|run| - 1]), run[|run| - 1]);
    }
  }

  // ---- main results ----

  /** No two neighbours ever eat together. */
  lemma NeighboursExclude(s: State, run: seq<Step>, p: nat)
    requires Init(s) && IsRun(s, run) && p < |s.phase|
    ensures var z := After(s, run);
      |z.phase| == |s.phase| && !(z.phase[p] == Eating && z.phase[(p + 1) % |s.phase|] == Eating)
  {
    RunInv(s, run);
    var z, n := After(s, run), |s.phase|;
    var q := (p + 1) % n;
    assert q != p;
    // fork q lies between p and q
    assert q == First(p, n) || q == Second(p, n);
    assert q == First(q, n) || q == Second(q, n);
    assert z.phase[p] == Eating ==> z.forks[q] == TakenBy(p);
  }

  lemma SomeoneMoves(s: State, p: nat)
    requires Inv(s) && p < |s.phase|
    ensures exists a :: Enabled(s, a)
  {
    var n := |s.phase|;
    Ascending(p, n);
    match s.phase[p]
    case Eating => assert Enabled(s, ReleaseFirst(p));
    case PuttingDown => assert Enabled(s, ReleaseSecond(p));
    case WantsFirst =>
      if s.forks[First(p, n)] == OnTable {
        assert Enabled(s, TakeFirst(p));
      } else {
        Holder(s, First(p, n));
      }
    case WantsSecond =>
      if s.forks[Second(p, n)] == OnTable {
        assert Enabled(s, TakeSecond(p));
      } else {
        Holder(s, Second(p, n));
      }
  }

  /** The holder of a fork can move, or waits for a higher fork: chains of waits strictly ascend in
      fork numbers, so each ends at a philosopher who can move. */
  lemma Holder(s: State, f: nat)
    requires Inv(s) && f < |s.forks| && s.forks[f].TakenBy?
    ensures exists a :: Enabled(s, a)
    decreases |s.phase| - f
  {
    var n, q := |s.phase|, s.forks[f].p;
    Ascending(q, n);
    if s.phase[q] == Eating {
      assert Enabled(s, ReleaseFirst(q));
    } else if s.phase[q] == PuttingDown {
      assert Enabled(s, ReleaseSecond(q));
    } else if s.forks[Second(q, n)] == OnTable {
      assert Enabled(s, TakeSecond(q));
    } else {
      assert f == First(q, n);
      Holder(s, Second(q, n));
    }
  }

  /** Deadlock freedom: every reachable state has an enabled step. */
  lemma NeverDeadlocked(s: State, run: seq<Step>)
    requires Init(s) && IsRun(s, run)
    ensures WellSized(After(s, run)) && exists a :: Enabled(After(s, run), a)
  {
    RunInv(s, run);
    SomeoneMoves(After(s, run), 0);
  }

  // ---- meals keep coming ----

  function PhaseRank(ph: Phase): nat {
    match ph case Eating => 3 case PuttingDown => 2 case WantsFirst => 1 case WantsSecond => 0
  }

  function Rank(phase: seq<Phase>): (r: nat)
    ensures r <= 3 * |phase|
  {
    if phase == [] then 0 else Rank(phase[..|phase| - 1]) + PhaseRank(phase[|phase| - 1])
  }

  lemma {:induction false} RankUpdate(phase: seq<Phase>, i: nat, ph: Phase)
    requires i < |phase|
    ensures Rank(phase[i := ph]) + PhaseRank(phase[i]) == Rank(phase) + PhaseRank(ph)
  {
    var n := |phase| - 1;
    if i == n {
      assert phase[i := ph][..n] == phase[..n];
    } else {
      assert phase[i := ph][..n] == phase[..n][i := ph];
      RankUpdate(phase[..n], i, ph);
    }
  }

  /** A run in which nobody starts to eat is at most 3 N steps long: together with deadlock freedom,
      an unending run has unendingly many meals. */
  lemma {:induction false} MealsKeepComing(s: State, run: seq<Step>)
    requires Inv(s) && IsRun(s, run)
    requires forall i :: 0 <= i < |run| ==> !run[i].TakeSecond?
    ensures WellSized(After(s, run)) && |run| + Rank(After(s, run).phase) <= Rank(s.phase) <= 3 * |s.phase|
  {
    if run != [] {
      var front, a := run[..|run| - 1], run[|run| - 1];
      MealsKeepComing(s, front);
      var y := After(s, front);
      assert !a.TakeSecond?;
      RankUpdate(y.phase, a.p, Do(y, a).phase[a.p]);
    }
  }
}
