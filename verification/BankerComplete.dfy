/** How complete the scan of 操作系统算法/银行家算法/banker.c is: which safe states is_safe accepts. */
module BankerComplete {
  import opened Sequences
  import opened BankerSpec

  // ---- what has been given back ----

  /** What is free of resource j once those of the first k processes that are in `done` have finished. */
  ghost function Freed(s: System, done: set<nat>, j: nat, k: nat): int
    requires WellSized(s) && j < |s.avail| && k <= N(s)
  {
    if k == 0 then s.avail[j] else Freed(s, done, j, k - 1) + if k - 1 in done then s.alloc[k - 1][j] else 0
  }

  lemma {:induction false} FreedMono(s: System, done: set<nat>, more: set<nat>, j: nat, k: nat)
    requires WellSized(s) && j < |s.avail| && k <= N(s) && done <= more
    requires forall i :: 0 <= i < N(s) ==> NonNegative(s.alloc[i])
    ensures Freed(s, done, j, k) <= Freed(s, more, j, k)
  {
    if k > 0 {
      FreedMono(s, done, more, j, k - 1);
    }
  }

  lemma {:induction false} FreedAdd(s: System, done: set<nat>, i: nat, j: nat, k: nat)
    requires WellSized(s) && j < |s.avail| && k <= N(s) && i !in done
    ensures Freed(s, done + {i}, j, k) == Freed(s, done, j, k) + if i < k then s.alloc[i][j] else 0
  {
    if k > 0 {
      FreedAdd(s, done, i, j, k - 1);
    }
  }

  ghost function Members(order: seq<nat>): set<nat> { set i | i in order }

  /** What is free depends on who has finished, not on the order. */
  lemma {:induction false} WorkIsFreed(s: System, order: seq<nat>, j: nat)
    requires WellSized(s) && InRange(s, order) && Distinct(order) && j < |s.avail|
    ensures WorkAfter(s, order)[j] == Freed(s, Members(order), j, N(s))
  {
    if order == [] {
      assert Members(order) == {};
      NothingFreed(s, j, N(s));
    } else {
      var front, i := order[..|order| - 1], order[|order| - 1];
      WorkIsFreed(s, front, j);
      FreedAdd(s, Members(front), i, j, N(s));
      assert order == front + [i];
      assert Members(order) == Members(front) + {i};
    }
  }

  lemma {:induction false} NothingFreed(s: System, j: nat, k: nat)
    requires WellSized(s) && j < |s.avail| && k <= N(s)
    ensures Freed(s, {}, j, k) == s.avail[j]
  {
    if k > 0 {
      NothingFreed(s, j, k - 1);
    }
  }

  /** Who can finish after some processes can finish after more of them. */
  lemma FitsLater(s: System, before: seq<nat>, later: seq<nat>, need: Vec)
    requires WellSized(s) && forall i :: 0 <= i < N(s) ==> NonNegative(s.alloc[i])
    requires InRange(s, before) && Distinct(before) && InRange(s, later) && Distinct(later)
    requires |need| == |s.avail| && Fits(need, WorkAfter(s, before)) && forall i :: i in before ==> i in later
    ensures Fits(need, WorkAfter(s, later))
  {
    forall j | 0 <= j < |need| ensures need[j] <= WorkAfter(s, later)[j] {
      WorkIsFreed(s, before, j);
      WorkIsFreed(s, later, j);
      FreedMono(s, Members(before), Members(later), j, N(s));
    }
  }

  // ---- the orders that the scan can find ----

  /** Every process but the last one is followed by a higher one: two ascending runs, of which the first
      ends with process n - 1. */
  ghost predicate OneTurn(order: seq<nat>, n: nat) {
    forall k :: 0 <= k < |order| - 1 && order[k] != n - 1 ==> order[k] < order[k + 1]
  }

  /** The scan at process i: it goes on in ascending order, or has just turned at the last process. */
  ghost predicate Turning(order: seq<nat>, i: nat, n: nat) {
    OneTurn(order, n) && (order != [] ==> order[|order| - 1] < i || order[|order| - 1] == n - 1)
  }

  lemma {:induction false} SweepTurns(s: System, c: Scan, i: nat)
    requires WellSized(s) && |c.work| == |s.avail| && i <= N(s) && Turning(c.order, i, N(s))
    ensures OneTurn(Sweep(s, c, i).order, N(s))
    decreases N(s) - i
  {
    if i < N(s) {
      SweepTurns(s, Visit(s, c, i), i + 1);
    }
  }

  /** If the last process finishes in a first sweep, it is the last one to do so. */
  lemma {:induction false} LastOfSweep(s: System, c: Scan, i: nat)
    requires WellSized(s) && |c.work| == |s.avail| && i <= N(s) && forall x :: x in c.done ==> x < i
    requires i == N(s) > 0 && i - 1 in c.done ==> c.order != [] && c.order[|c.order| - 1] == i - 1
    ensures var r := Sweep(s, c, i);
      N(s) > 0 && N(s) - 1 in r.done ==> r.order != [] && r.order[|r.order| - 1] == N(s) - 1
    decreases N(s) - i
  {
    if i < N(s) {
      LastOfSweep(s, Visit(s, c, i), i + 1);
    }
  }

  lemma FoundTurnsOnce(s: System)
    requires WellSized(s)
    ensures OneTurn(TwoSweeps(s).order, N(s))
  {
    var c := Sweep(s, Start(s), 0);
    SweepTurns(s, Start(s), 0);
    LastOfSweep(s, Start(s), 0);
    if N(s) > 0 && N(s) - 1 in c.done {
      SweepTurns(s, c, 0);
    }
  }

  // ---- the scan finds such orders ----

  ghost predicate AscendingIn(order: seq<nat>, k: nat, e: nat)
    requires k <= e <= |order|
  {
    forall x, y :: k <= x < y < e ==> order[x] < order[y]
  }

  lemma {:induction false} RunAscends(order: seq<nat>, n: nat, k: nat, e: nat)
    requires k <= e <= |order| && OneTurn(order, n) && forall x :: k <= x < e - 1 ==> order[x] != n - 1
    ensures AscendingIn(order, k, e)
    decreases e
  {
    if k < e {
      RunAscends(order, n, k, e - 1);
      assert e - 2 >= k ==> order[e - 2] < order[e - 2 + 1];
    }
  }

  /** The processes of order[..e] that are not finished yet are still to be visited, in ascending order. */
  ghost predicate ToCome(order: seq<nat>, done: set<nat>, i: nat, k: nat, e: nat)
    requires e <= |order|
  {
    forall m :: 0 <= m < e ==> order[m] in done || (k <= m && i <= order[m])
  }

  /** A sweep takes in every ascending run that can finish. */
  lemma {:induction false} SweepTakes(s: System, c: Scan, i: nat, order: seq<nat>, k: nat, e: nat)
    requires WellSized(s) && |c.work| == |s.avail| && i <= N(s) && ScanOk(s, c)
    requires forall i :: 0 <= i < N(s) ==> NonNegative(s.alloc[i])
    requires CanFinish(s, order) && k <= e <= |order| && AscendingIn(order, k, e) && ToCome(order, c.done, i, k, e)
    ensures forall m :: 0 <= m < e ==> order[m] in Sweep(s, c, i).done
    decreases N(s) - i
  {
    hide CanFinish, ScanOk, Visit, ToCome, AscendingIn, NonNegative;
    if i < N(s) {
      VisitOk(s, c, i);
      VisitToCome(s, c, i, order, k, e);
      SweepTakes(s, Visit(s, c, i), i + 1, order, k, e);
    } else {
      NoneToCome(s, order, c.done, k, e);
    }
  }

  lemma NoneToCome(s: System, order: seq<nat>, done: set<nat>, k: nat, e: nat)
    requires WellSized(s) && CanFinish(s, order) && e <= |order| && ToCome(order, done, N(s), k, e)
    ensures forall m :: 0 <= m < e ==> order[m] in done
  {
    hide WorkAfter, Fits;
  }

  lemma VisitToCome(s: System, c: Scan, i: nat, order: seq<nat>, k: nat, e: nat)
    requires WellSized(s) && |c.work| == |s.avail| && i < N(s) && ScanOk(s, c)
    requires forall i :: 0 <= i < N(s) ==> NonNegative(s.alloc[i])
    requires CanFinish(s, order) && k <= e <= |order| && AscendingIn(order, k, e) && ToCome(order, c.done, i, k, e)
    ensures ToCome(order, Visit(s, c, i).done, i + 1, k, e)
  {
    hide CanFinish, ScanOk, AscendingIn, NonNegative, Fits;
    forall m | 0 <= m < e ensures order[m] in Visit(s, c, i).done || (k <= m && i + 1 <= order[m]) {
      if order[m] == i && i !in c.done {
        VisitTakes(s, c, order, k, e, m);
      }
    }
  }

  lemma VisitTakes(s: System, c: Scan, order: seq<nat>, k: nat, e: nat, m: nat)
    requires WellSized(s) && |c.work| == |s.avail| && ScanOk(s, c)
    requires forall i :: 0 <= i < N(s) ==> NonNegative(s.alloc[i])
    requires CanFinish(s, order) && k <= m < e <= |order| && AscendingIn(order, k, e)
    requires ToCome(order, c.done, order[m], k, e)
    ensures Fits(s.need[order[m]], c.work)
  {
    var before := order[..m];
    forall x | x in before ensures x in c.order {
      var y :| 0 <= y < m && order[y] == x;
      assert order[y] in c.done;
    }
    FitsLater(s, before, c.order, s.need[order[m]]);
  }

  ghost predicate Found(s: System, order: seq<nat>)
    requires WellSized(s)
  {
    CanFinish(s, order) && |order| == N(s) && OneTurn(order, N(s))
  }

  lemma TurningOrderIsFound(s: System, order: seq<nat>)
    requires WellSized(s) && forall i :: 0 <= i < N(s) ==> NonNegative(s.alloc[i])
    requires Found(s, order)
    ensures FoundSafe(s)
  {
    hide CanFinish, OneTurn, ScanOk, Sweep;
    if N(s) > 0 {
      EveryoneIn(s, order);
      assert N(s) - 1 in order;
      var p :| 0 <= p < |order| && order[p] == N(s) - 1;
      FirstSweep(s, order, p);
      SecondSweep(s, order, p);
      AllDone(s, order, TwoSweeps(s));
    } else {
      NobodyToScan(s);
    }
  }

  lemma NobodyToScan(s: System)
    requires WellSized(s) && N(s) == 0
    ensures FoundSafe(s)
  {}

  lemma FirstSweep(s: System, order: seq<nat>, p: nat)
    requires WellSized(s) && forall i :: 0 <= i < N(s) ==> NonNegative(s.alloc[i])
    requires Found(s, order) && p < |order| && order[p] == N(s) - 1
    ensures ScanOk(s, Sweep(s, Start(s), 0))
    ensures forall m :: 0 <= m <= p ==> order[m] in Sweep(s, Start(s), 0).done
  {
    StartOk(s);
    SweepOk(s, Start(s), 0);
    UniqueTurn(s, order, p);
    RunAscends(order, N(s), 0, p + 1);
    SweepTakes(s, Start(s), 0, order, 0, p + 1);
  }

  lemma UniqueTurn(s: System, order: seq<nat>, p: nat)
    requires WellSized(s) && CanFinish(s, order) && p < |order| && order[p] == N(s) - 1
    ensures forall m :: 0 <= m < |order| && m != p ==> order[m] != N(s) - 1
  {}

  lemma SecondSweep(s: System, order: seq<nat>, p: nat)
    requires WellSized(s) && forall i :: 0 <= i < N(s) ==> NonNegative(s.alloc[i])
    requires Found(s, order) && p < |order| && order[p] == N(s) - 1
    requires ScanOk(s, Sweep(s, Start(s), 0))
    requires forall m :: 0 <= m <= p ==> order[m] in Sweep(s, Start(s), 0).done
    ensures ScanOk(s, TwoSweeps(s)) && forall m :: 0 <= m < |order| ==> order[m] in TwoSweeps(s).done
  {
    hide ScanOk, CanFinish, Sweep, OneTurn;
    var c := Sweep(s, Start(s), 0);
    assert order[p] in c.done;
    UniqueTurn(s, order, p);
    RunAscends(order, N(s), p + 1, |order|);
    SweepOk(s, c, 0);
    SweepTakes(s, c, 0, order, p + 1, |order|);
  }

  lemma AllDone(s: System, order: seq<nat>, c: Scan)
    requires WellSized(s) && CanFinish(s, order) && |order| == N(s) && ScanOk(s, c)
    requires forall m :: 0 <= m < |order| ==> order[m] in c.done
    ensures |c.order| == N(s)
  {
    EveryoneIn(s, order);
    forall i | 0 <= i < N(s) ensures i in c.order {
      assert i in order;
    }
    AllIn(s, c.order);
  }

  lemma EveryoneIn(s: System, order: seq<nat>)
    requires WellSized(s) && CanFinish(s, order) && |order| == N(s)
    ensures forall i :: 0 <= i < N(s) ==> i in order
  {
    forall i | 0 <= i < N(s) ensures i in order {
      if i !in order {
        OneMoreFits(s, order, i);
      }
    }
  }

  /** Exactly which states is_safe accepts: those in which all processes can finish in an order that is
      ascending but for one turn, right behind the last process. */
  lemma FoundIff(s: System)
    requires WellSized(s) && forall i :: 0 <= i < N(s) ==> NonNegative(s.alloc[i])
    ensures FoundSafe(s) <==> exists order :: Found(s, order)
  {
    if FoundSafe(s) {
      FoundIsSafe(s);
      FoundTurnsOnce(s);
      assert Found(s, TwoSweeps(s).order);
    }
    if order :| Found(s, order) {
      TurningOrderIsFound(s, order);
    }
  }

  /** With at most two processes every order is of that kind, so every safe state is accepted. */
  lemma CompleteUpToTwo(s: System)
    requires WellSized(s) && N(s) <= 2 && Safe(s)
    requires forall i :: 0 <= i < N(s) ==> NonNegative(s.alloc[i])
    ensures FoundSafe(s)
  {
    var order: seq<nat> :| CanFinish(s, order) && |order| == N(s);
    TurningOrderIsFound(s, order);
  }

  /** One resource, one unit free; process 0 may ask for 2, process 1 for 1, the last one for 3, and
      these three hold one unit each. */
  function Missed(n: nat): System
    requires n >= 3
  {
    System([1],
           seq(n, i => if i < 2 || i == n - 1 then [1] else [0]),
           seq(n, i => if i == 0 then [2] else if i == 1 then [1] else if i == n - 1 then [3] else [0]))
  }

  lemma {:induction false} MissedMiddle(n: nat, c: Scan, i: nat)
    requires n >= 3 && 2 <= i < n && c.work == [2] && 0 !in c.done && n - 1 !in c.done && |c.order| < i
    ensures var r := Sweep(Missed(n), c, i); 0 !in r.done && n - 1 !in r.done && |r.order| < n
    decreases n - i
  {
    var s := Missed(n);
    var d := Visit(s, c, i);
    if i == n - 1 {
      assert !Fits(s.need[i], c.work) by { assert s.need[i][0] == 3; }
      assert Sweep(s, d, n) == d;
    } else {
      assert d.work == [2];
      MissedMiddle(n, d, i + 1);
    }
  }

  /** The order 1, 0, 2, 3, ..., k - 1. */
  ghost function Order(k: nat): (o: seq<nat>)
    requires k >= 2
    ensures |o| == k && forall m :: 0 <= m < k ==> o[m] == if m == 0 then 1 else if m == 1 then 0 else m
  {
    if k == 2 then [1, 0] else Order(k - 1) + [k - 1]
  }

  lemma {:induction false} MissedOrder(n: nat, k: nat)
    requires n >= 3 && 2 <= k <= n
    ensures CanFinish(Missed(n), Order(k)) && WorkAfter(Missed(n), Order(k)) == (if k == n then [4] else [3])
  {
    hide Missed, CanFinish, WorkAfter;
    MissedFacts(n);
    if k == 2 {
      MissedFirstTwo(n);
    } else {
      MissedOrder(n, k - 1);
      OneMore(Missed(n), Order(k - 1), k - 1);
    }
  }

  lemma MissedFacts(n: nat)
    requires n >= 3
    ensures var s := Missed(n);
      && WellSized(s) && N(s) == n && s.avail == [1]
      && (forall i :: 0 <= i < n ==> s.alloc[i] == if i < 2 || i == n - 1 then [1] else [0])
      && (forall i :: 0 <= i < n ==>
            s.need[i] == if i == 0 then [2] else if i == 1 then [1] else if i == n - 1 then [3] else [0])
  {}

  lemma MissedFirstTwo(n: nat)
    requires n >= 3
    ensures WellSized(Missed(n)) && CanFinish(Missed(n), [1, 0]) && WorkAfter(Missed(n), [1, 0]) == [3]
  {
    MissedFacts(n);
    OneMore(Missed(n), [], 1);
    assert [] + [1] == [1] && [1] + [0] == [1, 0];
    OneMore(Missed(n), [1], 0);
  }

  /** From three processes on it does not: for every such number there is a safe state, with
      non-negative allocations, that the scan rejects. */
  lemma IncompleteFromThree(n: nat)
    requires n >= 3
    ensures var s := Missed(n);
      && WellSized(s) && N(s) == n && Safe(s) && !FoundSafe(s)
      && forall i :: 0 <= i < n ==> NonNegative(s.alloc[i])
  {
    hide Missed, CanFinish, WorkAfter;
    MissedFacts(n);
    MissedOrder(n, n);
    MissedRejected(n);
  }

  lemma MissedRejected(n: nat)
    requires n >= 3
    ensures !FoundSafe(Missed(n))
  {
    var s := Missed(n);
    var c0 := Start(s);
    assert Visit(s, c0, 0) == c0 by { assert s.need[0][0] == 2; }
    var c2 := Visit(s, c0, 1);
    assert c2.work == [2];
    MissedMiddle(n, c2, 2);
    assert Sweep(s, c0, 0) == Sweep(s, c0, 1) == Sweep(s, c2, 2);
  }
}
