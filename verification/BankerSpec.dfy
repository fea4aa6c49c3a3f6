/** The banker's algorithm on values: allocation states, safe states, and the scan that
    操作系统算法/银行家算法/banker.c performs to recognise them. */
module BankerSpec {
  import opened Sequences

  type Vec = seq<int>

  /** Available resources, and what each process holds and may still ask for. */
  datatype System = System(avail: Vec, alloc: seq<Vec>, need: seq<Vec>)

  predicate WellSized(s: System) {
    && |s.alloc| == |s.need|
    && (forall i :: 0 <= i < |s.alloc| ==> |s.alloc[i]| == |s.avail|)
    && (forall i :: 0 <= i < |s.need| ==> |s.need[i]| == |s.avail|)
  }

  function N(s: System): nat { |s.alloc| }

  predicate Fits(need: Vec, work: Vec)
    requires |need| == |work|
  {
    forall j :: 0 <= j < |need| ==> need[j] <= work[j]
  }

  function Add(a: Vec, b: Vec): (r: Vec)
    requires |a| == |b|
    ensures |r| == |a| && forall j :: 0 <= j < |a| ==> r[j] == a[j] + b[j]
  {
    seq(|a|, j requires 0 <= j < |a| => a[j] + b[j])
  }

  function Sub(a: Vec, b: Vec): (r: Vec)
    requires |a| == |b|
    ensures |r| == |a| && forall j :: 0 <= j < |a| ==> r[j] == a[j] - b[j]
  {
    seq(|a|, j requires 0 <= j < |a| => a[j] - b[j])
  }

  predicate NonNegative(v: Vec) { forall j :: 0 <= j < |v| ==> v[j] >= 0 }

  // ---- safe states ----

  ghost predicate InRange(s: System, order: seq<nat>) { forall k :: 0 <= k < |order| ==> order[k] < N(s) }

  /** What is free once the processes of `order` have finished and given back all they hold. */
  ghost function WorkAfter(s: System, order: seq<nat>): (w: Vec)
    requires WellSized(s) && InRange(s, order)
    ensures |w| == |s.avail|
  {
    if order == [] then s.avail
    else Add(WorkAfter(s, order[..|order| - 1]), s.alloc[order[|order| - 1]])
  }

  /** Each process of `order` can get all it may still ask for from what is free when its turn comes. */
  ghost predicate CanFinish(s: System, order: seq<nat>)
    requires WellSized(s)
  {
    && InRange(s, order) && Distinct(order)
    && forall k :: 0 <= k < |order| ==> Fits(s.need[order[k]], WorkAfter(s, order[..k]))
  }

  /** A state is safe when all processes can finish in some order. */
  ghost predicate Safe(s: System)
    requires WellSized(s)
  {
    exists order :: CanFinish(s, order) && |order| == N(s)
  }

  /** All of resource j in some rows. */
  ghost function Held(alloc: seq<Vec>, j: nat): int
    requires forall i :: 0 <= i < |alloc| ==> j < |alloc[i]|
  {
    if alloc == [] then 0 else Held(alloc[..|alloc| - 1], j) + alloc[|alloc| - 1][j]
  }

  ghost function RowsOf(s: System, order: seq<nat>): (r: seq<Vec>)
    requires WellSized(s) && InRange(s, order)
    ensures |r| == |order| && forall k :: 0 <= k < |r| ==> r[k] == s.alloc[order[k]]
  {
    seq(|order|, k requires 0 <= k < |order| => s.alloc[order[k]])
  }

  lemma {:induction false} WorkIs(s: System, order: seq<nat>, j: nat)
    requires WellSized(s) && InRange(s, order) && j < |s.avail|
    ensures WorkAfter(s, order)[j] == s.avail[j] + Held(RowsOf(s, order), j)
  {
    if order != [] {
      var n := |order| - 1;
      WorkIs(s, order[..n], j);
      assert RowsOf(s, order)[..n] == RowsOf(s, order[..n]);
    }
  }

  /** In sums: nobody in the order may need more of any resource than what is free at the start and all that
      those before it hold. */
  lemma FinishIff(s: System, order: seq<nat>)
    requires WellSized(s) && InRange(s, order) && Distinct(order)
    ensures CanFinish(s, order) <==> forall k, j :: 0 <= k < |order| && 0 <= j < |s.avail| ==>
      s.need[order[k]][j] <= s.avail[j] + Held(RowsOf(s, order[..k]), j)
  {
    hide WorkAfter, Held, RowsOf;
    forall k | 0 <= k < |order|
      ensures Fits(s.need[order[k]], WorkAfter(s, order[..k])) <==> forall j :: 0 <= j < |s.avail| ==>
        s.need[order[k]][j] <= s.avail[j] + Held(RowsOf(s, order[..k]), j)
    {
      forall j | 0 <= j < |s.avail|
        ensures WorkAfter(s, order[..k])[j] == s.avail[j] + Held(RowsOf(s, order[..k]), j)
      {
        WorkIs(s, order[..k], j);
      }
    }
  }

  // ---- the scan of is_safe ----

  /** Work, the processes marked finished, and safe[..count]. */
  datatype Scan = Scan(work: Vec, done: set<nat>, order: seq<nat>)

  function Start(s: System): Scan { Scan(s.avail, {}, []) }

  /** One turn of the loop body for process i. */
  function Visit(s: System, c: Scan, i: nat): (r: Scan)
    requires WellSized(s) && |c.work| == |s.avail| && i < N(s)
    ensures |r.work| == |s.avail|
  {
    if i !in c.done && Fits(s.need[i], c.work)
    then Scan(Add(c.work, s.alloc[i]), c.done + {i}, c.order + [i])
    else c
  }

  /** The turns for processes i, i + 1, ... up to the last. */
  function Sweep(s: System, c: Scan, i: nat): (r: Scan)
    requires WellSized(s) && |c.work| == |s.avail| && i <= N(s)
    ensures |r.work| == |s.avail|
    decreases N(s) - i
  {
    if i == N(s) then c else Sweep(s, Visit(s, c, i), i + 1)
  }

  /** What the self-resetting loop amounts to: one sweep, and a second one exactly when the last
      process finished in the first. */
  function TwoSweeps(s: System): (r: Scan)
    requires WellSized(s)
    ensures |r.work| == |s.avail|
  {
    var c := Sweep(s, Start(s), 0);
    if N(s) > 0 && N(s) - 1 in c.done then Sweep(s, c, 0) else c
  }

  predicate FoundSafe(s: System)
    requires WellSized(s)
  {
    |TwoSweeps(s).order| == N(s)
  }

  /** The scan's bookkeeping: `done` is the set of `order`, and `order` is executable so far. */
  ghost predicate ScanOk(s: System, c: Scan)
    requires WellSized(s)
  {
    && CanFinish(s, c.order) && c.work == WorkAfter(s, c.order)
    && forall i: nat :: i in c.done <==> i in c.order
  }

  lemma StartOk(s: System)
    requires WellSized(s)
    ensures ScanOk(s, Start(s))
  {}

  lemma OneMore(s: System, order: seq<nat>, i: nat)
    requires WellSized(s) && CanFinish(s, order) && i < N(s) && i !in order
    requires Fits(s.need[i], WorkAfter(s, order))
    ensures CanFinish(s, order + [i]) && WorkAfter(s, order + [i]) == Add(WorkAfter(s, order), s.alloc[i])
  {
    var o := order + [i];
    assert o[..|order|] == order;
    forall k | 0 <= k < |o| ensures Fits(s.need[o[k]], WorkAfter(s, o[..k])) {
      if k < |order| {
        assert o[..k] == order[..k];
      }
    }
  }

  lemma VisitOk(s: System, c: Scan, i: nat)
    requires WellSized(s) && |c.work| == |s.avail| && i < N(s) && ScanOk(s, c)
    ensures ScanOk(s, Visit(s, c, i)) && c.done <= Visit(s, c, i).done
  {
    if i !in c.done && Fits(s.need[i], c.work) {
      OneMore(s, c.order, i);
    }
  }

  lemma {:induction false} SweepOk(s: System, c: Scan, i: nat)
    requires WellSized(s) && |c.work| == |s.avail| && i <= N(s) && ScanOk(s, c)
    ensures ScanOk(s, Sweep(s, c, i)) && c.done <= Sweep(s, c, i).done
    decreases N(s) - i
  {
    hide ScanOk, Visit;
    if i < N(s) {
      VisitOk(s, c, i);
      SweepOk(s, Visit(s, c, i), i + 1);
    }
  }

  lemma TwoSweepsOk(s: System)
    requires WellSized(s)
    ensures ScanOk(s, TwoSweeps(s))
  {
    assert ScanOk(s, Start(s));
    SweepOk(s, Start(s), 0);
    SweepOk(s, Sweep(s, Start(s), 0), 0);
  }

  /** Soundness: what the scan calls safe is safe, and its order is the witness. */
  lemma FoundIsSafe(s: System)
    requires WellSized(s) && FoundSafe(s)
    ensures CanFinish(s, TwoSweeps(s).order) && Safe(s)
  {
    TwoSweepsOk(s);
  }

  // ---- counting processes ----

  /** Distinct processes are at most as many as there are processes. */
  lemma OrderFits(s: System, order: seq<nat>)
    requires WellSized(s) && InRange(s, order) && Distinct(order)
    ensures |order| <= N(s)
  {
    Pigeon(order, N(s));
  }

  lemma OneMoreFits(s: System, order: seq<nat>, i: nat)
    requires WellSized(s) && CanFinish(s, order) && i < N(s) && i !in order
    ensures |order| < N(s)
  {
    OrderFits(s, order + [i]);
  }

  lemma AllIn(s: System, order: seq<nat>)
    requires WellSized(s) && CanFinish(s, order) && forall i :: 0 <= i < N(s) ==> i in order
    ensures |order| == N(s)
  {
    OrderFits(s, order);
    Cover(order, N(s));
  }

  lemma {:induction false} Pigeon(order: seq<nat>, n: nat)
    requires Distinct(order) && forall k :: 0 <= k < |order| ==> order[k] < n
    ensures |order| <= n
  {
    assert order != [] ==> order[0] < n;
    if n == 0 {
    } else if m :| 0 <= m < |order| && order[m] == n - 1 {
      var rest := order[..m] + order[m + 1..];
      assert forall k :: 0 <= k < |rest| ==> rest[k] == order[if k < m then k else k + 1];
      Pigeon(rest, n - 1);
    } else {
      Pigeon(order, n - 1);
    }
  }

  lemma {:induction false} Cover(order: seq<nat>, n: nat)
    requires forall i :: 0 <= i < n ==> i in order
    ensures |order| >= n
  {
    if n > 0 {
      assert n - 1 in order;
      var m :| 0 <= m < |order| && order[m] == n - 1;
      var rest := order[..m] + order[m + 1..];
      forall i | 0 <= i < n - 1 ensures i in rest {
        assert i in order;
        var k :| 0 <= k < |order| && order[k] == i;
        assert rest[if k < m then k else k - 1] == i;
      }
      Cover(rest, n - 1);
    }
  }

  // ---- requests ----

  /** The state after process id was given `r` (a negative component gives resources back). */
  function Grant(s: System, id: nat, r: Vec): (t: System)
    requires WellSized(s) && id < N(s) && |r| == |s.avail|
    ensures WellSized(t)
  {
    System(Sub(s.avail, r), s.alloc[id := Add(s.alloc[id], r)], s.need[id := Sub(s.need[id], r)])
  }

  /** What return_back does. */
  function TakeBack(s: System, id: nat, r: Vec): (t: System)
    requires WellSized(s) && id < N(s) && |r| == |s.avail|
    ensures WellSized(t)
  {
    System(Add(s.avail, r), s.alloc[id := Sub(s.alloc[id], r)], s.need[id := Add(s.need[id], r)])
  }

  /** Taking a grant back restores the state exactly. */
  lemma TakeBackGrant(s: System, id: nat, r: Vec)
    requires WellSized(s) && id < N(s) && |r| == |s.avail|
    ensures TakeBack(Grant(s, id, r), id, r) == s
  {
    var t := TakeBack(Grant(s, id, r), id, r);
    assert t.avail == s.avail && t.alloc[id] == s.alloc[id] && t.need[id] == s.need[id];
    assert t.alloc == s.alloc && t.need == s.need;
  }

  /** A request is granted when it exceeds neither the need nor what is free, and the state it
      leads to passes the scan. */
  predicate Granted(s: System, id: nat, r: Vec)
    requires WellSized(s) && id < N(s) && |r| == |s.avail|
  {
    Fits(r, s.need[id]) && Fits(r, s.avail) && FoundSafe(Grant(s, id, r))
  }

  function Handle(s: System, id: nat, r: Vec): (t: System)
    requires WellSized(s) && id < N(s) && |r| == |s.avail|
    ensures WellSized(t)
  {
    if Granted(s, id, r) then Grant(s, id, r) else s
  }

  /** Nothing is created or lost, needs follow the declared maxima, and nothing is negative. */
  ghost predicate Consistent(s: System, total: Vec, max: seq<Vec>) {
    && WellSized(s) && |total| == |s.avail| && |max| == N(s)
    && (forall i :: 0 <= i < N(s) ==> |max[i]| == |s.avail| && s.need[i] == Sub(max[i], s.alloc[i]))
    && (forall j :: 0 <= j < |total| ==> s.avail[j] + Held(s.alloc, j) == total[j])
    && NonNegative(s.avail)
    && (forall i :: 0 <= i < N(s) ==> NonNegative(s.alloc[i]) && NonNegative(s.need[i]))
  }

  lemma {:induction false} HeldUpdate(alloc: seq<Vec>, j: nat, id: nat, v: Vec)
    requires id < |alloc| && j < |v|
    requires forall i :: 0 <= i < |alloc| ==> j < |alloc[i]|
    ensures Held(alloc[id := v], j) == Held(alloc, j) - alloc[id][j] + v[j]
  {
    var n := |alloc| - 1;
    if id == n {
      assert alloc[id := v][..n] == alloc[..n];
    } else {
      assert alloc[id := v][..n] == alloc[..n][id := v];
      HeldUpdate(alloc[..n], j, id, v);
    }
  }

  /** The requests a process may make: it never gives back more than it holds. */
  predicate Legal(s: System, id: nat, r: Vec) {
    && WellSized(s) && id < N(s) && |r| == |s.avail|
    && forall j :: 0 <= j < |r| ==> r[j] >= -s.alloc[id][j]
  }

  lemma HandleKeepsConsistent(s: System, id: nat, r: Vec, total: Vec, max: seq<Vec>)
    requires Consistent(s, total, max) && Legal(s, id, r)
    ensures Consistent(Handle(s, id, r), total, max)
  {
    if Granted(s, id, r) {
      var t := Grant(s, id, r);
      forall j | 0 <= j < |total| ensures t.avail[j] + Held(t.alloc, j) == total[j] {
        HeldUpdate(s.alloc, j, id, t.alloc[id]);
      }
      assert t.need[id] == Sub(max[id], t.alloc[id]);
    }
  }

  /** For a granted request this is exactly the condition: the new state is consistent if and only if
      the request gives back no more than the process holds. */
  lemma GrantConsistentIff(s: System, id: nat, r: Vec, total: Vec, max: seq<Vec>)
    requires Consistent(s, total, max) && id < N(s) && |r| == |s.avail| && Granted(s, id, r)
    ensures Consistent(Grant(s, id, r), total, max) <==> Legal(s, id, r)
  {
    if Legal(s, id, r) {
      HandleKeepsConsistent(s, id, r, total, max);
    }
    var t := Grant(s, id, r);
    assert t.alloc[id] == Add(s.alloc[id], r);
  }

  lemma HandleKeepsSafe(s: System, id: nat, r: Vec)
    requires WellSized(s) && id < N(s) && |r| == |s.avail| && Safe(s)
    ensures Safe(Handle(s, id, r))
  {
    if Granted(s, id, r) {
      FoundIsSafe(Grant(s, id, r));
    }
  }

  // ---- whole runs ----

  datatype Request = Request(id: nat, r: Vec)

  /** Each request names a process, and gives back no more than that process holds by then. */
  ghost predicate LegalRun(s: System, rs: seq<Request>)
    decreases |rs|
  {
    rs == [] || (Legal(s, rs[0].id, rs[0].r) && LegalRun(Handle(s, rs[0].id, rs[0].r), rs[1..]))
  }

  ghost function Served(s: System, rs: seq<Request>): (t: System)
    requires WellSized(s) && LegalRun(s, rs)
    ensures WellSized(t)
    decreases |rs|
  {
    if rs == [] then s else Served(Handle(s, rs[0].id, rs[0].r), rs[1..])
  }

  /** Safety over whole runs: whatever is asked for, resources are conserved, needs stay maxima minus
      holdings, nothing goes negative, and a safe start stays safe. */
  lemma {:induction false} RunSafety(s: System, rs: seq<Request>, total: Vec, max: seq<Vec>)
    requires Consistent(s, total, max) && LegalRun(s, rs) && Safe(s)
    ensures Consistent(Served(s, rs), total, max) && Safe(Served(s, rs))
    decreases |rs|
  {
    if rs != [] {
      HandleKeepsConsistent(s, rs[0].id, rs[0].r, total, max);
      HandleKeepsSafe(s, rs[0].id, rs[0].r);
      RunSafety(Handle(s, rs[0].id, rs[0].r), rs[1..], total, max);
    }
  }

  /** Non-negative requests are always legal, so no run of them needs any further condition. */
  lemma {:induction false} NonNegativeRunsAreLegal(s: System, rs: seq<Request>, total: Vec, max: seq<Vec>)
    requires Consistent(s, total, max)
    requires forall i :: 0 <= i < |rs| ==> rs[i].id < N(s) && |rs[i].r| == |s.avail| && NonNegative(rs[i].r)
    ensures LegalRun(s, rs)
    decreases |rs|
  {
    if rs != [] {
      var t := Handle(s, rs[0].id, rs[0].r);
      assert Legal(s, rs[0].id, rs[0].r) by {
        assert NonNegative(rs[0].r) && NonNegative(s.alloc[rs[0].id]);
      }
      HandleKeepsConsistent(s, rs[0].id, rs[0].r, total, max);
      assert N(t) == N(s) && |t.avail| == |s.avail|;
      NonNegativeRunsAreLegal(t, rs[1..], total, max);
    }
  }
}
