/** The tables of 操作系统算法/银行家算法/banker.c and the loops over them. */
module Banker {
  import opened BankerSpec

  ghost function Rows(a: array2<int>): (r: seq<Vec>)
    reads a
    ensures |r| == a.Length0
    ensures forall i :: 0 <= i < |r| ==> |r[i]| == a.Length1
    ensures forall i, j :: 0 <= i < |r| && 0 <= j < a.Length1 ==> r[i][j] == a[i, j]
  {
    seq(a.Length0, i requires 0 <= i < a.Length0 reads a =>
      seq(a.Length1, j requires 0 <= j < a.Length1 reads a => a[i, j]))
  }

  /** One row of the loop that ends init_system. */
  method ChargeRow(av: array<int>, al: array2<int>, ne: array2<int>, i: nat)
    requires av.Length == al.Length1 == ne.Length1 && i < al.Length0 == ne.Length0 && al != ne
    modifies av, ne
    ensures forall b :: 0 <= b < av.Length ==> av[b] == old(av[b]) - al[i, b]
    ensures forall a, b :: 0 <= a < ne.Length0 && 0 <= b < ne.Length1 ==>
      ne[a, b] == old(ne[a, b]) - if a == i then al[a, b] else 0
  {
    for j := 0 to av.Length
      invariant forall b :: 0 <= b < av.Length ==> av[b] == old(av[b]) - if b < j then al[i, b] else 0
      invariant forall a, b :: 0 <= a < ne.Length0 && 0 <= b < ne.Length1 ==>
        ne[a, b] == old(ne[a, b]) - if a == i && b < j then al[a, b] else 0
    {
      ne[i, j] := ne[i, j] - al[i, j];
      av[j] := av[j] - al[i, j];
    }
  }

  /** The tables that init_system fills in. */
  method Tables(total: Vec, max: seq<Vec>, held: seq<Vec>)
      returns (av: array<int>, al: array2<int>, ne: array2<int>)
    requires |max| == |held|
    requires forall i :: 0 <= i < |max| ==> |max[i]| == |held[i]| == |total|
    ensures fresh(av) && fresh(al) && fresh(ne) && al != ne
    ensures av.Length == al.Length1 == ne.Length1 == |total| && al.Length0 == ne.Length0 == |max|
    ensures forall a, b :: 0 <= a < |max| && 0 <= b < |total| ==> al[a, b] == held[a][b]
    ensures forall a, b :: 0 <= a < |max| && 0 <= b < |total| ==> ne[a, b] == max[a][b] - held[a][b]
    ensures forall b :: 0 <= b < |total| ==> av[b] + Held(held, b) == total[b]
  {
    var n, m := |max|, |total|;
    av := new int[m](j requires 0 <= j < m => total[j]);
    al := new int[n, m]((i, j) requires 0 <= i < n && 0 <= j < m => held[i][j]);
    ne := new int[n, m]((i, j) requires 0 <= i < n && 0 <= j < m => max[i][j]);
    for i := 0 to n
      invariant forall a, b :: 0 <= a < n && 0 <= b < m ==> al[a, b] == held[a][b]
      invariant forall a, b :: 0 <= a < n && 0 <= b < m ==> ne[a, b] == max[a][b] - if a < i then held[a][b] else 0
      invariant forall b :: 0 <= b < m ==> av[b] + Held(held[..i], b) == total[b]
    {
      ChargeRow(av, al, ne, i);
      assert held[..i + 1][..i] == held[..i];
    }
    assert held[..n] == held;
  }

  class Bank {
    const n: nat                  // progress_num
    const m: nat                  // resource_num
    const available: array<int>
    const allocate: array2<int>
    const need: array2<int>
    const work: array<int>
    const finish: array<bool>
    const safe: array<nat>

    /** init_system: `total` is what there is, `max` what each process may ask for, `held` what it
        holds from the start. */
    constructor (total: Vec, max: seq<Vec>, held: seq<Vec>)
      requires |max| == |held|
      requires forall i :: 0 <= i < |max| ==> |max[i]| == |held[i]| == |total|
      ensures Valid() && n == |max| && m == |total|
      ensures Sys().alloc == held
      ensures forall i :: 0 <= i < n ==> Sys().need[i] == Sub(max[i], held[i])
      ensures forall j :: 0 <= j < m ==> Sys().avail[j] + Held(held, j) == total[j]
    {
      var nn, mm := |max|, |total|;
      n, m := nn, mm;
      var av, al, ne := Tables(total, max, held);
      available, allocate, need := av, al, ne;
      work := new int[mm](_ => 0);
      finish := new bool[nn](_ => false);
      safe := new nat[nn](_ => 0);
      new;
      assert forall i :: 0 <= i < n ==> Rows(allocate)[i] == held[i];
    }

    ghost predicate Valid() {
      && available.Length == work.Length == m && available != work
      && allocate.Length0 == need.Length0 == n && allocate.Length1 == need.Length1 == m && allocate != need
      && finish.Length == safe.Length == n
    }

    ghost function Sys(): (s: System)
      requires Valid()
      reads available, allocate, need
      ensures WellSized(s) && N(s) == n && |s.avail| == m
    {
      System(available[..], Rows(allocate), Rows(need))
    }

    /** The arrays hold the state of a scan. */
    ghost predicate Shows(c: Scan, count: nat)
      requires Valid()
      reads work, finish, safe
    {
      && work[..] == c.work
      && (forall k :: 0 <= k < n ==> (finish[k] <==> k in c.done))
      && count == |c.order| <= n && safe[..count] == c.order
    }

    /** The inner loop of is_safe: does the need of process i fit into Work? */
    method Enough(i: nat) returns (r: bool)
      requires Valid() && i < n
      ensures r == Fits(Sys().need[i], work[..])
    {
      var j := 0;
      while j < m && need[i, j] <= work[j]
        invariant 0 <= j <= m && forall k :: 0 <= k < j ==> need[i, k] <= work[k]
      {
        j := j + 1;
      }
      r := j == m;
      assert j < m ==> Sys().need[i][j] > work[..][j];
    }

    /** The part of is_safe that lets process i finish. */
    method LetFinish(i: nat, count: nat, ghost c: Scan)
      requires Valid() && i < n && count < n && Shows(c, count) && |c.work| == m
      modifies work, finish, safe
      ensures Shows(Scan(Add(c.work, Sys().alloc[i]), c.done + {i}, c.order + [i]), count + 1)
    {
      ghost var w := work[..];
      safe[count] := i;
      for j := 0 to m
        invariant forall k :: 0 <= k < m ==> work[k] == w[k] + if k < j then allocate[i, k] else 0
        invariant safe[..count] == c.order && safe[count] == i
        invariant forall k :: 0 <= k < n ==> (finish[k] <==> k in c.done)
      {
        work[j] := work[j] + allocate[i, j];
      }
      finish[i] := true;
      assert work[..] == Add(w, Sys().alloc[i]);
      assert safe[..count + 1] == safe[..count] + [i];
    }

    /** The loop body of is_safe for process i. */
    method Turn(i: nat, count: nat, ghost c: Scan) returns (took: bool)
      requires Valid() && i < n && Shows(c, count) && ScanOk(Sys(), c) && |c.work| == m
      modifies work, finish, safe
      ensures Shows(Visit(Sys(), c, i), if took then count + 1 else count)
      ensures ScanOk(Sys(), Visit(Sys(), c, i))
      ensures if took then i !in c.done && i in Visit(Sys(), c, i).done else Visit(Sys(), c, i) == c
    {
      hide Rows, WellSized, CanFinish, WorkAfter;
      ghost var s := Sys();
      took := false;
      if !finish[i] {
        took := Enough(i);
        if took {
          VisitOk(s, c, i);
          OneMoreFits(s, c.order, i);
          LetFinish(i, count, c);
        }
      }
    }

    /** is_safe: the scan that sets its own index back when the last process finishes. */
    method IsSafe() returns (ok: bool)
      requires Valid()
      modifies work, finish, safe
      ensures ok == FoundSafe(Sys())
      ensures ok ==> CanFinish(Sys(), safe[..]) && Safe(Sys())
    {
      hide Rows, WellSized, CanFinish, WorkAfter, Visit, Add, Fits;
      ghost var s := Sys();
      Reset();
      var count := 0;
      var i := 0;
      ghost var c, again := Start(s), false;
      StartOk(s);
      ghost var first := Sweep(s, c, 0);
      while i < n
        invariant 0 <= i <= n && |c.work| == |s.avail| && Shows(c, count) && ScanOk(s, c) && Sys() == s
        invariant again ==> n > 0 && n - 1 in first.done && Sweep(s, c, i) == Sweep(s, first, 0) && n - 1 in c.done
        invariant !again ==> Sweep(s, c, i) == first && (n > 0 ==> n - 1 !in c.done)
        decreases !again, n - i
      {
        var took := Turn(i, count, c);
        VisitGrows(s, c, i);
        c := Visit(s, c, i);
        if took {
          count := count + 1;
          if i == n - 1 {
            i := -1;
            again := true;
          }
        }
        i := i + 1;
      }
      assert c == TwoSweeps(s);
      ok := AllFinished(c, count);
      if ok {
        assert safe[..] == c.order;
      }
    }

    method Reset()
      requires Valid()
      modifies work, finish
      ensures Shows(Start(Sys()), 0)
    {
      for j := 0 to m
        invariant forall k :: 0 <= k < j ==> work[k] == available[k]
      {
        work[j] := available[j];
      }
      for i := 0 to n
        invariant forall k :: 0 <= k < i ==> !finish[k]
        invariant work[..] == available[..]
      {
        finish[i] := false;
      }
    }

    method AllFinished(ghost c: Scan, count: nat) returns (ok: bool)
      requires Valid() && Shows(c, count) && ScanOk(Sys(), c)
      ensures ok == (|c.order| == n)
    {
      hide CanFinish, Rows;
      ok := true;
      for i := 0 to n
        invariant ok == forall k :: 0 <= k < i ==> finish[k]
      {
        if !finish[i] {
          ok := false;
          OneMoreFits(Sys(), c.order, i);
          return;
        }
      }
      AllIn(Sys(), c.order);
    }

    /** What the tables hold after process id was given `r`, compared with what they held before. */
    ghost predicate Booked(av: Vec, al: seq<Vec>, ne: seq<Vec>, id: nat, r: Vec)
      requires Valid() && |av| == |r| == m && |al| == |ne| == n
      requires forall a :: 0 <= a < n ==> |al[a]| == |ne[a]| == m
      reads available, allocate, need
    {
      && (forall j :: 0 <= j < m ==> available[j] == av[j] - r[j])
      && (forall a, j :: 0 <= a < n && 0 <= j < m ==> allocate[a, j] == al[a][j] + if a == id then r[j] else 0)
      && (forall a, j :: 0 <= a < n && 0 <= j < m ==> need[a, j] == ne[a][j] - if a == id then r[j] else 0)
    }

    /** try_allocate: it books the request even while it finds that it must be refused. */
    method TryAllocate(id: nat, request: array<int>) returns (ret: bool)
      requires Valid() && id < n && request.Length == m && request != available
      modifies available, allocate, need
      ensures request[..] == old(request[..])
      ensures ret == forall j :: 0 <= j < m ==> request[j] <= old(need[id, j]) && request[j] <= old(available[j])
      ensures Sys() == Grant(old(Sys()), id, request[..])
      ensures Booked(old(available[..]), old(Rows(allocate)), old(Rows(need)), id, request[..])
    {
      ghost var s, r := Sys(), request[..];
      ret := Book(id, request, s);
      SameTables(available[..], Rows(allocate), Rows(need), Grant(s, id, r));
    }

    method Book(id: nat, request: array<int>, ghost s: System) returns (ret: bool)
      requires Valid() && id < n && request.Length == m && request != available
      requires WellSized(s) && N(s) == n && |s.avail| == m
      requires forall k :: 0 <= k < m ==> available[k] == s.avail[k]
      requires forall a, k :: 0 <= a < n && 0 <= k < m ==> allocate[a, k] == s.alloc[a][k]
      requires forall a, k :: 0 <= a < n && 0 <= k < m ==> need[a, k] == s.need[a][k]
      modifies available, allocate, need
      ensures request[..] == old(request[..])
      ensures ret == forall k :: 0 <= k < m ==> request[k] <= s.need[id][k] && request[k] <= s.avail[k]
      ensures forall k :: 0 <= k < m ==> available[k] == s.avail[k] - request[k]
      ensures forall a, k :: 0 <= a < n && 0 <= k < m ==>
        allocate[a, k] == s.alloc[a][k] + if a == id then request[k] else 0
      ensures forall a, k :: 0 <= a < n && 0 <= k < m ==>
        need[a, k] == s.need[a][k] - if a == id then request[k] else 0
    {
      ret := true;
      for i := 0 to m
        invariant request[..] == old(request[..])
        invariant ret == forall k :: 0 <= k < i ==> request[k] <= s.need[id][k] && request[k] <= s.avail[k]
        invariant forall k :: 0 <= k < m ==> available[k] == s.avail[k] - if k < i then request[k] else 0
        invariant forall a, k :: 0 <= a < n && 0 <= k < m ==>
          allocate[a, k] == s.alloc[a][k] + if a == id && k < i then request[k] else 0
        invariant forall a, k :: 0 <= a < n && 0 <= k < m ==>
          need[a, k] == s.need[a][k] - if a == id && k < i then request[k] else 0
      {
        if request[i] > need[id, i] {
          ret := false;
        } else if request[i] > available[i] {
          ret := false;
        }
        available[i] := available[i] - request[i];
        allocate[id, i] := allocate[id, i] + request[i];
        need[id, i] := need[id, i] - request[i];
      }
    }

    /** return_back. */
    method ReturnBack(id: nat, request: array<int>)
      requires Valid() && id < n && request.Length == m && request != available
      modifies available, allocate, need
      ensures Sys() == TakeBack(old(Sys()), id, request[..]) && request[..] == old(request[..])
    {
      ghost var s, r := Sys(), request[..];
      Unbook(id, request, s);
      SameTables(available[..], Rows(allocate), Rows(need), TakeBack(s, id, r));
    }

    method Unbook(id: nat, request: array<int>, ghost s: System)
      requires Valid() && id < n && request.Length == m && request != available
      requires WellSized(s) && N(s) == n && |s.avail| == m
      requires forall k :: 0 <= k < m ==> available[k] == s.avail[k]
      requires forall a, k :: 0 <= a < n && 0 <= k < m ==> allocate[a, k] == s.alloc[a][k]
      requires forall a, k :: 0 <= a < n && 0 <= k < m ==> need[a, k] == s.need[a][k]
      modifies available, allocate, need
      ensures request[..] == old(request[..])
      ensures forall k :: 0 <= k < m ==> available[k] == s.avail[k] + request[k]
      ensures forall a, k :: 0 <= a < n && 0 <= k < m ==>
        allocate[a, k] == s.alloc[a][k] - if a == id then request[k] else 0
      ensures forall a, k :: 0 <= a < n && 0 <= k < m ==>
        need[a, k] == s.need[a][k] + if a == id then request[k] else 0
    {
      for i := 0 to m
        invariant request[..] == old(request[..])
        invariant forall k :: 0 <= k < m ==> available[k] == s.avail[k] + if k < i then request[k] else 0
        invariant forall a, k :: 0 <= a < n && 0 <= k < m ==>
          allocate[a, k] == s.alloc[a][k] - if a == id && k < i then request[k] else 0
        invariant forall a, k :: 0 <= a < n && 0 <= k < m ==>
          need[a, k] == s.need[a][k] + if a == id && k < i then request[k] else 0
      {
        available[i] := available[i] + request[i];
        allocate[id, i] := allocate[id, i] - request[i];
        need[id, i] := need[id, i] + request[i];
      }
    }

    /** Menu choice 2 of main: grant, or restore the tables exactly. */
    method HandleRequest(id: nat, request: array<int>) returns (granted: bool)
      requires Valid() && id < n && request.Length == m && request != available && request != work
      modifies available, allocate, need, work, finish, safe
      ensures request[..] == old(request[..])
      ensures granted == (
        && (forall j :: 0 <= j < m ==> request[j] <= old(need[id, j]) && request[j] <= old(available[j]))
        && FoundSafe(Grant(old(Sys()), id, request[..])))
      ensures granted ==> Booked(old(available[..]), old(Rows(allocate)), old(Rows(need)), id, request[..])
      ensures !granted ==> Sys() == old(Sys())
      ensures Sys() == Handle(old(Sys()), id, request[..])
    {
      hide Rows, Grant, TakeBack, FoundSafe;
      ghost var s, r := Sys(), request[..];
      granted := TryAllocate(id, request);
      if granted {
        granted := IsSafe();
      }
      if !granted {
        assert Sys() == Grant(s, id, r);
        TakeBackGrant(s, id, r);
        ReturnBack(id, request);
      }
    }

    /** Any sequence of requests, served one after the other. */
    method Serve(requests: seq<Request>)
      requires Valid() && LegalRun(Sys(), requests)
      modifies available, allocate, need, work, finish, safe
      ensures Sys() == Served(old(Sys()), requests)
    {
      hide Rows, Handle, WellSized;
      ghost var s := Sys();
      for i := 0 to |requests|
        invariant LegalRun(Sys(), requests[i..]) && Served(Sys(), requests[i..]) == Served(s, requests)
      {
        var q := requests[i];
        assert requests[i..][0] == q && requests[i..][1..] == requests[i + 1..];
        var request := new int[m](j requires 0 <= j < |q.r| => q.r[j]);
        assert request[..] == q.r;
        var granted := HandleRequest(q.id, request);
      }
    }
  }

  lemma SameTables(avail: Vec, alloc: seq<Vec>, need: seq<Vec>, t: System)
    requires |avail| == |t.avail| && |alloc| == |t.alloc| && |need| == |t.need|
    requires forall k :: 0 <= k < |avail| ==> avail[k] == t.avail[k]
    requires forall a :: 0 <= a < |alloc| ==> |alloc[a]| == |t.alloc[a]|
    requires forall a :: 0 <= a < |need| ==> |need[a]| == |t.need[a]|
    requires forall a, k :: 0 <= a < |alloc| && 0 <= k < |alloc[a]| ==> alloc[a][k] == t.alloc[a][k]
    requires forall a, k :: 0 <= a < |need| && 0 <= k < |need[a]| ==> need[a][k] == t.need[a][k]
    ensures System(avail, alloc, need) == t
  {
    assert forall a :: 0 <= a < |alloc| ==> alloc[a] == t.alloc[a];
    assert forall a :: 0 <= a < |need| ==> need[a] == t.need[a];
  }

  lemma VisitGrows(s: System, c: Scan, i: nat)
    requires WellSized(s) && |c.work| == |s.avail| && i < N(s)
    ensures c.done <= Visit(s, c, i).done <= c.done + {i}
  {}
}
