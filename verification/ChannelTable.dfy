/** The registration tables behind one event loop: the channel map of
    httptest-geektime/lib/channel_map.c, the slot table of httptest-geektime/lib/poll_dispatcher.c, and
    the handlers in httptest-geektime/lib/event_loop.c that must keep the two in step. */
module ChannelTable {
  import opened Options
  import opened Bits
  import opened Reactor

  const INIT_POLL_SIZE: nat := 1024

  /** struct channel, as far as registration looks at it. */
  class Channel {
    const fd: int
    var events: int

    constructor (fd: int, events: int)
      ensures this.fd == fd && this.events == events
    {
      this.fd, this.events := fd, events;
    }
  }

  datatype PollFd = PollFd(fd: int, events: int)

  /** EVENT_READ (0x02) becomes POLLRDNORM (0x40), EVENT_WRITE (0x04) becomes POLLWRNORM (0x100). */
  function Translate(events: int): int {
    (if (events / 2) % 2 == 1 then 0x40 else 0) + (if (events / 4) % 2 == 1 then 0x100 else 0)
  }

  /** Bit by bit: of the interests, read (0x02) asks for 0x40 and write (0x04) for 0x100, and no other bit of
      the mask counts. */
  lemma TranslateIs(events: nat)
    ensures Translate(events) == (if BitAnd(events, 0x02) != 0 then 0x40 else 0) + (if BitAnd(events, 0x04) != 0 then 0x100 else 0)
  {
    hide BitAnd;
    LowBit(events / 2);
    AndTwice(events, 1);
    LowBit(events / 2 / 2);
    AndTwice(events / 2, 1);
    AndTwice(events, 2);
    Quarter(events);
  }

  lemma Quarter(x: nat)
    ensures x / 2 / 2 == x / 4
  {}

  lemma LowBit(x: nat)
    ensures BitAnd(x, 1) == x % 2
  {
    assert BitAnd(x / 2, 0) == 0;
  }

  lemma AndTwice(x: nat, y: nat)
    ensures BitAnd(x, 2 * y) == 2 * BitAnd(x / 2, y)
  {
    if x > 0 && y > 0 {
      assert 2 * y % 2 == 0 && 2 * y / 2 == y;
      assert BitAnd(x, 2 * y) == 0 + 2 * BitAnd(x / 2, 2 * y / 2);
    }
  }

  /** File descriptors that are registered, with the mask their channel had at its last add or update. */
  type Live = map<int, int>

  /** Exactly the live descriptors stand in the slot table, each in one slot, with the right mask. */
  ghost predicate SlotsOk(slots: seq<PollFd>, live: Live) {
    && (forall i :: 0 <= i < |slots| && slots[i].fd >= 0 ==>
          slots[i].fd in live && slots[i].events == Translate(live[slots[i].fd]))
    && (forall i, j :: 0 <= i < j < |slots| && slots[i].fd >= 0 ==> slots[i].fd != slots[j].fd)
    && (forall fd :: fd in live ==> fd >= 0 && HasSlot(slots, fd))
  }

  ghost predicate HasSlot(slots: seq<PollFd>, fd: int) {
    exists i :: 0 <= i < |slots| && slots[i].fd == fd
  }

  ghost predicate HasFree(slots: seq<PollFd>) {
    exists i :: 0 <= i < |slots| && slots[i].fd < 0
  }

  /** Exactly the known descriptors have a channel in the map, and it is a channel of that descriptor. */
  ghost predicate EntriesOk(entries: seq<Channel?>, known: set<int>) {
    && (forall fd :: 0 <= fd < |entries| ==> (entries[fd] != null <==> fd in known))
    && (forall fd :: 0 <= fd < |entries| && entries[fd] != null ==> entries[fd].fd == fd)
    && (forall fd :: fd in known ==> 0 <= fd < |entries|)
  }

  /** A new descriptor takes the first free slot, if there is one. */
  ghost predicate Placed(s: seq<PollFd>, s': seq<PollFd>, channel: Channel)
    reads channel
  {
    if forall k :: 0 <= k < |s| ==> s[k].fd >= 0 then s' == s
    else exists i :: (
      && 0 <= i < |s| && s[i].fd < 0 && (forall k :: 0 <= k < i ==> s[k].fd >= 0)
      && s' == s[i := PollFd(channel.fd, Translate(channel.events))])
  }

  /** The slot of the descriptor is free, and every other slot is as it was. */
  ghost predicate Cleared(s: seq<PollFd>, s': seq<PollFd>, fd: int) {
    |s'| == |s| && forall i :: 0 <= i < |s| ==> if fd >= 0 && s[i].fd == fd then s'[i].fd == -1 else s'[i] == s[i]
  }

  lemma NothingCleared(s: seq<PollFd>, fd: int)
    requires fd < 0 || !HasSlot(s, fd)
    ensures Cleared(s, s, fd)
  {}

  /** The slot of the descriptor carries the mask of these events, and every other slot is as it was. */
  ghost predicate Masked(s: seq<PollFd>, s': seq<PollFd>, fd: int, events: int) {
    && |s'| == |s|
    && forall i :: 0 <= i < |s| ==> s'[i] == if fd >= 0 && s[i].fd == fd then PollFd(fd, Translate(events)) else s[i]
  }

  lemma SlotUnique(slots: seq<PollFd>, live: Live, fd: int)
    requires SlotsOk(slots, live)
    ensures forall i, j :: 0 <= i < |slots| && 0 <= j < |slots| && slots[i].fd == slots[j].fd == fd >= 0 ==> i == j
  {}

  // ---- capacity of the slot table ----

  ghost function Fds(slots: seq<PollFd>): set<int> {
    set i | 0 <= i < |slots| && slots[i].fd >= 0 :: slots[i].fd
  }

  lemma FreeSnoc(slots: seq<PollFd>)
    requires slots != []
    ensures HasFree(slots) <==> HasFree(slots[..|slots| - 1]) || slots[|slots| - 1].fd < 0
  {}

  lemma {:induction false} CountFds(slots: seq<PollFd>)
    requires forall i, j :: 0 <= i < j < |slots| && slots[i].fd >= 0 ==> slots[i].fd != slots[j].fd
    ensures |Fds(slots)| <= |slots|
    ensures |Fds(slots)| == |slots| <==> !HasFree(slots)
  {
    if slots != [] {
      var n := |slots| - 1;
      var front := slots[..n];
      CountFds(front);
      FreeSnoc(slots);
      FdsSnoc(slots);
      assert slots[n].fd >= 0 ==> slots[n].fd !in Fds(front);
      hide Fds, HasFree;
    }
  }

  lemma FdsSnoc(slots: seq<PollFd>)
    requires slots != []
    ensures Fds(slots) == Fds(slots[..|slots| - 1]) + (if slots[|slots| - 1].fd >= 0 then {slots[|slots| - 1].fd} else {})
  {}

  /** Another descriptor finds a slot exactly when fewer descriptors are live than there are slots. */
  lemma FreeSlotIff(slots: seq<PollFd>, live: Live)
    requires SlotsOk(slots, live)
    ensures HasFree(slots) <==> |live| < |slots|
  {
    CountFds(slots);
    assert Fds(slots) == live.Keys by {
      forall fd | fd in live ensures fd in Fds(slots) {
        assert HasSlot(slots, fd);
      }
    }
  }

  // ---- the slot table ----

  /** poll_add: the first free slot; a full table drops the descriptor without a word, since the test
      after the loop compares with > where the index can at most be equal. */
  method PollAdd(slots: array<PollFd>, channel: Channel) returns (placed: bool)
    modifies slots
    ensures placed == HasFree(old(slots[..]))
    ensures !placed ==> slots[..] == old(slots[..])
    ensures placed ==> exists i :: (
      && 0 <= i < slots.Length && old(slots[i].fd) < 0 && (forall k :: 0 <= k < i ==> old(slots[k].fd) >= 0)
      && slots[..] == old(slots[..])[i := PollFd(channel.fd, Translate(channel.events))])
  {
    var i := 0;
    while i < slots.Length
      invariant 0 <= i <= slots.Length && slots[..] == old(slots[..])
      invariant forall k :: 0 <= k < i ==> slots[k].fd >= 0
    {
      if slots[i].fd < 0 {
        assert old(slots[..])[i].fd < 0;
        slots[i] := PollFd(channel.fd, Translate(channel.events));
        return true;
      }
      i := i + 1;
    }
    return false;
  }

  /** poll_del and poll_update walk to the slot of a descriptor. */
  method FindSlot(slots: array<PollFd>, fd: int) returns (i: nat)
    ensures i <= slots.Length
    ensures i < slots.Length ==> slots[i].fd == fd
    ensures i == slots.Length ==> !HasSlot(slots[..], fd)
  {
    i := 0;
    while i < slots.Length && slots[i].fd != fd
      invariant 0 <= i <= slots.Length
      invariant forall k :: 0 <= k < i ==> slots[k].fd != fd
    {
      i := i + 1;
    }
  }

  lemma SlotAdded(slots: seq<PollFd>, live: Live, i: nat, fd: int, events: int)
    requires SlotsOk(slots, live) && i < |slots| && slots[i].fd < 0 && fd >= 0 && fd !in live
    ensures SlotsOk(slots[i := PollFd(fd, Translate(events))], live[fd := events])
  {
    var s' := slots[i := PollFd(fd, Translate(events))];
    forall x | x in live[fd := events] ensures x >= 0 && HasSlot(s', x) {
      if x == fd {
        assert s'[i].fd == fd;
      } else {
        var k :| 0 <= k < |slots| && slots[k].fd == x;
        assert s'[k].fd == x;
      }
    }
  }

  lemma SlotRemoved(slots: seq<PollFd>, live: Live, i: nat, fd: int)
    requires SlotsOk(slots, live) && i < |slots| && slots[i].fd == fd >= 0
    ensures SlotsOk(slots[i := PollFd(-1, slots[i].events)], live - {fd})
  {
    var s' := slots[i := PollFd(-1, slots[i].events)];
    forall x | x in live - {fd} ensures x >= 0 && HasSlot(s', x) {
      var k :| 0 <= k < |slots| && slots[k].fd == x;
      assert s'[k].fd == x;
    }
  }

  lemma SlotUpdated(slots: seq<PollFd>, live: Live, i: nat, fd: int, events: int)
    requires SlotsOk(slots, live) && i < |slots| && slots[i].fd == fd >= 0
    ensures SlotsOk(slots[i := PollFd(fd, Translate(events))], live[fd := events])
  {
    var s' := slots[i := PollFd(fd, Translate(events))];
    forall x | x in live[fd := events] ensures x >= 0 && HasSlot(s', x) {
      var k :| 0 <= k < |slots| && slots[k].fd == x;
      assert s'[k].fd == x;
    }
  }

  lemma SlotMissing(slots: seq<PollFd>, live: Live, fd: int)
    requires SlotsOk(slots, live) && !HasSlot(slots, fd)
    ensures fd !in live && live - {fd} == live
  {}

  lemma SlotIsLive(slots: seq<PollFd>, live: Live, i: nat)
    requires SlotsOk(slots, live) && i < |slots| && slots[i].fd >= 0
    ensures slots[i].fd in live
  {}

  lemma EntryIffKnown(entries: seq<Channel?>, known: set<int>, fd: int)
    requires EntriesOk(entries, known)
    ensures 0 <= fd < |entries| ==> (entries[fd] != null <==> fd in known) && (fd in known ==> entries[fd].fd == fd)
    ensures fd in known ==> 0 <= fd < |entries|
  {}

  lemma EntryAdded(entries: seq<Channel?>, known: set<int>, channel: Channel)
    requires EntriesOk(entries, known) && 0 <= channel.fd < |entries|
    ensures EntriesOk(entries[channel.fd := channel], known + {channel.fd})
  {}

  lemma EntryRemoved(entries: seq<Channel?>, known: set<int>, fd: int)
    requires EntriesOk(entries, known) && 0 <= fd < |entries|
    ensures EntriesOk(entries[fd := null], known - {fd})
  {}

  /** Adding a new descriptor, as HandleAdd does it, leaves map and slot table in agreement about some
      registrations if and only if the slot table was not full: a full one is left alone by PollAdd while
      the map gets its entry. */
  lemma AddAgreesIff(slots: seq<PollFd>, entries: seq<Channel?>, live: Live, channel: Channel, slots': seq<PollFd>)
    requires SlotsOk(slots, live) && EntriesOk(entries, live.Keys) && 0 <= channel.fd < |entries| && channel.fd !in live
    requires !HasFree(slots) ==> slots' == slots
    requires HasFree(slots) ==> exists i :: (
      && 0 <= i < |slots| && slots[i].fd < 0
      && slots' == slots[i := PollFd(channel.fd, Translate(channel.events))])
    ensures (exists live': Live :: SlotsOk(slots', live') && EntriesOk(entries[channel.fd := channel], live'.Keys))
       <==> |live| < |slots|
  {
    var fd, entries' := channel.fd, entries[channel.fd := channel];
    FreeSlotIff(slots, live);
    if HasFree(slots) {
      var i :| 0 <= i < |slots| && slots[i].fd < 0 && slots' == slots[i := PollFd(fd, Translate(channel.events))];
      SlotAdded(slots, live, i, fd, channel.events);
      EntryAdded(entries, live.Keys, channel);
      assert live[fd := channel.events].Keys == live.Keys + {fd};
    } else {
      NoSlot(slots, live, fd);
      forall live': Live | SlotsOk(slots, live') ensures !EntriesOk(entries', live'.Keys) {
        SlotMissing(slots, live', fd);
        assert entries'[fd] != null;
      }
    }
  }

  lemma NoSlot(slots: seq<PollFd>, live: Live, fd: int)
    requires SlotsOk(slots, live) && fd >= 0 && fd !in live
    ensures !HasSlot(slots, fd)
  {}

  // ---- what the changes mean ----

  /** The registrations in the slot table, the descriptors that only the map knows because the slot table
      was full when they came, and the size of the map. */
  datatype Reg = Reg(live: Live, dropped: set<int>, size: nat)

  function Known(r: Reg): set<int> { r.live.Keys + r.dropped }

  lemma KnownMore(r: Reg, fd: int, events: int)
    requires fd !in Known(r) && r.live.Keys !! r.dropped
    ensures var r' := r.(live := r.live[fd := events]); Known(r') == Known(r) + {fd} && r'.live.Keys !! r'.dropped
    ensures var r' := r.(dropped := r.dropped + {fd}); Known(r') == Known(r) + {fd} && r'.live.Keys !! r'.dropped
    ensures fd !in r.live
  {}

  /** The size to which the map grows for a slot. */
  function Doubled(n: nat, slot: nat): (m: nat)
    requires n > 0
    ensures m > slot && m >= n
    decreases slot - n
  {
    if n > slot then n else Doubled(2 * n, slot)
  }

  function Grown(size: nat, slot: nat): (m: nat)
    ensures m > slot && m >= size && (slot < size ==> m == size)
  {
    if slot < size then size else Doubled(if size > 0 then size else 32, slot)
  }

  /** A map that is too small doubles, starting from 32 entries, and no more often than it must. */
  lemma GrownIs(size: nat, slot: nat) returns (k: nat)
    requires slot >= size
    ensures Grown(size, slot) == (if size > 0 then size else 32) * Pow2(k) > slot
    ensures k > 0 ==> (if size > 0 then size else 32) * Pow2(k - 1) <= slot
  {
    k := Doublings(if size > 0 then size else 32, slot);
  }

  lemma {:induction false} Doublings(n: nat, slot: nat) returns (k: nat)
    requires n > 0
    ensures Doubled(n, slot) == n * Pow2(k) && (k > 0 ==> n * Pow2(k - 1) <= slot)
    decreases slot - n
  {
    if n > slot {
      k := 0;
    } else {
      var m := Doublings(2 * n, slot);
      k := m + 1;
      TwiceAs(n, Pow2(m));
      if m > 0 {
        TwiceAs(n, Pow2(m - 1));
      }
    }
  }

  lemma TwiceAs(n: nat, p: nat)
    ensures 2 * n * p == n * (2 * p)
  {}

  lemma GrownFits(size: nat, fd: nat)
    ensures Grown(size, fd) > fd && (fd < size ==> Grown(size, fd) == size)
  {}

  /** The state after one change; `ok` says whether the map can grow if it must. */
  function Register(r: Reg, c: Change, ok: bool): Reg {
    if c.fd < 0 then r
    else if c.kind == 1 then
      if c.fd in Known(r) || (c.fd >= r.size && !ok) then r
      else if |r.live| < INIT_POLL_SIZE then r.(live := r.live[c.fd := c.events], size := Grown(r.size, c.fd))
      else r.(dropped := r.dropped + {c.fd}, size := Grown(r.size, c.fd))
    else if c.kind == 2 then r.(live := r.live - {c.fd}, dropped := r.dropped - {c.fd})
    else if c.kind == 3 then (if c.fd in r.live then r.(live := r.live[c.fd := c.events]) else r)
    else r
  }

  /** What the C code does not survive: a removal of an unknown descriptor within the map, where it follows
      a null pointer, and an update beyond the map, where it reads outside of it. */
  predicate Legal(r: Reg, c: Change) {
    && (c.kind == 2 ==> c.fd in Known(r) || !(0 <= c.fd < r.size))
    && (c.kind == 3 ==> c.fd < r.size)
  }

  ghost predicate LegalRun(r: Reg, cs: seq<Change>, oks: seq<bool>)
    requires |cs| == |oks|
    decreases |cs|
  {
    cs == [] || (Legal(r, cs[0]) && LegalRun(Register(r, cs[0], oks[0]), cs[1..], oks[1..]))
  }

  ghost function Registered(r: Reg, cs: seq<Change>, oks: seq<bool>): Reg
    requires |cs| == |oks|
    decreases |cs|
  {
    if cs == [] then r else Registered(Register(r, cs[0], oks[0]), cs[1..], oks[1..])
  }

  /** Map and slot table part ways exactly when a new descriptor that fits the map finds all slots taken. */
  lemma DropsIff(r: Reg, c: Change, ok: bool)
    requires r.dropped == {}
    ensures Register(r, c, ok).dropped != {} <==> Overflows(r, c, ok)
  {}

  /** No new descriptor that the map can take comes while all slots are taken. */
  ghost predicate NeverFull(r: Reg, cs: seq<Change>, oks: seq<bool>)
    requires |cs| == |oks|
    decreases |cs|
  {
    cs == [] || (!Overflows(r, cs[0], oks[0]) && NeverFull(Register(r, cs[0], oks[0]), cs[1..], oks[1..]))
  }

  predicate Overflows(r: Reg, c: Change, ok: bool) {
    c.kind == 1 && c.fd >= 0 && c.fd !in Known(r) && (c.fd < r.size || ok) && |r.live| >= INIT_POLL_SIZE
  }

  /** After every prefix of the run, the slot table has what the map has. */
  ghost predicate AgreeAllAlong(r: Reg, cs: seq<Change>, oks: seq<bool>)
    requires |cs| == |oks|
  {
    forall n :: 0 <= n <= |cs| ==> Registered(r, cs[..n], oks[..n]).dropped == {}
  }

  /** The two tables agree all along a run if and only if it never finds the slots all taken. */
  lemma {:induction false} AgreeIff(r: Reg, cs: seq<Change>, oks: seq<bool>)
    requires |cs| == |oks| && r.dropped == {}
    ensures AgreeAllAlong(r, cs, oks) <==> NeverFull(r, cs, oks)
    ensures NeverFull(r, cs, oks) ==> Registered(r, cs, oks).dropped == {}
    decreases |cs|
  {
    if cs != [] {
      var r' := Register(r, cs[0], oks[0]);
      DropsIff(r, cs[0], oks[0]);
      hide Register;
      PrefixStep(r, cs, oks);
      if r'.dropped == {} {
        AgreeIff(r', cs[1..], oks[1..]);
      }
    }
  }

  lemma PrefixStep(r: Reg, cs: seq<Change>, oks: seq<bool>)
    requires |cs| == |oks| && cs != []
    ensures var r' := Register(r, cs[0], oks[0]);
      AgreeAllAlong(r, cs, oks) <==> r.dropped == {} && r'.dropped == {} && AgreeAllAlong(r', cs[1..], oks[1..])
  {
    hide Register;
    var r' := Register(r, cs[0], oks[0]);
    forall n | 1 <= n <= |cs| ensures Registered(r, cs[..n], oks[..n]) == Registered(r', cs[1..][..n - 1], oks[1..][..n - 1]) {
      assert cs[..n][1..] == cs[1..][..n - 1] && oks[..n][1..] == oks[1..][..n - 1];
    }
    if AgreeAllAlong(r, cs, oks) {
      assert Registered(r, cs[..0], oks[..0]) == r;
      forall n | 0 <= n <= |cs[1..]| ensures Registered(r', cs[1..][..n], oks[1..][..n]).dropped == {} {
        assert Registered(r, cs[..n + 1], oks[..n + 1]).dropped == {};
      }
      assert Registered(r', cs[1..][..0], oks[1..][..0]) == r';
    }
  }

  // ---- what a run amounts to, descriptor by descriptor ----

  /** An add takes effect on the slot table when the descriptor is new, the map has room or gets it, and a
      slot is free. */
  predicate TakesEffect(r: Reg, c: Change, ok: bool) {
    c.fd !in Known(r) && (c.fd < r.size || ok) && |r.live| < INIT_POLL_SIZE
  }

  ghost const EMPTY: Reg := Reg(map[], {}, 0)

  /** The events of the last add of fd that took effect, or of the last update since then, if no removal
      has come since; the run starts with empty tables. */
  ghost function Events(cs: seq<Change>, oks: seq<bool>, fd: int): Option<int>
    requires |cs| == |oks|
    decreases |cs|
  {
    if cs == [] then None else
      var n := |cs| - 1;
      var c, before := cs[n], Events(cs[..n], oks[..n], fd);
      if c.fd != fd then before
      else if c.kind == 1 && TakesEffect(Registered(EMPTY, cs[..n], oks[..n]), c, oks[n]) then Some(c.events)
      else if c.kind == 2 then None
      else if c.kind == 3 && before.Some? then Some(c.events)
      else before
  }

  lemma {:induction false} RegisteredSnoc(r: Reg, cs: seq<Change>, oks: seq<bool>, c: Change, ok: bool)
    requires |cs| == |oks|
    ensures Registered(r, cs + [c], oks + [ok]) == Register(Registered(r, cs, oks), c, ok)
    decreases |cs|
  {
    hide Register;
    if cs == [] {
      assert [c][1..] == [] && [ok][1..] == [] && cs + [c] == [c] && oks + [ok] == [ok];
      assert Registered(Register(r, c, ok), [], []) == Register(r, c, ok);
    } else {
      assert (cs + [c])[1..] == cs[1..] + [c] && (oks + [ok])[1..] == oks[1..] + [ok];
      RegisteredSnoc(Register(r, cs[0], oks[0]), cs[1..], oks[1..], c, ok);
    }
  }

  /** The registrations after a run are exactly those events. */
  lemma {:induction false} LiveIsEvents(cs: seq<Change>, oks: seq<bool>, fd: int)
    requires |cs| == |oks| && fd >= 0
    ensures var live := Registered(EMPTY, cs, oks).live;
      (fd in live <==> Events(cs, oks, fd).Some?) && (fd in live ==> live[fd] == Events(cs, oks, fd).value)
    ensures Registered(EMPTY, cs, oks).live.Keys !! Registered(EMPTY, cs, oks).dropped
    decreases |cs|
  {
    if cs != [] {
      var n := |cs| - 1;
      LiveIsEvents(cs[..n], oks[..n], fd);
      RegisteredSnoc(EMPTY, cs[..n], oks[..n], cs[n], oks[n]);
      assert cs == cs[..n] + [cs[n]] && oks == oks[..n] + [oks[n]];
      LiveStep(Registered(EMPTY, cs[..n], oks[..n]), cs[n], oks[n], fd);
      hide Register, Registered;
    }
  }

  lemma LiveStep(r: Reg, c: Change, ok: bool, fd: int)
    requires fd >= 0 && r.live.Keys !! r.dropped
    ensures var r' := Register(r, c, ok);
      && r'.live.Keys !! r'.dropped
      && (c.fd != fd ==> (fd in r'.live <==> fd in r.live) && (fd in r.live ==> r'.live[fd] == r.live[fd]))
      && (c.fd == fd && c.kind == 1 ==> (
            if TakesEffect(r, c, ok) then fd in r'.live && r'.live[fd] == c.events
            else (fd in r'.live <==> fd in r.live) && (fd in r.live ==> r'.live[fd] == r.live[fd])))
      && (c.fd == fd && c.kind == 2 ==> fd !in r'.live)
      && (c.fd == fd && c.kind == 3 ==> (fd in r'.live <==> fd in r.live) && (fd in r.live ==> r'.live[fd] == c.events))
      && (c.kind != 1 && c.kind != 2 && c.kind != 3 ==> r' == r)
  {}

  ghost predicate MaskIs(slot: PollFd, cs: seq<Change>, oks: seq<bool>)
    requires |cs| == |oks|
  {
    var e := Events(cs, oks, slot.fd);
    e.Some? && slot.events == Translate(e.value)
  }

  /** In the slot table itself, after a run from empty tables: a descriptor has a slot exactly when it has
      such events, and that slot carries their mask. */
  lemma SlotsAreEvents(slots: seq<PollFd>, cs: seq<Change>, oks: seq<bool>, fd: int)
    requires |cs| == |oks| && fd >= 0 && SlotsOk(slots, Registered(EMPTY, cs, oks).live)
    ensures HasSlot(slots, fd) <==> Events(cs, oks, fd).Some?
    ensures forall i :: 0 <= i < |slots| && slots[i].fd == fd ==> MaskIs(slots[i], cs, oks)
  {
    LiveIsEvents(cs, oks, fd);
    hide Events, Registered;
  }

  /** A pending channel_element. */
  datatype Pending = Pending(kind: int, channel: Channel)

  /** The change an element stands for when it is handled. */
  ghost function Meaning(p: Pending): Change
    reads p.channel
  {
    Change(p.kind, p.channel.fd, p.channel.events)
  }

  ghost function Meanings(ps: seq<Pending>): (cs: seq<Change>)
    reads set p | p in ps :: p.channel
    ensures |cs| == |ps| && forall i :: 0 <= i < |ps| ==> cs[i] == Meaning(ps[i])
  {
    if ps == [] then [] else Meanings(ps[..|ps| - 1]) + [Meaning(ps[|ps| - 1])]
  }

  class Tables {
    var entries: array<Channel?>        // channelMap: entries and nentries
    const slots: array<PollFd>          // event_set
    ghost var reg: Reg

    /** map_init and poll_init. */
    constructor ()
      ensures Valid() && fresh(entries) && fresh(slots) && reg == Reg(map[], {}, 0)
    {
      entries := new Channel?[0];
      slots := new PollFd[INIT_POLL_SIZE](_ => PollFd(-1, 0));
      reg := Reg(map[], {}, 0);
    }

    ghost predicate Valid()
      reads this, entries, slots
    {
      && slots.Length == INIT_POLL_SIZE && entries.Length == reg.size
      && SlotsOk(slots[..], reg.live)
      && EntriesOk(entries[..], Known(reg)) && reg.live.Keys !! reg.dropped
    }

    /** map_make_space: double until the slot fits, copy, and clear the new part. */
    method MakeSpace(slot: nat, ok: bool) returns (rc: int)
      requires Valid()
      modifies this`entries, this`reg
      ensures Valid() && (entries == old(entries) || fresh(entries))
      ensures rc == if slot < old(entries.Length) || ok then 0 else -1
      ensures reg == if rc == 0 then old(reg).(size := Grown(old(entries.Length), slot)) else old(reg)
      ensures forall i :: 0 <= i < old(entries.Length) ==> i < entries.Length && entries[i] == old(entries[i])
      ensures forall i :: old(entries.Length) <= i < entries.Length ==> entries[i] == null
      ensures rc == -1 || slot < old(entries.Length) ==> entries == old(entries)
    {
      if entries.Length > slot {
        return 0;
      }
      var n := if entries.Length > 0 then entries.Length else 32;
      ghost var m := n;
      while n <= slot
        invariant n > 0 && n >= entries.Length && Doubled(n, slot) == Doubled(m, slot)
        decreases slot - n
      {
        n := 2 * n;
      }
      if !ok {
        return -1;
      }
      var was := entries;
      var tmp := new Channel?[n](i requires 0 <= i < n reads was => if i < was.Length then was[i] else null);
      assert forall i :: 0 <= i < was.Length ==> tmp[..][i] == was[..][i];
      entries, reg := tmp, reg.(size := n);
      return 0;
    }

    /** event_loop_handle_pending_add. */
    method HandleAdd(channel: Channel, ok: bool) returns (rc: int)
      requires Valid()
      modifies this, entries, slots
      ensures Valid() && (entries == old(entries) || fresh(entries))
      ensures reg == Register(old(reg), Change(1, channel.fd, channel.events), ok)
      ensures rc == if channel.fd < 0 || channel.fd in Known(old(reg)) then 0
                    else if channel.fd >= old(entries.Length) && !ok then -1 else 1
      ensures rc != 1 ==> entries == old(entries) && entries[..] == old(entries[..]) && slots[..] == old(slots[..])
      ensures rc == 1 ==> Placed(old(slots[..]), slots[..], channel) && channel.fd < entries.Length
      ensures rc == 1 ==> forall j :: 0 <= j < entries.Length ==>
        entries[j] == if j == channel.fd then channel else if j < old(entries.Length) then old(entries[..])[j] else null
    {
      hide SlotsOk, EntriesOk, Grown, Translate, Placed;
      var fd := channel.fd;
      if fd < 0 {
        return 0;
      }
      EntryIffKnown(entries[..], Known(reg), fd);
      if fd >= entries.Length {
        rc := MakeSpace(fd, ok);
        if rc == -1 {
          return -1;
        }
      }
      GrownFits(old(reg).size, fd);
      EntryIffKnown(entries[..], Known(reg), fd);
      if entries[fd] == null {
        Enter(channel);
        return 1;
      }
      return 0;
    }

    /** The map gets its entry, and the slot table one if it can. */
    method Enter(channel: Channel)
      requires Valid() && 0 <= channel.fd < entries.Length && channel.fd !in Known(reg)
      modifies this`reg, entries, slots
      ensures Valid()
      ensures reg == if |old(reg).live| < INIT_POLL_SIZE then old(reg).(live := old(reg).live[channel.fd := channel.events])
                     else old(reg).(dropped := old(reg).dropped + {channel.fd})
      ensures Placed(old(slots[..]), slots[..], channel) && entries[..] == old(entries[..])[channel.fd := channel]
    {
      hide SlotsOk, EntriesOk, Known, Placed;
      var fd := channel.fd;
      KnownMore(reg, fd, channel.events);
      EntryAdded(entries[..], Known(reg), channel);
      ghost var were := entries[..];
      entries[fd] := channel;
      assert entries[..] == were[fd := channel];
      var placed := TakeSlot(channel);
      if placed {
        reg := reg.(live := reg.live[fd := channel.events]);
      } else {
        reg := reg.(dropped := reg.dropped + {fd});
      }
    }

    method TakeSlot(channel: Channel) returns (placed: bool)
      requires slots.Length == INIT_POLL_SIZE && SlotsOk(slots[..], reg.live) && channel.fd >= 0 && channel.fd !in reg.live
      modifies slots
      ensures placed == (|reg.live| < INIT_POLL_SIZE)
      ensures SlotsOk(slots[..], if placed then reg.live[channel.fd := channel.events] else reg.live)
      ensures Placed(old(slots[..]), slots[..], channel)
    {
      hide SlotsOk, Translate;
      FreeSlotIff(slots[..], reg.live);
      ghost var was := slots[..];
      placed := PollAdd(slots, channel);
      if placed {
        ghost var i :| 0 <= i < |was| && was[i].fd < 0 && slots[..] == was[i := PollFd(channel.fd, Translate(channel.events))];
        SlotAdded(was, reg.live, i, channel.fd, channel.events);
      }
    }

    /** event_loop_handle_pending_remove. An unknown descriptor must not lie within the map: the dispatcher
        would follow the null entry. */
    method HandleRemove(channel: Channel) returns (rc: int)
      requires Valid() && Legal(reg, Change(2, channel.fd, channel.events))
      modifies this`reg, entries, slots
      ensures Valid() && reg == Register(old(reg), Change(2, channel.fd, channel.events), true)
      ensures rc == if channel.fd < 0 then 0 else if channel.fd in Known(old(reg)) then 1 else -1
      ensures Cleared(old(slots[..]), slots[..], channel.fd)
      ensures forall j :: 0 <= j < entries.Length ==> entries[j] == if j == channel.fd then null else old(entries[j])
    {
      hide SlotsOk, EntriesOk, Cleared;
      var fd := channel.fd;
      if fd < 0 {
        NothingCleared(slots[..], fd);
        return 0;
      }
      EntryIffKnown(entries[..], Known(reg), fd);
      if fd >= entries.Length {
        NoSlot(slots[..], reg.live, fd);
        NothingCleared(slots[..], fd);
        assert reg.live - {fd} == reg.live && reg.dropped - {fd} == reg.dropped;
        return -1;
      }
      EntryRemoved(entries[..], Known(reg), fd);
      ghost var were := entries[..];
      FreeSlot(entries[fd].fd);
      entries[fd] := null;
      assert entries[..] == were[fd := null];
      assert (reg.live - {fd}).Keys + (reg.dropped - {fd}) == Known(reg) - {fd};
      reg := reg.(live := reg.live - {fd}, dropped := reg.dropped - {fd});
      return 1;
    }

    /** poll_del. */
    method FreeSlot(fd: int)
      requires slots.Length == INIT_POLL_SIZE && SlotsOk(slots[..], reg.live) && fd >= 0
      modifies slots
      ensures SlotsOk(slots[..], reg.live - {fd}) && Cleared(old(slots[..]), slots[..], fd)
    {
      hide SlotsOk;
      SlotUnique(slots[..], reg.live, fd);
      var i := FindSlot(slots, fd);
      if i < slots.Length {
        SlotRemoved(slots[..], reg.live, i, fd);
        ghost var was := slots[..];
        slots[i] := PollFd(-1, slots[i].events);
        assert slots[..] == was[i := PollFd(-1, was[i].events)];
      } else {
        SlotMissing(slots[..], reg.live, fd);
      }
    }

    /** event_loop_handle_pending_update. The descriptor must lie within the map, which is read without a
        check of its bounds. */
    method HandleUpdate(channel: Channel) returns (rc: int)
      requires Valid() && Legal(reg, Change(3, channel.fd, channel.events))
      modifies this`reg, slots
      ensures Valid() && reg == Register(old(reg), Change(3, channel.fd, channel.events), true)
      ensures rc == if channel.fd < 0 || channel.fd in Known(old(reg)) then 0 else -1
      ensures Masked(old(slots[..]), slots[..], channel.fd, channel.events)
    {
      hide SlotsOk, EntriesOk, Translate;
      var fd := channel.fd;
      if fd < 0 {
        return 0;
      }
      EntryIffKnown(entries[..], Known(reg), fd);
      SlotUnique(slots[..], reg.live, fd);
      if entries[fd] == null {
        NoSlot(slots[..], reg.live, fd);
        return -1;
      }
      var i := FindSlot(slots, fd);
      if i < slots.Length {
        SlotIsLive(slots[..], reg.live, i);
        SlotUpdated(slots[..], reg.live, i, fd, channel.events);
        ghost var was := slots[..];
        slots[i] := PollFd(fd, Translate(channel.events));
        assert slots[..] == was[i := PollFd(fd, Translate(channel.events))];
        assert reg.live[fd := channel.events].Keys == reg.live.Keys;
        reg := reg.(live := reg.live[fd := channel.events]);
      } else {
        SlotMissing(slots[..], reg.live, fd);
      }
      return 0;
    }

    /** The dispatch on an element's type. */
    method HandleOne(p: Pending, ok: bool)
      requires Valid() && Legal(reg, Meaning(p))
      modifies this, entries, slots
      ensures Valid() && reg == Register(old(reg), old(Meaning(p)), ok)
      ensures entries == old(entries) || fresh(entries)
    {
      hide SlotsOk, EntriesOk, Known;
      if p.kind == 1 {
        var rc := HandleAdd(p.channel, ok);
      } else if p.kind == 2 {
        var rc := HandleRemove(p.channel);
      } else if p.kind == 3 {
        var rc := HandleUpdate(p.channel);
      }
    }

    /** The drain loop of event_loop_handle_pending_channel, for any answers of the allocator: afterwards
        slot table and map hold exactly what the changes amount to, and as long as the slots suffice they
        agree. */
    method HandlePending(pending: seq<Pending>, oks: seq<bool>)
      requires |oks| == |pending| && Valid() && LegalRun(reg, Meanings(pending), oks)
      modifies this, entries, slots
      ensures Valid() && |Meanings(pending)| == |oks| && reg == Registered(old(reg), old(Meanings(pending)), oks)
      ensures old(reg.dropped == {} && NeverFull(reg, Meanings(pending), oks)) ==>
        reg.dropped == {} && EntriesOk(entries[..], reg.live.Keys)
      ensures old(reg) == EMPTY ==> forall fd {:trigger HasSlot(slots[..], fd)} :: fd >= 0 ==>
        (HasSlot(slots[..], fd) <==> Events(old(Meanings(pending)), oks, fd).Some?)
      ensures old(reg) == EMPTY ==> forall i :: 0 <= i < slots.Length && slots[i].fd >= 0 ==>
        MaskIs(slots[i], old(Meanings(pending)), oks)
      ensures entries == old(entries) || fresh(entries)
    {
      hide SlotsOk, EntriesOk, Register, Legal, Meanings, NeverFull;
      ghost var cs := Meanings(pending);
      assert cs[0..] == cs && oks[0..] == oks;
      if reg.dropped == {} && NeverFull(reg, cs, oks) {
        AgreeIff(reg, cs, oks);
      }
      for i := 0 to |pending|
        invariant Valid() && (entries == old(entries) || fresh(entries))
        invariant |cs| == |pending| && forall k :: 0 <= k < |pending| ==> cs[k] == Meaning(pending[k])
        invariant LegalRun(reg, cs[i..], oks[i..]) && Registered(reg, cs[i..], oks[i..]) == Registered(old(reg), cs, oks)
      {
        assert cs[i..][0] == cs[i] && cs[i..][1..] == cs[i + 1..];
        assert oks[i..][0] == oks[i] && oks[i..][1..] == oks[i + 1..];
        HandleOne(pending[i], oks[i]);
      }
      assert reg.dropped == {} ==> Known(reg) == reg.live.Keys;
      if old(reg) == EMPTY {
        assert cs[|pending|..] == [] && oks[|pending|..] == [];
        forall fd | fd >= 0
          ensures HasSlot(slots[..], fd) <==> Events(cs, oks, fd).Some?
          ensures forall i :: 0 <= i < slots.Length && slots[i].fd == fd ==> MaskIs(slots[i], cs, oks)
        {
          SlotsAreEvents(slots[..], cs, oks, fd);
          assert forall i :: 0 <= i < slots.Length ==> slots[..][i] == slots[i];
        }
      }
    }
  }
}
