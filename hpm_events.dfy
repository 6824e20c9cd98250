/**
 * Hardware performance-monitor event bookkeeping of the emulator.
 *
 * The simulator signals model events (a bit per event in `hpm_eventset`);
 * software selects which platform event each of the 29 programmable
 * counters mhpmcounter3..mhpmcounter31 counts by writing the matching
 * mhpmevent selector; the emulator keeps, per model event, its platform
 * id, the counter it was last selected into and how many selectors name it,
 * and after each instruction increments the counters of the signalled
 * events, by a fast path through that map when no event is selected twice
 * and by scanning every selector otherwise.
 *
 * The counters, their selectors and mcountinhibit are registers of the
 * generated model; here they are fields of the same object.
 */
module HpmEvents {
  import opened Wrappers
  import opened Bits

  /** The programmable counters mhpmcounter3..mhpmcounter31. */
  const NRegs: nat := 29

  /** Counters are 64-bit and wrap. */
  const CounterMod: nat := 0x1_0000_0000_0000_0000

  /** The per-event record: platform id (0 for an event the platform does not define), the counter it was last selected into, and how many selectors name it. */
  datatype EventInfo = EventInfo(platId: nat, regidx: nat, count: int)

  /** One entry of a platform's event table: a model event and the id software uses for it. */
  datatype PlatformEvent = PlatformEvent(event: nat, platId: nat)

  /** One record after a selector moves from platform id `prev` to `next` (for `next != prev`). */
  function Reselect(ei: EventInfo, regidx: nat, next: nat, prev: nat): EventInfo
  {
    if ei.platId == 0 then ei
    else
      var chosen := if ei.platId == next then EventInfo(ei.platId, regidx, ei.count + 1) else ei;
      if ei.platId == prev then chosen.(count := chosen.count - 1) else chosen
  }

  /** The event map after riscv_write_mhpmevent(regidx, next, prev). */
  function Reselected(m: seq<EventInfo>, regidx: nat, next: nat, prev: nat): seq<EventInfo>
  {
    if next == prev then m else seq(|m|, i requires 0 <= i < |m| => Reselect(m[i], regidx, next, prev))
  }

  /** The fast path is usable when no event is selected by more than one counter. */
  predicate Usable(m: seq<EventInfo>)
  {
    forall i :: 0 <= i < |m| ==> m[i].count <= 1
  }

  /** A map with no platform ids and nothing selected. */
  function Cleared(n: nat): seq<EventInfo>
  {
    seq(n, _ => EventInfo(0, 0, 0))
  }

  /** The event map init_platform_events builds from a table: each entry records its platform id, a later entry for the same event winning. */
  function Registered(events: seq<PlatformEvent>, n: nat): (m: seq<EventInfo>)
    ensures |m| == n
  {
    if events == [] then Cleared(n)
    else
      var last := events[|events| - 1];
      var m := Registered(events[..|events| - 1], n);
      if last.event < n then m[last.event := EventInfo(last.platId, 0, 0)] else m
  }

  /** Counter `idx` does not count while bit `idx + 3` of mcountinhibit is set. */
  predicate Inhibited(inhibit: nat, idx: nat)
  {
    Bit(inhibit, idx + 3)
  }

  /** The counters after increment_hpm_counter(idx). */
  function Bump(counters: seq<nat>, inhibit: nat, idx: nat): seq<nat>
  {
    if idx < |counters| && !Inhibited(inhibit, idx) then counters[idx := (counters[idx] + 1) % CounterMod]
    else counters
  }

  /** The counters after processing one signalled, registered event `eid`, by the fast or the slow path. */
  function Fire(counters: seq<nat>, m: seq<EventInfo>, usable: bool, selectors: seq<nat>, inhibit: nat, eid: nat): seq<nat>
  {
    if eid >= |m| then counters
    else if usable then
      if m[eid].count != 0 then Bump(counters, inhibit, m[eid].regidx) else counters
    else
      seq(|counters|, c requires 0 <= c < |counters| =>
        if c < |selectors| && selectors[c] == m[eid].platId && !Inhibited(inhibit, c) then (counters[c] + 1) % CounterMod
        else counters[c])
  }

  /** The counters after processing the events `fired`, in order. */
  function Replay(counters: seq<nat>, m: seq<EventInfo>, usable: bool, selectors: seq<nat>, inhibit: nat, fired: seq<nat>): seq<nat>
  {
    if fired == [] then counters
    else Fire(Replay(counters, m, usable, selectors, inhibit, fired[..|fired| - 1]), m, usable, selectors, inhibit, fired[|fired| - 1])
  }

  /**
   * The events process_hpm_events acts on, as written, from event `eid`
   * with `acc` the signalled bits not yet consumed: an event that is
   * signalled but has no platform id is skipped WITHOUT consuming its bit,
   * so the following events are tested against the wrong bits.
   */
  function Walk(m: seq<EventInfo>, acc: nat, eid: nat): seq<nat>
    decreases |m| - eid
  {
    if eid >= |m| then []
    else if acc % 2 == 1 then
      if m[eid].platId == 0 then Walk(m, acc, eid + 1) else [eid] + Walk(m, acc / 2, eid + 1)
    else Walk(m, acc / 2, eid + 1)
  }

  /** The events the loop evidently means to act on: bit `eid` consumed at every step. */
  function WalkFixed(m: seq<EventInfo>, acc: nat, eid: nat): seq<nat>
    decreases |m| - eid
  {
    if eid >= |m| then []
    else (if acc % 2 == 1 && m[eid].platId != 0 then [eid] else []) + WalkFixed(m, acc / 2, eid + 1)
  }

  /** The corrected walk acts on exactly the signalled events that have a platform id, each once, in order. */
  lemma {:induction false} WalkFixedActsOnSignalled(m: seq<EventInfo>, acc: nat, eid: nat)
    ensures forall k :: k in WalkFixed(m, acc, eid) <==> eid <= k < |m| && Bit(acc, k - eid) && m[k].platId != 0
    ensures forall i, j :: 0 <= i < j < |WalkFixed(m, acc, eid)| ==> WalkFixed(m, acc, eid)[i] < WalkFixed(m, acc, eid)[j]
    decreases |m| - eid
  {
    if eid < |m| {
      WalkFixedActsOnSignalled(m, acc / 2, eid + 1);
      var head: seq<nat> := if acc % 2 == 1 && m[eid].platId != 0 then [eid] else [];
      var tail := WalkFixed(m, acc / 2, eid + 1);
      assert WalkFixed(m, acc, eid) == head + tail;
      forall i, j | 0 <= i < j < |head + tail| ensures (head + tail)[i] < (head + tail)[j] {
        if i < |head| {
          assert (head + tail)[j] == tail[j - 1];
          assert tail[j - 1] in tail;
        }
      }
      forall k ensures k in WalkFixed(m, acc, eid) <==> eid <= k < |m| && Bit(acc, k - eid) && m[k].platId != 0 {
        if k > eid {
          assert Bit(acc, k - eid) == Bit(acc / 2, k - (eid + 1));
        }
      }
    }
  }

  /** As written, the loop agrees with the corrected one whenever every signalled event has a platform id. */
  lemma {:induction false} WalkAgrees(m: seq<EventInfo>, acc: nat, eid: nat)
    requires forall k :: eid <= k < |m| && Bit(acc, k - eid) ==> m[k].platId != 0
    ensures Walk(m, acc, eid) == WalkFixed(m, acc, eid)
    decreases |m| - eid
  {
    if eid < |m| {
      assert acc % 2 == 1 <==> Bit(acc, eid - eid);
      forall k | eid + 1 <= k < |m| && Bit(acc / 2, k - (eid + 1)) ensures m[k].platId != 0 {
        assert Bit(acc, k - eid) == Bit(acc / 2, k - (eid + 1));
      }
      WalkAgrees(m, acc / 2, eid + 1);
    }
  }

  /**
   * As written, a signalled event without a platform id shifts the bits:
   * with event 1 signalled and undefined, event 2 (never signalled) is
   * acted on.
   */
  lemma SkippedShiftMisfires()
    ensures var m := [EventInfo(0, 0, 0), EventInfo(0, 0, 0), EventInfo(5, 0, 1)];
      Walk(m, 2, 0) == [2] && WalkFixed(m, 2, 0) == []
  {
    var m := [EventInfo(0, 0, 0), EventInfo(0, 0, 0), EventInfo(5, 0, 1)];
    assert Walk(m, 1, 1) == [2];
    assert WalkFixed(m, 1, 1) == [];
  }

  /** How many selectors name platform id `id`. */
  function Selecting(selectors: seq<nat>, id: nat): nat
  {
    if selectors == [] then 0
    else Selecting(selectors[..|selectors| - 1], id) + (if selectors[|selectors| - 1] == id then 1 else 0)
  }

  lemma {:induction false} SelectingUpdate(selectors: seq<nat>, r: nat, v: nat, id: nat)
    requires r < |selectors|
    ensures Selecting(selectors[r := v], id)
      == Selecting(selectors, id) - (if selectors[r] == id then 1 else 0) + (if v == id then 1 else 0)
  {
    var n := |selectors| - 1;
    assert selectors[r := v][..n] == if r < n then selectors[..n][r := v] else selectors[..n];
    if r < n {
      SelectingUpdate(selectors[..n], r, v, id);
    }
  }

  lemma {:induction false} SelectingNone(selectors: seq<nat>, id: nat, c: nat)
    requires Selecting(selectors, id) == 0 && c < |selectors|
    ensures selectors[c] != id
  {
    var n := |selectors| - 1;
    if c < n {
      SelectingNone(selectors[..n], id, c);
    }
  }

  lemma {:induction false} SelectingOne(selectors: seq<nat>, id: nat, r: nat, c: nat)
    requires Selecting(selectors, id) == 1 && r < |selectors| && selectors[r] == id && c < |selectors| && c != r
    ensures selectors[c] != id
  {
    var n := |selectors| - 1;
    if r < n && c < n {
      SelectingSome(selectors[..n], id, r);
      SelectingOne(selectors[..n], id, r, c);
    } else if r < n {
      assert Selecting(selectors[..n], id) >= 1 by { SelectingSome(selectors[..n], id, r); }
    } else {
      SelectingNone(selectors[..n], id, c);
    }
  }

  lemma {:induction false} SelectingSome(selectors: seq<nat>, id: nat, r: nat)
    requires r < |selectors| && selectors[r] == id
    ensures Selecting(selectors, id) >= 1
  {
    var n := |selectors| - 1;
    if r < n {
      SelectingSome(selectors[..n], id, r);
    }
  }

  /**
   * The bookkeeping the fast path relies on: every defined event's count is
   * the number of selectors naming it, and when that is one, `regidx` is
   * the selector that does.
   */
  ghost predicate Tracks(m: seq<EventInfo>, selectors: seq<nat>)
  {
    forall eid :: 0 <= eid < |m| && m[eid].platId != 0 ==>
      && m[eid].count == Selecting(selectors, m[eid].platId)
      && (m[eid].count == 1 ==> m[eid].regidx < |selectors| && selectors[m[eid].regidx] == m[eid].platId)
  }

  /** With the bookkeeping right, the fast path increments exactly the counters the slow path does. */
  lemma FastMatchesSlow(counters: seq<nat>, m: seq<EventInfo>, selectors: seq<nat>, inhibit: nat, eid: nat)
    requires Tracks(m, selectors) && Usable(m) && |counters| == |selectors|
    requires eid < |m| && m[eid].platId != 0
    ensures Fire(counters, m, true, selectors, inhibit, eid) == Fire(counters, m, false, selectors, inhibit, eid)
  {
    var ei := m[eid];
    if ei.count == 0 {
      forall c | 0 <= c < |selectors| ensures selectors[c] != ei.platId {
        SelectingNone(selectors, ei.platId, c);
      }
    } else {
      assert ei.count == 1;
      forall c | 0 <= c < |selectors| && c != ei.regidx ensures selectors[c] != ei.platId {
        SelectingOne(selectors, ei.platId, ei.regidx, c);
      }
    }
  }

  /** As written, moving a selector keeps every count equal to the number of selectors naming the event. */
  lemma ReselectKeepsCounts(m: seq<EventInfo>, selectors: seq<nat>, regidx: nat, next: nat)
    requires Tracks(m, selectors) && regidx < |selectors| && next != selectors[regidx]
    ensures var m' := Reselected(m, regidx, next, selectors[regidx]);
      forall eid :: 0 <= eid < |m'| && m'[eid].platId != 0 ==>
        m'[eid].count == Selecting(selectors[regidx := next], m'[eid].platId)
  {
    forall eid | 0 <= eid < |m| && m[eid].platId != 0 {
      SelectingUpdate(selectors, regidx, next, m[eid].platId);
    }
  }

  /**
   * As written, a counter left alone on an event keeps a stale `regidx`:
   * counters 0 and 1 both select event 1 (platform id 3), counter 1 is
   * moved to platform id 4, and the fast path then counts event 1 in
   * counter 1 instead of counter 0.
   */
  lemma StaleRegidx()
    ensures var m := [EventInfo(0, 0, 0), EventInfo(3, 1, 2)];
      var selectors := [3, 3] + seq(NRegs - 2, _ => 0);
      var m' := Reselected(m, 1, 4, 3);
      var selectors' := selectors[1 := 4];
      var counters := seq(NRegs, _ => 0);
      && Tracks(m, selectors) && Usable(m') && !Tracks(m', selectors')
      && Fire(counters, m', true, selectors', 0, 1) != Fire(counters, m', false, selectors', 0, 1)
  {
    var m := [EventInfo(0, 0, 0), EventInfo(3, 1, 2)];
    var selectors := [3, 3] + seq(NRegs - 2, _ => 0);
    var selectors' := selectors[1 := 4];
    var counters := seq(NRegs, _ => 0);
    assert Selecting(selectors, 3) == 2 by { SelectingTwo(selectors); }
    assert Fire(counters, Reselected(m, 1, 4, 3), false, selectors', 0, 1)[0] == 1 by {
      assert !Inhibited(0, 0) by { BitOfZero(3); }
    }
    assert Fire(counters, Reselected(m, 1, 4, 3), true, selectors', 0, 1)[0] == 0;
  }

  lemma SelectingTwo(selectors: seq<nat>)
    requires selectors == [3, 3] + seq(NRegs - 2, _ => 0)
    ensures Selecting(selectors, 3) == 2
  {
    var k := |selectors|;
    assert selectors[..k] == selectors;
    while k > 2
      invariant 2 <= k <= |selectors|
      invariant Selecting(selectors[..k], 3) == Selecting(selectors, 3)
    {
      assert selectors[..k - 1] == selectors[..k][..k - 1];
      k := k - 1;
    }
    assert selectors[..2] == [3, 3];
    assert [3, 3][..1] == [3];
    assert [3][..0] == [];
  }

  /** The selector, other than `skip`, that names `id`, if any. */
  function Remaining(selectors: seq<nat>, id: nat, skip: nat): (r: nat)
    ensures r < |selectors| ==> selectors[r] == id && r != skip
    ensures r == |selectors| ==> forall c :: 0 <= c < |selectors| && c != skip ==> selectors[c] != id
    decreases |selectors|
  {
    if selectors == [] then 0
    else
      var n := |selectors| - 1;
      var r := Remaining(selectors[..n], id, skip);
      if r < n then r else if selectors[n] == id && n != skip then n else |selectors|
  }

  /**
   * The corrected update: when a selector leaves an event that is then
   * named by one selector only, `regidx` moves to that selector.
   * `selectors` are the selectors after the write.
   */
  function ReselectedFixed(m: seq<EventInfo>, selectors: seq<nat>, regidx: nat, next: nat, prev: nat): seq<EventInfo>
  {
    var m' := Reselected(m, regidx, next, prev);
    seq(|m'|, i requires 0 <= i < |m'| =>
      if next != prev && m'[i].platId != 0 && m'[i].platId == prev && m'[i].count == 1
      then m'[i].(regidx := Remaining(selectors, prev, regidx))
      else m'[i])
  }

  /** The corrected update keeps the whole bookkeeping the fast path relies on. */
  lemma ReselectFixedTracks(m: seq<EventInfo>, selectors: seq<nat>, regidx: nat, next: nat)
    requires Tracks(m, selectors) && regidx < |selectors| && next != selectors[regidx]
    ensures Tracks(ReselectedFixed(m, selectors[regidx := next], regidx, next, selectors[regidx]), selectors[regidx := next])
  {
    var prev := selectors[regidx];
    var s' := selectors[regidx := next];
    var m' := ReselectedFixed(m, s', regidx, next, prev);
    forall eid | 0 <= eid < |m'| && m'[eid].platId != 0
      ensures m'[eid].count == Selecting(s', m'[eid].platId)
      ensures m'[eid].count == 1 ==> m'[eid].regidx < |s'| && s'[m'[eid].regidx] == m'[eid].platId
    {
      var id := m[eid].platId;
      SelectingUpdate(selectors, regidx, next, id);
      if id == prev && m'[eid].count == 1 {
        var r := RemainingFound(s', id, regidx);
      }
    }
  }

  /** An event named by two selectors before one of them moves away is still named by one other. */
  lemma RemainingFound(selectors: seq<nat>, id: nat, skip: nat) returns (r: nat)
    requires skip < |selectors| && selectors[skip] != id && Selecting(selectors, id) == 1
    ensures r == Remaining(selectors, id, skip) && r < |selectors|
  {
    r := Remaining(selectors, id, skip);
    if r == |selectors| {
      assert forall c :: 0 <= c < |selectors| ==> selectors[c] != id;
      SelectingAbsent(selectors, id);
    }
  }

  lemma {:induction false} SelectingAbsent(selectors: seq<nat>, id: nat)
    requires forall c :: 0 <= c < |selectors| ==> selectors[c] != id
    ensures Selecting(selectors, id) == 0
  {
    if selectors != [] {
      SelectingAbsent(selectors[..|selectors| - 1], id);
    }
  }

  /** `hpm_eventset |= 0x1 << id` sets bit `id` and no other. */
  lemma SignalSetsBit(eventset: nat, id: nat)
    ensures forall i: nat :: Bit(Or(eventset, Pow2(id)), i) == (i == id || Bit(eventset, i))
  {
    forall i: nat ensures Bit(Or(eventset, Pow2(id)), i) == (i == id || Bit(eventset, i)) {
      OrBit(eventset, Pow2(id), i);
      PowBit(id, i);
    }
  }

  class Hpm {
    /** E_last: the number of model events, E_not_defined included. */
    const eLast: nat
    var eventMap: seq<EventInfo>
    var usable: bool
    var eventset: nat
    var counters: seq<nat>
    var selectors: seq<nat>
    var inhibit: nat

    /** `0x1 << id` is an `int` shift, defined for ids below 31. */
    ghost predicate Valid()
      reads this
    {
      && eLast <= 31 && |eventMap| == eLast && |counters| == NRegs && |selectors| == NRegs
      && forall i :: 0 <= i < eLast ==> eventMap[i].regidx < NRegs
    }

    /** The state at load time: static storage is zero. */
    constructor (eLast: nat, counters: seq<nat>, selectors: seq<nat>, inhibit: nat)
      requires eLast <= 31 && |counters| == NRegs && |selectors| == NRegs
      ensures Valid() && this.eLast == eLast && eventMap == Cleared(eLast) && !usable && eventset == 0
      ensures this.counters == counters && this.selectors == selectors && this.inhibit == inhibit
    {
      this.eLast := eLast;
      eventMap := Cleared(eLast);
      usable := false;
      eventset := 0;
      this.counters := counters;
      this.selectors := selectors;
      this.inhibit := inhibit;
    }

    /** riscv_signal_event. */
    method SignalEvent(id: nat)
      requires Valid() && id < eLast
      modifies this
      ensures Valid() && eventset == Or(old(eventset), Pow2(id))
      ensures eventMap == old(eventMap) && usable == old(usable) && counters == old(counters)
      ensures selectors == old(selectors) && inhibit == old(inhibit)
    {
      eventset := Or(eventset, Pow2(id));
    }

    /**
     * riscv_write_mhpmevent: counter `regidx` now selects platform id `next`
     * instead of `prev`.  The source asserts that no count drops below zero.
     */
    method WriteMhpmevent(regidx: nat, next: nat, prev: nat)
      requires Valid() && regidx < NRegs
      requires next != prev ==> forall i :: 0 <= i < eLast && eventMap[i].platId != 0 && eventMap[i].platId == prev ==> eventMap[i].count >= 1
      modifies this
      ensures Valid() && eventMap == Reselected(old(eventMap), regidx, next, prev)
      ensures usable == if next == prev then old(usable) else Usable(eventMap)
      ensures eventset == old(eventset) && counters == old(counters) && selectors == old(selectors) && inhibit == old(inhibit)
    {
      if next == prev {
        return;
      }
      ghost var m := eventMap;
      for eid := 0 to eLast
        invariant |eventMap| == eLast && usable == old(usable)
        invariant eventset == old(eventset) && counters == old(counters) && selectors == old(selectors) && inhibit == old(inhibit)
        invariant forall i :: 0 <= i < eLast ==> eventMap[i] == if i < eid then Reselect(m[i], regidx, next, prev) else m[i]
      {
        var ei := eventMap[eid];
        if ei.platId == 0 {
          continue;
        }
        if ei.platId == next {
          ei := ei.(regidx := regidx, count := ei.count + 1);
        }
        if ei.platId == prev {
          ei := ei.(count := ei.count - 1);
          assert ei.count >= 0;
        }
        eventMap := eventMap[eid := ei];
      }
      var fits := true;
      for eid := 0 to eLast
        invariant fits == forall i :: 0 <= i < eid ==> eventMap[i].count <= 1
      {
        if eventMap[eid].count > 1 {
          fits := false;
          break;
        }
      }
      usable := fits;
    }

    /**
     * init_platform_events: `events` is the table up to its E_last
     * terminator, or nothing for a null table.  The source asserts that
     * there are at most 64 entries, each for a model event below E_last
     * and with a nonzero platform id.
     */
    method InitPlatformEvents(events: Option<seq<PlatformEvent>>)
      requires Valid()
      requires events.Some? ==> |events.value| <= 64 && forall k :: 0 <= k < |events.value| ==>
        events.value[k].event < eLast && events.value[k].platId != 0
      modifies this
      ensures Valid() && eventset == 0 && usable
      ensures eventMap == if events.None? then Cleared(eLast) else Registered(events.value, eLast)
      ensures counters == old(counters) && selectors == old(selectors) && inhibit == old(inhibit)
    {
      eventset := 0;
      usable := true;
      eventMap := Cleared(eLast);
      if events.None? {
        return;
      }
      var table := events.value;
      for k := 0 to |table|
        invariant Valid() && eventMap == Registered(table[..k], eLast) && eventset == 0 && usable
        invariant counters == old(counters) && selectors == old(selectors) && inhibit == old(inhibit)
      {
        assert table[..k + 1][..k] == table[..k];
        eventMap := eventMap[table[k].event := EventInfo(table[k].platId, 0, 0)];
      }
      assert table[..|table|] == table;
    }

    /** reset_platform_events: nothing selected, the platform ids kept. */
    method ResetPlatformEvents()
      requires Valid()
      modifies this
      ensures Valid() && eventset == 0 && usable
      ensures eventMap == seq(|old(eventMap)|, i requires 0 <= i < |old(eventMap)| => EventInfo(old(eventMap)[i].platId, 0, 0))
      ensures counters == old(counters) && selectors == old(selectors) && inhibit == old(inhibit)
    {
      ghost var m := eventMap;
      for eid := 0 to eLast
        invariant |eventMap| == eLast && eventset == old(eventset) && usable == old(usable)
        invariant counters == old(counters) && selectors == old(selectors) && inhibit == old(inhibit)
        invariant forall i :: 0 <= i < eLast ==> eventMap[i] == if i < eid then EventInfo(m[i].platId, 0, 0) else m[i]
      {
        eventMap := eventMap[eid := eventMap[eid].(regidx := 0, count := 0)];
      }
      eventset := 0;
      usable := true;
    }

    /** increment_hpm_counter. */
    method IncrementHpmCounter(regidx: nat)
      requires Valid() && regidx < NRegs
      modifies this
      ensures Valid() && counters == Bump(old(counters), inhibit, regidx)
      ensures eventMap == old(eventMap) && usable == old(usable) && eventset == old(eventset)
      ensures selectors == old(selectors) && inhibit == old(inhibit)
    {
      if !Inhibited(inhibit, regidx) {
        counters := counters[regidx := (counters[regidx] + 1) % CounterMod];
      }
    }

    /** slow_process_hpm_selector: every counter whose selector names `platId` counts. */
    method SlowProcessSelector(platId: nat)
      requires Valid()
      modifies this
      ensures Valid()
      ensures forall c :: 0 <= c < NRegs ==> (counters[c] ==
        if selectors[c] == platId && !Inhibited(inhibit, c) then (old(counters)[c] + 1) % CounterMod else old(counters)[c])
      ensures eventMap == old(eventMap) && usable == old(usable) && eventset == old(eventset)
      ensures selectors == old(selectors) && inhibit == old(inhibit)
    {
      for idx := 0 to NRegs
        invariant Valid() && eventMap == old(eventMap) && usable == old(usable) && eventset == old(eventset)
        invariant selectors == old(selectors) && inhibit == old(inhibit)
        invariant forall c :: 0 <= c < NRegs ==> (counters[c] ==
          if c < idx && selectors[c] == platId && !Inhibited(inhibit, c) then (old(counters)[c] + 1) % CounterMod else old(counters)[c])
      {
        if selectors[idx] == platId {
          IncrementHpmCounter(idx);
        }
      }
    }

    /** One signalled, registered event, as process_hpm_events handles it. */
    method FireEvent(eid: nat)
      requires Valid() && eid < eLast
      modifies this
      ensures Valid() && counters == Fire(old(counters), eventMap, usable, selectors, inhibit, eid)
      ensures eventMap == old(eventMap) && usable == old(usable) && eventset == old(eventset)
      ensures selectors == old(selectors) && inhibit == old(inhibit)
    {
      var ei := eventMap[eid];
      if usable {
        if ei.count != 0 {
          IncrementHpmCounter(ei.regidx);
        }
      } else {
        SlowProcessSelector(ei.platId);
      }
    }

    /** process_hpm_events, as written: the events of `Walk`, in order, then the signalled set cleared. */
    method ProcessHpmEvents()
      requires Valid()
      modifies this
      ensures Valid() && eventset == 0
      ensures counters == Replay(old(counters), eventMap, usable, selectors, inhibit, Walk(eventMap, old(eventset), 0))
      ensures eventMap == old(eventMap) && usable == old(usable) && selectors == old(selectors) && inhibit == old(inhibit)
    {
      var acc := eventset;
      ghost var fired: seq<nat> := [];
      var eid := 0;
      while eid < eLast
        invariant Valid() && eid <= eLast
        invariant eventMap == old(eventMap) && usable == old(usable) && selectors == old(selectors) && inhibit == old(inhibit)
        invariant Walk(eventMap, old(eventset), 0) == fired + Walk(eventMap, acc, eid)
        invariant counters == Replay(old(counters), eventMap, usable, selectors, inhibit, fired)
      {
        if acc % 2 == 1 {
          if eventMap[eid].platId == 0 {
            eid := eid + 1;
            continue;
          }
          FireEvent(eid);
          assert (fired + [eid])[..|fired|] == fired;
          fired := fired + [eid];
        }
        acc := acc / 2;
        eid := eid + 1;
      }
      assert Walk(eventMap, acc, eid) == [];
      assert fired + [] == fired;
      eventset := 0;
    }
  }
}
