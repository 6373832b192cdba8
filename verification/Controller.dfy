/** The arbiter's dispatch loop and its advertising client, as they change
    state.  The links
    are owners that ask for anything, any number of times between events and a
    finite number of times inside a dispatch; the clock, the radio, the random
    delay and the flash window are the environment's. */
module Controller {
  import opened Ticks
  import opened Wrappers
  import opened Arbiter
  import opened EventArbiter

  const START_LEAD: int := US(1000)
  const TX_LEAD: int := US(100)
  const DELAY_MAX: int := US(10000)
  const CHAN_US: nat := 2000
  const PDU_GAP_MAX: int := US(10000)
  const START_SLACK: int := US(300 + 70)
  const CHAN_LEAD: int := US(200)
  const WHOLE_WAIT: int := US(10000)
  const STARVE_INTERVALS: nat := 2
  const PLAN_TRIES: nat := 8
  const PRIO_ADV: nat := 0
  const PRIO_ACTIVE: nat := 2

  datatype Status = Success | InvalidParam | ConnLimit | Disallowed | Unsupported

  const ADV_IND: nat := 0
  const DIRECT_HIGH: nat := 1
  const SCAN_IND: nat := 2
  const DIRECT_LOW: nat := 4
  const OWN_RANDOM: nat := 1

  /** The advertising parameters: the enabled channels (37 + i), the interval in
      units of 625 us, and the codes of type, filter policy and own address. */
  datatype Params = Params(channels: set<nat>, interval: nat, intervalMax: nat, typ: nat, filter: nat, ownAddr: nat)

  predicate Connectable(p: Params) {
    p.typ == ADV_IND
  }

  predicate Scannable(p: Params) {
    p.typ == ADV_IND || p.typ == SCAN_IND
  }

  /** Within the ranges of the command. */
  predicate InRanges(p: Params) {
    && p.channels != {} && (forall c | c in p.channels :: c < 3)
    && 0x20 <= p.interval <= p.intervalMax <= 0x4000
    && p.typ <= DIRECT_LOW && p.filter <= 3 && p.ownAddr <= 3
  }

  /** And of what this controller can do. */
  predicate ValidParams(p: Params) {
    InRanges(p) && p.typ != DIRECT_HIGH && p.typ != DIRECT_LOW && p.ownAddr <= OWN_RANDOM && p.filter == 0
  }

  /** In words of section 7.8.5 of Bluetooth Core Specification Vol 4 Part E: on
      some of three channels, from every 20 ms to every 10.24 s, undirected, with
      a public or a random address, for everybody; and of the types that are
      left (0, 2 and 3) the first can be connected to, and all but the last be
      scanned. */
  lemma ParamsMean(p: Params)
    ensures ValidParams(p) <==>
              && p.channels != {} && p.channels <= {0, 1, 2}
              && 20_000 <= p.interval * 625 && p.interval <= p.intervalMax && p.intervalMax * 625 <= 10_240_000
              && p.typ in {0, 2, 3} && p.ownAddr in {0, 1} && p.filter == 0
    ensures InRanges(p) <==>
              && p.channels != {} && p.channels <= {0, 1, 2}
              && 20_000 <= p.interval * 625 && p.interval <= p.intervalMax && p.intervalMax * 625 <= 10_240_000
              && p.typ <= 4 && p.ownAddr < 4 && p.filter < 4
    ensures ValidParams(p) ==> (Connectable(p) <==> p.typ == 0) && (Scannable(p) <==> p.typ != 3)
  {
  }

  /** No link is on air, and none asks at the priority of a starving advertiser. */
  ghost predicate Meek(s: Slots, adv: nat) {
    forall i: nat | i < |s| && i != adv && s[i].used :: !Running(s[i]) && s[i].r.prio < PRIO_ACTIVE
  }

  function Latest(a: int, b: int): int {
    if a > b then a else b
  }

  /** Nobody else wants the air. */
  ghost predicate Alone(s: Slots, adv: nat) {
    forall i: nat | i < |s| && i != adv :: !s[i].used
  }

  function ChannelReq(t: int, chans: nat, prio: nat): Req {
    Req(t, t, chans * CHAN_US, chans * CHAN_US, prio)
  }

  /** The priority after so many drops in a row, so long after the last full
      event.  The age is an unsigned difference of ticks, so it starts over
      after 2^32 of them. */
  function PrioOf(p: Params, drops: nat, age: int): nat {
    if drops >= STARVE_INTERVALS || Wrap(age) > STARVE_INTERVALS * (US(p.interval * 625) + DELAY_MAX) then PRIO_ACTIVE
    else PRIO_ADV
  }

  /** The higher priority after two drops in a row, and when the last full event is
      more than two intervals and 20 ms ago. */
  lemma PriorityMeans(p: Params, drops: nat, age: int)
    ensures 0 <= age < RANGE ==>
              PrioOf(p, drops, age) == if drops >= 2 || age > US(1250 * p.interval + 20_000) then 2 else 0
    ensures PrioOf(p, drops, age + RANGE) == PrioOf(p, drops, age)
  {
  }

  /** A continuation channel placed at `t` keeps the PDU spacing. */
  predicate KeepsSpacing(t: int, pduTick: int) {
    t + START_SLACK - pduTick <= PDU_GAP_MAX
  }

  /** A callback at the end of its slack still starts the PDU within 10 ms of the
      one before. */
  lemma SpacingMeans(t: int, pduTick: int)
    ensures KeepsSpacing(t, pduTick) <==> t + US(370) <= pduTick + US(10_000)
  {
  }

  /** c is the first enabled channel after `from`. */
  predicate FirstAfter(channels: set<nat>, from: int, c: nat) {
    from < c && c in channels && forall d: nat | from < d < c :: d !in channels
  }

  predicate NoneAfter(channels: set<nat>, from: int) {
    forall c | c in channels :: c <= from
  }

  /** There is a next channel, unless none comes after, and no channel lies
      between. */
  lemma NextOrNone(channels: set<nat>, from: int)
    ensures NoneAfter(channels, from) <==> forall c: nat :: !FirstAfter(channels, from, c)
    ensures forall c: nat, d: nat | FirstAfter(channels, from, c) && d in channels :: d <= from || c <= d
  {
    if !NoneAfter(channels, from) {
      var c :| c in channels && c > from;
      var _ := LeastAfter(channels, from, c);
    }
  }

  lemma {:induction false} LeastAfter(channels: set<nat>, from: int, c: nat) returns (first: nat)
    requires c in channels && c > from
    ensures FirstAfter(channels, from, first)
    decreases c
  {
    first := c;
    if !FirstAfter(channels, from, c) {
      var d: nat :| from < d < c && d in channels;
      first := LeastAfter(channels, from, d);
    }
  }

  /** Where an event goes: nowhere, where it was to go, or into a gap. */
  datatype Choice = Nowhere | AtOnce(chans: nat) | InGap(t: int, chans: nat)

  /** What the earliest gaps from `from` on decide: the whole event in its gap,
      unless that is much later than the gap for a channel; else the first
      channel; and nothing when that has no gap before the next interval. */
  ghost predicate ByGaps(p: Params, s: Slots, from: int, c: Choice) {
    var n, limit := |p.channels|, from + US(p.interval * 625);
    forall tf, t1 | IsGap(s, from, 0, n * CHAN_US, tf) && IsGap(s, from, 0, CHAN_US, t1) ::
      c == if tf < limit && tf - t1 <= WHOLE_WAIT then InGap(tf, n) else if t1 < limit then InGap(t1, 1) else Nowhere
  }

  /** The whole event goes where it fits first, if no channel fitted more than 10 ms
      earlier; one channel where it fits first, if the whole event does not fit
      within 10 ms; nothing if no channel fits before the next interval. */
  lemma GapsMean(p: Params, s: Slots, from: int, tf: int, t1: int, c: Choice)
    requires ValidParams(p) && ByGaps(p, s, from, c) && tf >= t1
    requires IsGap(s, from, 0, |p.channels| * CHAN_US, tf) && IsGap(s, from, 0, CHAN_US, t1)
    ensures var n, next := |p.channels| * 2000, from + US(p.interval * 625);
            match c
            case Nowhere => forall u | from <= u < next :: !Free(s, u, 0, 2000)
            case AtOnce(_) => false
            case InGap(t, chans) =>
              && from <= t < next && Free(s, t, 0, chans * 2000)
              && (chans == 1 || chans == |p.channels|)
              && (chans == |p.channels| ==> forall u | from <= u < t :: !Free(s, u, 0, n))
              && (chans == |p.channels| ==> forall u | from <= u < t - US(10_000) :: !Free(s, u, 0, 2000))
              && (chans != |p.channels| ==> forall u | from <= u < t :: !Free(s, u, 0, 2000))
              && (chans != |p.channels| ==> forall u | from <= u <= t + US(10_000) && u < next :: !Free(s, u, 0, n))
  {
    ChannelCount(p);
  }

  /** Where the event at `from` goes: there, the whole of it or its first
      channel, if it may ask for that and is accepted; else to a gap. */
  ghost predicate GoesTo(p: Params, s: Slots, id: nat, from: int, direct: bool, prio: nat, c: Choice)
    requires id < |s|
  {
    var n := |p.channels|;
    if direct && Accepted(s, id, ChannelReq(from, n, prio)) then c == AtOnce(n)
    else if direct && Accepted(s, id, ChannelReq(from, 1, prio)) then c == AtOnce(1)
    else ByGaps(p, if direct then Cancelled(s, id) else s, from, c)
  }

  class Controller {
    const arb: EventArbiter
    const adv: nat            // the requester id of advertising; links are below it
    var dispatching: bool

    var prm: Params
    var enabled: bool
    var inEvent: bool
    var onAir: bool
    var radioDirty: bool
    var chIdx: nat
    var reqChans: nat
    var chansLeft: nat
    var lastFull: int
    var dropsInRow: nat
    var eventTick: int
    var reqTick: int
    var pduTick: int

    var clock: int
    /** requests the links may still make inside the current dispatch */
    var plans: nat
    /** callbacks that are active, and who was called back so far */
    ghost var depth: nat
    ghost var calls: multiset<nat>
    ghost var resort: bool    // the last placement was the last resort
    /** advertising was called back inside the request it had just made */
    ghost var stale: bool
    ghost var sent: nat       // channels on air since the last start

    ghost predicate Shape()
      reads this, arb, arb.slots
    {
      && arb.Valid() && arb.ids == adv + 1 && |arb.st.slots| == adv + 1 && adv > 0
      && ValidParams(prm)
      && depth <= 1 && (depth == 1 ==> dispatching)
    }

    /** The placement the arbiter holds for advertising. */
    ghost predicate Placed(a: Slot)
      reads this
    {
      && Waiting(a)
      && a.r.alarm == a.r.open && a.r.minLen == a.r.maxLen && 0 < a.r.minLen <= 3 * CHAN_US && a.r.minLen % CHAN_US == 0
      && (if inEvent then a.r.minLen == CHAN_US && KeepsSpacing(a.r.alarm, pduTick) else a.r.alarm >= eventTick)
      && Urgent(a.r.prio)
      && (!stale ==> a.r.alarm == reqTick && a.r.minLen == reqChans * CHAN_US)
    }

    /** What was sent and what is left to send fill the span that was reserved. */
    ghost predicate FillsSpan(a: Slot)
      reads this
    {
      !stale ==> (sent + chansLeft) * CHAN_US == a.r.minLen
    }

    /** A starving advertiser asks with the higher priority. */
    ghost predicate Urgent(prio: nat)
      reads this
    {
      dropsInRow >= STARVE_INTERVALS && !resort ==> prio == PRIO_ACTIVE
    }

    /** An event is always at one of the enabled channels. */
    ghost predicate OnChannel()
      reads this
    {
      inEvent ==> chIdx in prm.channels
    }

    /** Advertising is never silent: while enabled a channel is on air (and its
        event runs), or a placement waits for its alarm, or a bump is due. */
    ghost predicate AdvLive()
      requires |arb.st.slots| == adv + 1
      reads this, arb
    {
      var a := arb.st.slots[adv];
      if !enabled then !a.used && !onAir && !inEvent
      else if onAir then inEvent && Running(a) && OnChannel() && FillsSpan(a)
      else OnChannel() && (Placed(a) || adv in arb.st.pending)
    }

    ghost predicate Valid()
      reads this, arb, arb.slots
    {
      Shape() && AdvLive()
    }

    ghost predicate Quiet()
      reads this, arb
    {
      !dispatching && arb.st.pending == {}
    }

    /** Advertising between two placements. */
    ghost predicate Unplaced()
      reads this, arb, arb.slots
    {
      Shape() && enabled && !onAir && adv !in arb.st.pending && InTurn() && OnChannel()
    }

    /** Either inside a callback, or nobody waits for one. */
    ghost predicate InTurn()
      reads this, arb
    {
      if dispatching then depth == 1 else arb.st.pending == {}
    }

    /** The links that hold a request or wait for a callback. */
    ghost function Live(): set<nat>
      requires |arb.st.slots| == adv + 1
      reads this, arb
    {
      set i: nat | i < adv && (arb.st.slots[i].used || i in arb.st.pending)
    }

    /** The event in progress may end, time goes on, the rest stays. */
    twostate predicate Going()
      reads this
    {
      && prm == old(prm) && clock >= old(clock)
      && chIdx == old(chIdx) && chansLeft == old(chansLeft) && lastFull == old(lastFull)
      && radioDirty == old(radioDirty)
      && (inEvent ==> old(inEvent)) && eventTick >= old(eventTick) && dropsInRow >= old(dropsInRow)
    }

    twostate predicate Kept()
      reads this
    {
      Going() && dispatching == old(dispatching) && depth == old(depth) && (dispatching ==> calls == old(calls))
    }

    /** An event that was cut short counts toward starvation. */
    twostate predicate CutCounted()
      reads this
    {
      old(inEvent) && !inEvent ==> dropsInRow > old(dropsInRow) || dropsInRow >= 255
    }

    /** What a client does to the arbiter from inside a callback: it may
        displace links, and it leaves the callbacks to the running dispatch. */
    twostate predicate Nested()
      requires |arb.st.slots| == adv + 1 && old(|arb.st.slots| == adv + 1)
      reads this, arb
    {
      plans == old(plans) && Live() == old(Live()) && adv !in arb.st.pending
    }

    /** The arbiter holds the same request for advertising as before, unless
        somebody displaced it. */
    twostate predicate AdvHeld()
      requires |arb.st.slots| == adv + 1 && old(|arb.st.slots| == adv + 1)
      reads this, arb
    {
      adv !in arb.st.pending ==>
        && arb.st.slots[adv].used == old(arb.st).slots[adv].used
        && arb.st.slots[adv].running == old(arb.st).slots[adv].running
        && arb.st.slots[adv].r == old(arb.st).slots[adv].r
    }

    // -------------------------------------------------------------------
    // The environment
    // -------------------------------------------------------------------

    method RadioNow() returns (t: int)
      modifies this`clock
      ensures t == clock && clock >= old(clock)
    {
      var d: nat :| true;
      clock := clock + d;
      t := clock;
    }

    method RandomDelay() returns (d: int)
      ensures 0 <= d <= DELAY_MAX
    {
      var r: nat := *;
      d := r % (DELAY_MAX + 1);
    }

    method AnyReq() returns (r: Req)
      ensures ValidReq(r)
    {
      var alarm: int, lead: nat, len: nat, maxLen: nat, prio: nat := *, *, *, *, *;
      r := Req(alarm, alarm + lead, len + CLIP_RESERVE_US, maxLen, prio);
    }

    constructor (links: nat)
      requires links > 0
      ensures Valid() && Quiet() && adv == links
      ensures !enabled && !radioDirty && prm == Params({0, 1, 2}, 0x800, 0x800, ADV_IND, 0, 0)
      ensures fresh(arb) && fresh(arb.slots) && Initial(arb.st)
    {
      arb := new EventArbiter(links + 1);
      adv := links;
      dispatching := false;
      prm := Params({0, 1, 2}, 0x800, 0x800, ADV_IND, 0, 0);
      enabled, inEvent, onAir, radioDirty := false, false, false, false;
      chIdx, reqChans, chansLeft, lastFull, dropsInRow := 0, 0, 0, 0, 0;
      eventTick, reqTick, pduTick := 0, 0, 0;
      clock, plans, depth, calls, resort, stale, sent := 0, 0, 0, multiset{}, false, false, 0;
      new;
      assert 0 in prm.channels;
    }

    // -------------------------------------------------------------------
    // Bumps
    // -------------------------------------------------------------------

    /** Nothing has happened but time. */
    twostate predicate Untouched()
      reads this, arb
    {
      && arb.st == old(arb.st) && plans == old(plans) && inEvent == old(inEvent) && eventTick == old(eventTick)
      && calls == old(calls) && dropsInRow == old(dropsInRow)
    }

    /** Call every displaced owner back, until no displacement is left. */
    method DispatchBumps()
      requires Valid() && (dispatching ==> depth == 1)
      modifies this, arb, arb.slots
      ensures Valid() && Kept() && CutCounted() && enabled == old(enabled) && onAir == old(onAir)
      ensures old(dispatching) || old(arb.st).pending == {} ==> Untouched()
      ensures !old(dispatching) ==> Quiet()
      ensures calls >= old(calls) && (calls[adv] == old(calls)[adv] && adv !in old(arb.st).pending ==> AdvHeld())
      decreases if dispatching then 0 else 1, 0
    {
      if dispatching {
        return;
      }
      dispatching := true;
      CallAll();
      dispatching := false;
    }

    method CallAll()
      requires Valid() && dispatching && depth == 0
      modifies this, arb, arb.slots
      ensures Valid() && dispatching && depth == 0 && arb.st.pending == {}
      ensures Going() && CutCounted() && enabled == old(enabled) && onAir == old(onAir)
      ensures old(arb.st).pending == {} ==> Untouched()
      ensures calls >= old(calls) && (calls[adv] == old(calls)[adv] && adv !in old(arb.st).pending ==> AdvHeld())
      decreases 0, 9
    {
      while arb.pending != {}
        invariant Valid() && dispatching && depth == 0
        invariant Going() && CutCounted() && enabled == old(enabled) && onAir == old(onAir)
        invariant old(arb.st).pending == {} ==> Untouched()
        invariant calls >= old(calls) && (calls[adv] == old(calls)[adv] && adv !in old(arb.st).pending ==> AdvHeld())
        decreases plans, Live(), adv in arb.st.pending
      {
        ghost var _ := CallNext();
      }
    }

    /** Call the owner back that is due first. */
    method CallNext() returns (ghost first: nat)
      requires Valid() && dispatching && depth == 0 && arb.st.pending != {}
      modifies this, arb, arb.slots
      ensures Valid() && dispatching && depth == 0
      ensures Going() && CutCounted() && enabled == old(enabled) && onAir == old(onAir)
      ensures plans < old(plans) || (plans == old(plans) && Live() < old(Live()))
           || (plans == old(plans) && Live() == old(Live()) && adv in old(arb.st).pending && adv !in arb.st.pending)
      ensures first in old(arb.st).pending && (forall i | i in old(arb.st).pending :: first <= i)
      ensures calls == old(calls) + multiset{first}
      ensures first != adv ==> AdvHeld() && (adv in old(arb.st).pending ==> adv in arb.st.pending)
      decreases 0, 8
    {
      ghost var live := Live();
      var i := arb.TakePending();
      first := i;
      if i == adv {
        assert Live() == live;
        CallAdv();
      } else {
        assert i in live && Live() == live - {i};
        CallLink(i);
      }
    }

    method CallAdv()
      requires Shape() && dispatching && depth == 0 && adv !in arb.st.pending && !arb.st.slots[adv].used
      requires !onAir && (if enabled then OnChannel() else !inEvent)
      modifies this, arb, arb.slots
      ensures Valid() && dispatching && depth == 0
      ensures Going() && CutCounted() && enabled == old(enabled) && onAir == old(onAir)
      ensures Nested() && calls == old(calls) + multiset{adv}
      decreases 0, 7, 1
    {
      assert depth == 0;   // no callback runs inside another
      depth := 1;
      ArbBumped();
      depth := 0;
    }

    method CallLink(i: nat)
      requires Valid() && dispatching && depth == 0 && i < adv && i !in arb.st.pending
      modifies this, arb, arb.slots
      ensures Valid() && dispatching && depth == 0
      ensures Going() && CutCounted() && enabled == old(enabled) && onAir == old(onAir)
      ensures plans < old(plans) || (plans == old(plans) && arb.st.pending == old(arb.st).pending && Live() == old(Live()))
      ensures old(arb.st).pending <= arb.st.pending && AdvHeld() && calls == old(calls) + multiset{i}
      decreases 0, 7, 1
    {
      assert depth == 0;
      depth := 1;
      LinkBumped(i);
      depth := 0;
    }

    /** A displaced link looks for another event among the candidates it has
        left, and yields when there is none. */
    method LinkBumped(i: nat)
      requires Valid() && i < adv && i !in arb.st.pending && dispatching && depth == 1
      modifies this, arb, arb.slots
      ensures Valid() && Going() && dispatching && depth == 1
      ensures CutCounted() && enabled == old(enabled) && onAir == old(onAir)
      ensures plans < old(plans) || (plans == old(plans) && arb.st.pending == old(arb.st).pending && Live() == old(Live()))
      ensures old(arb.st).pending <= arb.st.pending && AdvHeld() && calls == old(calls) + multiset{i}
      decreases if dispatching then 0 else 1, 2, 1
    {
      calls := calls + multiset{i};
      while plans > 0
        invariant Valid() && Going() && dispatching && depth == 1 && i !in arb.st.pending
        invariant CutCounted() && enabled == old(enabled) && onAir == old(onAir)
        invariant plans < old(plans) || (plans == old(plans) && arb.st == old(arb.st))
        invariant old(arb.st).pending <= arb.st.pending && AdvHeld() && calls == old(calls) + multiset{i}
        decreases plans
      {
        var stop: bool := *;
        if stop {
          break;
        }
        var ok := LinkTries(i);
        if ok {
          return;
        }
      }
    }

    /** One try of a link that was called back; refused, it may give up. */
    method LinkTries(i: nat) returns (ok: bool)
      requires Valid() && i < adv && i !in arb.st.pending && dispatching && depth == 1 && plans > 0
      modifies this, arb, arb.slots
      ensures Valid() && Kept() && CutCounted() && enabled == old(enabled) && onAir == old(onAir)
      ensures plans == old(plans) - 1 && (!ok ==> i !in arb.st.pending)
      ensures old(arb.st).pending <= arb.st.pending && AdvHeld() && calls == old(calls)
      decreases if dispatching then 0 else 1, 2, 0
    {
      var r := AnyReq();
      plans := plans - 1;
      ok := LinkRequest(i, r);
      if !ok {
        var giveUp: bool := *;
        if giveUp {
          LinkYield(i);
        }
      }
    }

    /** A request of a link. */
    method LinkRequest(i: nat, r: Req) returns (ok: bool)
      requires Valid() && i < adv && i !in arb.st.pending && ValidReq(r) && InTurn()
      modifies this, arb, arb.slots
      ensures Valid() && Kept() && CutCounted() && enabled == old(enabled) && onAir == old(onAir) && InTurn()
      ensures old(dispatching) ==> plans == old(plans) && calls == old(calls)
      ensures old(dispatching) ==> old(arb.st).pending <= arb.st.pending && AdvHeld()
      ensures ok <==> Accepted(old(arb.st).slots, i, r)
      ensures !ok ==> i !in arb.st.pending
      decreases if dispatching then 0 else 1, 1
    {
      ghost var s := arb.st.slots;
      ok := arb.Request(i, r);
      OthersKeptOrDisplaced(s, i, r, arb.st.slots, ok, adv);
      if ok {
        DispatchBumps();
      }
    }

    method LinkYield(i: nat)
      requires Valid() && i < adv
      modifies arb, arb.slots
      ensures Valid() && arb.st.pending == old(arb.st).pending && Live() == old(Live()) && AdvHeld()
    {
      arb.Yield(i);
    }

    // -------------------------------------------------------------------
    // Advertising
    // -------------------------------------------------------------------

    method FirstPrio() returns (prio: nat)
      modifies this`clock
      ensures clock >= old(clock) && prio == PrioOf(prm, dropsInRow, clock - lastFull)
    {
      var limit := STARVE_INTERVALS * (US(prm.interval * 625) + DELAY_MAX);
      var now := RadioNow();
      prio := if dropsInRow >= STARVE_INTERVALS || Wrap(now - lastFull) > limit then PRIO_ACTIVE else PRIO_ADV;
    }

    /** The priority a request of this call has, found at tick now. */
    twostate predicate AsksWith(prio: nat, now: int)
      reads this
    {
      old(clock) <= now <= clock && prio == PrioOf(prm, old(dropsInRow), now - old(lastFull))
    }

    /** Ask for `chans` channels from `t`.  The two fields written last describe
        what the arbiter holds when the request displaces nobody, or is made
        inside a dispatch; `Staleness` shows that otherwise they need not. */
    method AdvRequest(t: int, chans: nat, prio: nat) returns (ok: bool)
      requires Unplaced() && 1 <= chans <= 3
      requires if inEvent then chans == 1 && KeepsSpacing(t, pduTick) else t >= eventTick
      requires Urgent(prio)
      modifies this, arb, arb.slots
      ensures ok <==> Accepted(old(arb.st).slots, adv, ChannelReq(t, chans, prio))
      ensures Kept() && CutCounted() && enabled && !onAir && InTurn()
      ensures ok ==> Valid()
      ensures Free(old(arb.st).slots, t, 0, chans * CHAN_US) ==>
                ok && Waiting(arb.st.slots[adv]) && arb.st.slots[adv].r == ChannelReq(t, chans, prio)
                && inEvent == old(inEvent) && eventTick == old(eventTick) && dropsInRow == old(dropsInRow)
      ensures !ok ==> Unplaced() && inEvent == old(inEvent) && eventTick == old(eventTick)
                      && dropsInRow == old(dropsInRow) && resort == old(resort)
                      && arb.st.slots[adv].yielded == old(arb.st).slots[adv].yielded && !arb.st.slots[adv].used
      ensures !ok || Free(old(arb.st).slots, t, 0, chans * CHAN_US) ==>
                OthersUntouched(old(arb.st).slots, arb.st.slots, adv)
      ensures ok ==> reqTick == t && reqChans == chans
      ensures ok && !stale ==>
                Waiting(arb.st.slots[adv]) && arb.st.slots[adv].r == ChannelReq(reqTick, reqChans, prio)
      ensures ok && stale ==> !old(dispatching) && Victims(old(arb.st).slots, adv, ChannelReq(t, chans, prio)) != {}
      ensures old(dispatching) ==> Nested()
      decreases if dispatching then 0 else 1, 1
    {
      var r := ChannelReq(t, chans, prio);
      ghost var s := arb.st.slots;
      ok := arb.Request(adv, r);
      GapMovesNobody(s, adv, t, chans, prio, arb.st.slots, ok);
      if ok {
        stale := true;
        assert Placed(arb.st.slots[adv]);
        Granted(t, chans, prio);
      }
    }

    /** The request is accepted: its victims are called back, and only then are
        the two fields written. */
    method Granted(t: int, chans: nat, prio: nat)
      requires Valid() && enabled && !onAir && stale && 1 <= chans <= 3 && adv !in arb.st.pending
      requires Waiting(arb.st.slots[adv]) && arb.st.slots[adv].r == ChannelReq(t, chans, prio)
      requires dispatching ==> depth == 1
      modifies this, arb, arb.slots
      ensures Valid() && Kept() && CutCounted() && enabled && !onAir && InTurn() && adv !in arb.st.pending
      ensures reqTick == t && reqChans == chans
      ensures !stale ==> Waiting(arb.st.slots[adv]) && arb.st.slots[adv].r == ChannelReq(t, chans, prio)
      ensures stale ==> !old(dispatching) && old(arb.st).pending != {}
      ensures old(dispatching) || old(arb.st).pending == {} ==>
                arb.st == old(arb.st) && plans == old(plans) && inEvent == old(inEvent) && eventTick == old(eventTick)
                && dropsInRow == old(dropsInRow)
      decreases if dispatching then 0 else 1, 1, 0
    {
      DispatchBumps();
      reqTick := t;
      reqChans := chans;
      stale := calls[adv] > old(calls)[adv];
    }

    method AdvanceEvent()
      modifies this`eventTick
      ensures US(prm.interval * 625) <= eventTick - old(eventTick) <= US(prm.interval * 625) + DELAY_MAX
    {
      var d := RandomDelay();
      eventTick := eventTick + US(prm.interval * 625) + d;
    }

    /** No tick of [from, until) has room for a channel. */
    ghost predicate NoRoom(from: int, until: int)
      reads arb
    {
      forall t | from <= t < until :: !Free(arb.st.slots, t, 0, CHAN_US)
    }

    /** The whole event is planned for t, and nothing in between. */
    ghost predicate WholeAt(t: int)
      requires |arb.st.slots| == adv + 1
      reads this, arb
    {
      var a := arb.st.slots[adv];
      !inEvent && eventTick == t && Waiting(a) && a.r.alarm == a.r.open == t && a.r.minLen == |prm.channels| * CHAN_US
    }

    ghost predicate PlacedAt(t: int, chans: nat, prio: nat)
      requires |arb.st.slots| == adv + 1
      reads this, arb
    {
      Waiting(arb.st.slots[adv]) && arb.st.slots[adv].r == ChannelReq(t, chans, prio) && eventTick == t
    }

    /** The event is where it was decided to go. */
    ghost predicate IsAt(c: Choice, from: int, prio: nat)
      requires |arb.st.slots| == adv + 1
      reads this, arb
    {
      match c
      case Nowhere => true
      case AtOnce(chans) => reqTick == from && reqChans == chans
      case InGap(t, chans) => PlacedAt(t, chans, prio)
    }

    /** The first channel of the event: at `eventTick` unless advertising was
        just displaced, else in the earliest gap before the next interval,
        where nobody else is moved. */
    method PlaceFirst(direct: bool) returns (placed: bool, ghost c: Choice, ghost prio: nat, ghost now: int)
      requires Unplaced() && !inEvent
      modifies this, arb, arb.slots
      ensures Kept() && enabled && !onAir && InTurn()
      ensures if placed then Valid() else Unplaced() && !inEvent && eventTick == old(eventTick)
      ensures AsksWith(prio, now) && GoesTo(prm, old(arb.st).slots, adv, old(eventTick), direct, prio, c)
      ensures (placed <==> c != Nowhere) && IsAt(c, old(eventTick), prio)
      ensures !placed ==> NoRoom(eventTick, eventTick + US(prm.interval * 625))
      ensures !placed ==> dropsInRow == old(dropsInRow) && (Meek(old(arb.st).slots, adv) ==> Meek(arb.st.slots, adv))
      ensures direct && old(dropsInRow) >= STARVE_INTERVALS && Meek(old(arb.st).slots, adv) ==> placed
      ensures !direct ==> OthersUntouched(old(arb.st).slots, arb.st.slots, adv)
      ensures !direct && !placed ==> arb.st == old(arb.st)
      ensures !direct && placed ==> old(eventTick) <= eventTick < old(eventTick) + US(prm.interval * 625)
      ensures direct && Free(old(arb.st).slots, old(eventTick), 0, |prm.channels| * CHAN_US) ==>
                placed && WholeAt(old(eventTick)) && dropsInRow == old(dropsInRow)
      ensures old(dispatching) ==> Nested()
      decreases if dispatching then 0 else 1, 3
    {
      var n := |prm.channels|;
      ChannelCount(prm);
      var p := FirstPrio();
      prio, now := p, clock;
      resort := false;
      MeekLinksYield(arb.st.slots, adv, ChannelReq(eventTick, n, p));
      placed, c := Place(direct, n, p);
    }

    method Place(direct: bool, n: nat, prio: nat) returns (placed: bool, ghost c: Choice)
      requires Unplaced() && !inEvent && n == |prm.channels| && 1 <= n <= 3 && Urgent(prio)
      modifies this, arb, arb.slots
      ensures Kept() && enabled && !onAir && InTurn()
      ensures if placed then Valid() else Unplaced() && !inEvent && eventTick == old(eventTick)
      ensures GoesTo(prm, old(arb.st).slots, adv, old(eventTick), direct, prio, c)
      ensures (placed <==> c != Nowhere) && IsAt(c, old(eventTick), prio)
      ensures direct && Accepted(old(arb.st).slots, adv, ChannelReq(old(eventTick), n, prio)) ==> placed
      ensures !placed ==> NoRoom(eventTick, eventTick + US(prm.interval * 625)) && dropsInRow == old(dropsInRow)
      ensures !placed || !direct ==> OthersUntouched(old(arb.st).slots, arb.st.slots, adv)
      ensures !direct && !placed ==> arb.st == old(arb.st)
      ensures !direct && placed ==> old(eventTick) <= eventTick < old(eventTick) + US(prm.interval * 625)
      ensures direct && Free(old(arb.st).slots, old(eventTick), 0, n * CHAN_US) ==>
                placed && WholeAt(old(eventTick)) && dropsInRow == old(dropsInRow)
      ensures old(dispatching) ==> Nested()
      decreases if dispatching then 0 else 1, 3, 0
    {
      if direct {
        placed := PlaceAtOnce(n, prio);
        if placed {
          c := AtOnce(reqChans);
          return;
        }
      }
      ghost var s := arb.st.slots;
      placed, c := PlaceInGap(n, prio);
      if direct {
        RefusedGoesByGaps(prm, old(arb.st).slots, s, adv, old(eventTick), prio, c);
      }
    }

    /** The whole event at `eventTick`, else its first channel. */
    method PlaceAtOnce(n: nat, prio: nat) returns (placed: bool)
      requires Unplaced() && !inEvent && n == |prm.channels| && 1 <= n <= 3 && Urgent(prio)
      modifies this, arb, arb.slots
      ensures Kept() && enabled && !onAir && InTurn()
      ensures if placed then Valid() else Unplaced() && !inEvent && eventTick == old(eventTick)
      ensures !placed ==> dropsInRow == old(dropsInRow) && resort == old(resort)
      ensures !placed ==> OthersUntouched(old(arb.st).slots, arb.st.slots, adv) && !arb.st.slots[adv].used
      ensures placed <==> Accepted(old(arb.st).slots, adv, ChannelReq(old(eventTick), n, prio))
                          || Accepted(old(arb.st).slots, adv, ChannelReq(old(eventTick), 1, prio))
      ensures placed ==> reqTick == old(eventTick)
                         && reqChans == if Accepted(old(arb.st).slots, adv, ChannelReq(old(eventTick), n, prio)) then n else 1
      ensures Free(old(arb.st).slots, old(eventTick), 0, n * CHAN_US) ==>
                placed && PlacedAt(old(eventTick), n, prio) && !inEvent && dropsInRow == old(dropsInRow)
      ensures old(dispatching) ==> Nested()
      decreases if dispatching then 0 else 1, 2
    {
      placed := AdvRequest(eventTick, n, prio);
      if !placed {
        SameRefusals(old(arb.st).slots, arb.st.slots, adv, ChannelReq(eventTick, 1, prio));
      }
      if !placed && n > 1 {
        placed := AdvRequest(eventTick, 1, prio);
      }
    }

    /** The whole event in the first gap it fits, when that is not much later
        than the first gap for a channel; else the first channel. */
    method PlaceInGap(n: nat, prio: nat) returns (placed: bool, ghost c: Choice)
      requires Unplaced() && !inEvent && n == |prm.channels| && 1 <= n <= 3 && Urgent(prio)
      modifies this, arb, arb.slots
      ensures Kept() && enabled && !onAir && InTurn()
      ensures if placed then Valid() else Unplaced() && !inEvent && eventTick == old(eventTick)
      ensures ByGaps(prm, old(arb.st).slots, old(eventTick), c) && !c.AtOnce? && (c.InGap? ==> eventTick == c.t)
      ensures (placed <==> c != Nowhere) && IsAt(c, old(eventTick), prio)
      ensures !placed ==> NoRoom(eventTick, eventTick + US(prm.interval * 625))
      ensures placed ==> old(eventTick) <= eventTick < old(eventTick) + US(prm.interval * 625)
      ensures OthersUntouched(old(arb.st).slots, arb.st.slots, adv)
      ensures !placed ==> arb.st == old(arb.st) && dropsInRow == old(dropsInRow)
      ensures old(dispatching) ==> Nested()
      decreases if dispatching then 0 else 1, 2
    {
      var limit := eventTick + US(prm.interval * 625);
      var whole := arb.Gap(eventTick, 0, n * CHAN_US);
      var one := arb.Gap(eventTick, 0, CHAN_US);
      GapGrows(arb.st.slots, eventTick, 0, CHAN_US, one, n * CHAN_US, whole);   // the difference does not wrap
      GapIsUnique(arb.st.slots, eventTick, 0, n * CHAN_US, whole);
      GapIsUnique(arb.st.slots, eventTick, 0, CHAN_US, one);
      placed, c := false, Nowhere;
      if whole < limit && whole - one <= WHOLE_WAIT {
        placed := TakeGap(whole, n, prio);
        c := InGap(whole, n);
      }
      if !placed && one < limit {
        placed := TakeGap(one, 1, prio);
        c := InGap(one, 1);
      }
    }

    /** A request in a gap: nobody refuses it, and nobody is moved. */
    method TakeGap(t: int, chans: nat, prio: nat) returns (ok: bool)
      requires Unplaced() && !inEvent && 1 <= chans <= 3 && Urgent(prio)
      requires t >= eventTick && Free(arb.st.slots, t, 0, chans * CHAN_US)
      modifies this, arb, arb.slots
      ensures ok && Valid() && Kept() && enabled && !onAir && InTurn() && PlacedAt(t, chans, prio) && eventTick == t
      ensures OthersUntouched(old(arb.st).slots, arb.st.slots, adv)
      ensures old(dispatching) ==> Nested()
      decreases if dispatching then 0 else 1, 2, 0
    {
      ok := AdvRequest(t, chans, prio);
      if ok {
        eventTick := t;
      }
    }

    /** Plan the event, dropping events that find no room.  A placement is
        always found: the last resort asks in a gap, which nobody refuses.
        Meek links do not starve advertising: `dropped` events in a row, with
        those before, are never more than `STARVE_INTERVALS`, plus the one a
        displaced placement may cost. */
    method PlanEvent(direct: bool) returns (ghost dropped: nat, ghost c: Choice, ghost prio: nat, ghost now: int)
      requires Unplaced() && !inEvent
      modifies this, arb, arb.slots
      ensures Valid() && Kept() && enabled && !onAir && InTurn()
      ensures AsksWith(prio, now) && GoesTo(prm, old(arb.st).slots, adv, old(eventTick), direct, prio, c)
      ensures (dropped == 0 <==> c != Nowhere) && IsAt(c, old(eventTick), prio)
      ensures Meek(old(arb.st).slots, adv) ==>
                dropped <= (if direct then 0 else 1)
                           + if old(dropsInRow) < STARVE_INTERVALS then STARVE_INTERVALS - old(dropsInRow) else 0
      ensures direct && Free(old(arb.st).slots, old(eventTick), 0, |prm.channels| * CHAN_US) ==>
                dropped == 0 && WholeAt(old(eventTick)) && dropsInRow == old(dropsInRow)
      ensures !direct && !old(NoRoom(eventTick, eventTick + US(prm.interval * 625))) ==>
                && dropped == 0 && OthersUntouched(old(arb.st).slots, arb.st.slots, adv)
                && old(eventTick) <= eventTick < old(eventTick) + US(prm.interval * 625)
      ensures old(dispatching) ==> Nested()
      decreases if dispatching then 0 else 1, 4
    {
      var straight := direct;
      ghost var s0, t0, p0 := arb.st.slots, eventTick, prm;
      dropped, c, prio, now := 0, Nowhere, 0, 0;
      for i := 0 to PLAN_TRIES
        invariant Unplaced() && !inEvent && Kept() && dropped == i && (straight <==> direct || i > 0)
        invariant i == 0 ==> arb.st == old(arb.st) && eventTick == old(eventTick) && dropsInRow == old(dropsInRow)
        invariant i > 0 ==> AsksWith(prio, now) && c == Nowhere && prm == p0
        invariant i > 0 ==> GoesTo(p0, s0, adv, t0, direct, prio, Nowhere)
        invariant i > 0 ==> !(direct && Free(old(arb.st).slots, old(eventTick), 0, |prm.channels| * CHAN_US))
        invariant i > 0 && !direct ==> old(NoRoom(eventTick, eventTick + US(prm.interval * 625)))
        invariant dropsInRow == if old(dropsInRow) + i < 255 then old(dropsInRow) + i
                                else if old(dropsInRow) < 255 then 255 else old(dropsInRow)
        invariant Meek(old(arb.st).slots, adv) ==>
                    && Meek(arb.st.slots, adv)
                    && dropped <= (if direct then 0 else 1)
                                  + if old(dropsInRow) < STARVE_INTERVALS then STARVE_INTERVALS - old(dropsInRow) else 0
        invariant old(dispatching) ==> Nested()
      {
        ghost var d, p, n;
        var placed;
        placed, d, p, n := PlaceFirst(straight);
        if i == 0 {
          c, prio, now := d, p, n;
        }
        if placed {
          return;
        }
        DropEvent();
        dropped := dropped + 1;
        straight := true;
      }
      LastResort();
    }

    /** No room before the next interval: this event is not sent. */
    method DropEvent()
      requires Unplaced() && !inEvent
      modifies this`dropsInRow, this`eventTick, arb, arb.slots
      ensures Unplaced() && !inEvent && Kept()
      ensures US(prm.interval * 625) <= eventTick - old(eventTick) <= US(prm.interval * 625) + DELAY_MAX
      ensures arb.st.slots == YieldSlots(old(arb.st).slots, adv)
      ensures Meek(old(arb.st).slots, adv) ==> Meek(arb.st.slots, adv)
      ensures dropsInRow == if old(dropsInRow) < 255 then old(dropsInRow) + 1 else old(dropsInRow)
      ensures Nested()
    {
      if dropsInRow < 255 {
        dropsInRow := dropsInRow + 1;
      }
      arb.Yield(adv);
      AdvanceEvent();
    }

    /** One channel in the first gap, whatever its distance. */
    method LastResort()
      requires Unplaced() && !inEvent
      modifies this, arb, arb.slots
      ensures Valid() && Kept() && enabled && !onAir && InTurn()
      ensures IsGap(old(arb.st).slots, old(eventTick), 0, CHAN_US, eventTick) && PlacedAt(eventTick, 1, PRIO_ADV)
      ensures OthersUntouched(old(arb.st).slots, arb.st.slots, adv)
      ensures old(dispatching) ==> Nested()
      decreases if dispatching then 0 else 1, 3
    {
      eventTick := arb.Gap(eventTick, 0, CHAN_US);
      resort := true;
      var ok := AdvRequest(eventTick, 1, PRIO_ADV);
      if !ok {
        assert false;   // the source would count stats.stuck and disable advertising here
      }
    }

    /** The event is over: plan the next one, an interval later at least and
        never in the past. */
    method ScheduleNextEvent()
      requires Shape() && enabled && adv !in arb.st.pending && InTurn()
      modifies this, arb, arb.slots
      ensures Valid() && Kept() && enabled && !onAir && !inEvent && InTurn()
      ensures eventTick >= old(eventTick) + US(prm.interval * 625) && eventTick >= old(clock)
      ensures Alone(old(arb.st).slots, adv) ==>
                WholeAt(eventTick) && dropsInRow == old(dropsInRow)
                && eventTick <= Latest(old(eventTick), clock) + US(prm.interval * 625) + DELAY_MAX
      ensures old(dispatching) ==> Nested()
      decreases if dispatching then 0 else 1, 5, 0
    {
      EndEvent();
      NextTick();
      AloneIsFree(old(arb.st).slots, adv, eventTick, |prm.channels| * CHAN_US);
      ghost var _, _, _, _ := PlanEvent(true);
    }

    method EndEvent()
      requires Shape() && enabled && adv !in arb.st.pending && InTurn()
      modifies this`inEvent, this`onAir, arb, arb.slots
      ensures Unplaced() && !inEvent && Kept() && Nested()
      ensures arb.st.slots == Cancelled(old(arb.st).slots, adv) && arb.st.pending == old(arb.st).pending
    {
      inEvent := false;
      onAir := false;
      arb.Cancel(adv);
      assert Live() == old(Live());
    }

    method NextTick()
      modifies this`eventTick, this`clock
      ensures eventTick >= old(eventTick) + US(prm.interval * 625) && eventTick >= old(clock) && clock >= old(clock)
      ensures eventTick <= Latest(old(eventTick), clock) + US(prm.interval * 625) + DELAY_MAX
      ensures clock <= old(eventTick) + US(prm.interval * 625) ==>
                eventTick <= old(eventTick) + US(prm.interval * 625) + DELAY_MAX
    {
      AdvanceEvent();
      var now := RadioNow();
      if eventTick - now < 0 {
        var base := RadioNow();
        var d := RandomDelay();
        eventTick := base + US(prm.interval * 625) + d;
      }
    }

    /** Placing a further channel on its own.  The event goes on exactly when
        the earliest gap is soon enough after the PDU before. */
    method PlaceNextChannel(from: int) returns (ghost now: int)
      requires Unplaced() && inEvent
      modifies this, arb, arb.slots
      ensures Valid() && Kept() && CutCounted() && enabled && !onAir && InTurn()
      ensures forall t | IsGap(Cancelled(old(arb.st).slots, adv), from, 0, CHAN_US, t) ::
                (inEvent <==> KeepsSpacing(t, old(pduTick))) && (inEvent ==> reqTick == t && reqChans == 1)
      ensures inEvent ==> AsksWith(arb.st.slots[adv].r.prio, now)
      ensures inEvent ==> OthersUntouched(old(arb.st).slots, arb.st.slots, adv)
      ensures old(dispatching) ==> Nested()
      decreases if dispatching then 0 else 1, 6
    {
      var t := NextGap(from);
      now := clock;
      GapIsUnique(arb.st.slots, from, 0, CHAN_US, t);
      if t + START_SLACK - pduTick <= PDU_GAP_MAX {
        var prio := FirstPrio();
        now := clock;
        var ok := AdvRequest(t, 1, prio);
        if ok {
          return;
        }
      }
      CutShort();
    }

    /** The channel before gives the air back; the first gap for the next. */
    method NextGap(from: int) returns (t: int)
      requires Unplaced() && inEvent
      modifies this`resort, arb, arb.slots
      ensures Unplaced() && Kept() && Nested() && !resort
      ensures arb.st.slots == Cancelled(old(arb.st).slots, adv) && arb.st.pending == old(arb.st).pending
      ensures IsGap(arb.st.slots, from, 0, CHAN_US, t)
    {
      arb.Cancel(adv);
      resort := false;
      assert Live() == old(Live());
      t := arb.Gap(from, 0, CHAN_US);
    }

    /** The event ends early, which counts toward starvation. */
    method CutShort()
      requires Unplaced()
      modifies this, arb, arb.slots
      ensures Valid() && Kept() && enabled && !onAir && !inEvent && InTurn()
      ensures dropsInRow >= if old(dropsInRow) < 255 then old(dropsInRow) + 1 else old(dropsInRow)
      ensures Alone(old(arb.st).slots, adv) ==>
                dropsInRow == if old(dropsInRow) < 255 then old(dropsInRow) + 1 else old(dropsInRow)
      ensures old(dispatching) ==> Nested()
      decreases if dispatching then 0 else 1, 5, 1
    {
      if dropsInRow < 255 {
        dropsInRow := dropsInRow + 1;
      }
      ScheduleNextEvent();
    }

    /** Advertising was displaced.  While it is enabled nothing is on air, so
        the bump is never dropped. */
    method ArbBumped()
      requires Shape() && dispatching && depth == 1 && adv !in arb.st.pending && !arb.st.slots[adv].used
      requires !onAir && (if enabled then OnChannel() else !inEvent)
      modifies this, arb, arb.slots
      ensures Valid() && Going() && dispatching && depth == 1
      ensures CutCounted() && enabled == old(enabled) && !onAir && Nested() && calls == old(calls) + multiset{adv}
      ensures enabled && old(inEvent) ==>
                forall t | IsGap(Cancelled(old(arb.st).slots, adv), old(reqTick), 0, CHAN_US, t) ::
                  (inEvent <==> KeepsSpacing(t, old(pduTick))) && (inEvent ==> reqTick == t && reqChans == 1)
      ensures enabled && !old(inEvent) && !old(NoRoom(eventTick, eventTick + US(prm.interval * 625))) ==>
                && OthersUntouched(old(arb.st).slots, arb.st.slots, adv)
                && old(eventTick) <= eventTick < old(eventTick) + US(prm.interval * 625)
      decreases if dispatching then 0 else 1, 7, 0
    {
      calls := calls + multiset{adv};
      if !enabled || onAir {
        return;
      }
      if inEvent {
        ghost var _ := PlaceNextChannel(reqTick);
      } else {
        ghost var _, _, _, _ := PlanEvent(false);
      }
    }

    /** A channel's PDU; the event's span must be running. */
    method TxCurrent()
      modifies this`onAir, this`pduTick, this`clock, this`sent
      ensures onAir && pduTick >= old(clock) && clock >= pduTick && sent == old(sent) + 1
    {
      onAir := true;
      sent := sent + 1;
      pduTick := RadioNow();
    }

    /** The next enabled channel, or the end of the event.  No enabled channel
        is skipped; advertising counts as served when all were sent, and an
        event cut before that counts toward starvation.  Unless the fields of
        the request were stale, no more is sent than was reserved. */
    method NextChannel(flash: bool)
      requires Shape() && Quiet() && enabled && inEvent && Running(arb.st.slots[adv]) && FillsSpan(arb.st.slots[adv])
      modifies this, arb, arb.slots
      ensures Valid() && Quiet() && enabled && prm == old(prm)
      ensures inEvent ==> !flash && FirstAfter(prm.channels, old(chIdx), chIdx) && (onAir <==> old(chansLeft) > 0)
      ensures onAir ==> old(chansLeft) > 0 && chansLeft == old(chansLeft) - 1 && sent == old(sent) + 1
      ensures onAir && !stale ==> sent * CHAN_US <= arb.st.slots[adv].r.minLen
      ensures flash || !NoneAfter(prm.channels, old(chIdx)) ==> lastFull == old(lastFull)
      ensures !flash && NoneAfter(prm.channels, old(chIdx)) ==> lastFull >= old(clock)
      ensures !flash && !NoneAfter(prm.channels, old(chIdx)) ==> CutCounted()
    {
      onAir := false;
      if flash {
        ScheduleNextEvent();
        return;
      }
      chIdx := chIdx + 1;
      while chIdx < 3 && chIdx !in prm.channels
        invariant old(chIdx) < chIdx && forall d: nat | old(chIdx) < d < chIdx :: d !in prm.channels
        modifies this`chIdx
        decreases 3 - chIdx
      {
        chIdx := chIdx + 1;
      }
      if chIdx < 3 {
        var _ := SendOrPlace();
      } else {
        AllSent();
      }
    }

    /** The next channel at once, when it was reserved, or in a placement of
        its own. */
    method SendOrPlace() returns (ghost now: int)
      requires Shape() && Quiet() && enabled && inEvent && OnChannel() && !onAir
      requires Running(arb.st.slots[adv]) && FillsSpan(arb.st.slots[adv])
      modifies this, arb, arb.slots
      ensures Valid() && Quiet() && enabled && prm == old(prm) && chIdx == old(chIdx) && lastFull == old(lastFull)
      ensures onAir <==> old(chansLeft) > 0
      ensures onAir ==> chansLeft == old(chansLeft) - 1 && sent == old(sent) + 1
      ensures CutCounted() && old(clock) <= now <= clock
      ensures old(chansLeft) == 0 ==>
                forall t | IsGap(Cancelled(old(arb.st).slots, adv), now + CHAN_LEAD, 0, CHAN_US, t) ::
                  (inEvent <==> KeepsSpacing(t, old(pduTick))) && (inEvent ==> reqTick == t && reqChans == 1)
    {
      now := clock;
      if chansLeft > 0 {
        chansLeft := chansLeft - 1;
        TxCurrent();
      } else {
        var t := RadioNow();
        now := t;
        ghost var _ := PlaceNextChannel(t + CHAN_LEAD);
      }
    }

    /** All channels are sent: advertising is served. */
    method AllSent()
      requires Shape() && Quiet() && enabled
      modifies this, arb, arb.slots
      ensures Valid() && Quiet() && enabled && !onAir && !inEvent && prm == old(prm) && lastFull >= old(clock)
      ensures Alone(old(arb.st).slots, adv) ==> dropsInRow == 0 && WholeAt(eventTick)
    {
      lastFull := RadioNow();
      dropsInRow := 0;
      ScheduleNextEvent();
    }

    /** The arbiter starts the placement.  A continuation channel whose callback
        runs within the slack starts its PDU at most 10 ms after the last. */
    method ArbStart(flash: bool)
      requires Shape() && Quiet() && !onAir && Running(arb.st.slots[adv])
      requires !enabled ==> !inEvent
      requires inEvent ==> KeepsSpacing(arb.st.slots[adv].r.alarm, pduTick) && OnChannel()
      requires arb.st.slots[adv].r.minLen > 0
      requires !stale ==> arb.st.slots[adv].r.minLen == reqChans * CHAN_US
      modifies this, arb, arb.slots
      ensures Valid() && Quiet() && enabled == old(enabled) && prm == old(prm)
      ensures onAir <==> enabled && !flash
      ensures inEvent ==> onAir
      ensures onAir && !stale ==> (chansLeft + 1) * CHAN_US == old(arb.st).slots[adv].r.minLen
      ensures onAir ==> if old(inEvent) then chIdx == old(chIdx) else FirstAfter(prm.channels, -1, chIdx)
      ensures old(inEvent) && onAir && pduTick <= old(arb.st).slots[adv].r.alarm + START_SLACK ==>
                pduTick - old(pduTick) <= PDU_GAP_MAX
    {
      if !enabled {
        arb.Cancel(adv);
        return;
      }
      if flash {
        ScheduleNextEvent();
        return;
      }
      if !inEvent {
        ghost var c :| c in prm.channels;
        var first := 0;
        while first !in prm.channels
          invariant first <= c && forall d: nat | d < first :: d !in prm.channels
          decreases c - first
        {
          first := first + 1;
        }
        chIdx := first;
        inEvent := true;
      }
      chansLeft := if reqChans > 0 then reqChans - 1 else 0;
      sent := 0;
      TxCurrent();
    }

    // -------------------------------------------------------------------
    // What the host, the timer and the radio do
    // -------------------------------------------------------------------

    method SetParams(p: Params) returns (st: Status)
      requires Valid() && Quiet()
      modifies this
      ensures Valid() && Quiet() && enabled == old(enabled)
      ensures st == if enabled then Disallowed else if !InRanges(p) then InvalidParam
                    else if !ValidParams(p) then Unsupported else Success
      ensures prm == if st == Success then p else old(prm)
    {
      if enabled {
        return Disallowed;
      }
      if p.typ > DIRECT_LOW || p.filter > 3 || p.ownAddr > 3 || p.channels == {} || (exists c | c in p.channels :: c >= 3)
         || p.interval < 0x20 || p.intervalMax > 0x4000 || p.interval > p.intervalMax {
        return InvalidParam;
      }
      if p.typ == DIRECT_HIGH || p.typ == DIRECT_LOW || p.ownAddr > OWN_RANDOM || p.filter != 0 {
        return Unsupported;
      }
      prm := p;
      st := Success;
    }

    /** `taken` links are in use; `rndSet`: the host has set a random
        address. */
    method Enable(enable: bool, taken: nat, rndSet: bool) returns (st: Status)
      requires Valid() && Quiet()
      modifies this, arb, arb.slots
      ensures Valid() && Quiet()
      ensures st == if enable && !old(enabled) && old(prm).ownAddr == OWN_RANDOM && !rndSet then InvalidParam
                    else if enable && !old(enabled) && Connectable(old(prm)) && taken >= adv then ConnLimit
                    else Success
      ensures enabled == if st == Success then enable else old(enabled)
      ensures radioDirty <==> old(radioDirty) && !(enabled && !old(enabled) && taken == 0)
      ensures enabled && !old(enabled) ==> !inEvent && eventTick >= old(clock) + START_LEAD && lastFull >= old(clock)
      ensures enabled && !old(enabled) && Alone(old(arb.st).slots, adv) ==>
                WholeAt(eventTick) && eventTick <= clock + START_LEAD
      ensures enabled == old(enabled) ==>
                arb.st == old(arb.st) && (inEvent, onAir, chIdx, eventTick) == old((inEvent, onAir, chIdx, eventTick))
    {
      st := Success;
      if enable && !enabled {
        if prm.ownAddr == OWN_RANDOM && !rndSet {
          st := InvalidParam;
        } else if Connectable(prm) && taken >= adv {
          st := ConnLimit;
        } else {
          if radioDirty && taken == 0 {
            radioDirty := false;
          }
          TurnOn();
        }
      } else if !enable && enabled {
        enabled := false;
        inEvent := false;
        onAir := false;
        arb.Cancel(adv);
      }
    }

    /** Advertising starts: the first event is a start lead away. */
    method TurnOn()
      requires Valid() && Quiet() && !enabled
      modifies this, arb, arb.slots
      ensures Valid() && Quiet() && enabled && !onAir && !inEvent && prm == old(prm) && radioDirty == old(radioDirty)
      ensures eventTick >= old(clock) + START_LEAD && lastFull >= old(clock)
      ensures Alone(old(arb.st).slots, adv) ==> WholeAt(eventTick) && eventTick <= clock + START_LEAD && dropsInRow == 0
    {
      Begin();
      ghost var _, _, _, _ := PlanEvent(true);
    }

    method Begin()
      requires Valid() && Quiet() && !enabled
      modifies this`enabled, this`inEvent, this`onAir, this`lastFull, this`dropsInRow, this`eventTick, this`clock
      ensures Unplaced() && Quiet() && !inEvent && dropsInRow == 0
      ensures old(clock) <= lastFull <= clock && eventTick == clock + START_LEAD
      ensures Alone(arb.st.slots, adv) ==> Free(arb.st.slots, eventTick, 0, |prm.channels| * CHAN_US)
    {
      enabled := true;
      inEvent := false;
      onAir := false;
      lastFull := RadioNow();
      dropsInRow := 0;
      var now := RadioNow();
      eventTick := now + START_LEAD;
      AloneIsFree(arb.st.slots, adv, eventTick, |prm.channels| * CHAN_US);
    }

    /** The main alarm fires; a started link takes the air. */
    method AlarmFired(flash: bool)
      requires Valid() && Quiet() && arb.st.alarm.Some?
      modifies this, arb, arb.slots
      ensures Valid() && Quiet() && enabled == old(enabled) && prm == old(prm)
      ensures inEvent && old(inEvent) ==> chIdx == old(chIdx)
      ensures old(enabled) && IsEarliest(old(arb.st).slots, adv) && !SomeOtherRuns(old(arb.st).slots, adv) ==>
                && (onAir <==> !flash)
                && (onAir && !stale ==> (chansLeft + 1) * CHAN_US == old(arb.st).slots[adv].r.minLen)
                && (onAir && !old(inEvent) ==> FirstAfter(prm.channels, -1, chIdx))
    {
      NewPlans();
      var what := arb.AlarmFired();
      match what {
        case Nothing =>
        case Bumped(_) =>
          DispatchBumps();
        case Started(id, _) =>
          if id == adv {
            ArbStart(flash);
          }
      }
    }

    /** The enabled channels the event in progress has still to come to. */
    ghost function Ahead(): set<nat>
      reads this`prm, this`chIdx
    {
      set c | c in prm.channels && c > chIdx
    }

    /** A radio event of an advertising channel: a scan request answered in
        time waits for the end of the answer; a connect request hands over to
        a link, which may refuse.  After anything else the event goes on to the
        next channel, or is over. */
    method RadioEvt(scanReq: bool, answered: bool, connectInd: bool, accepted: bool, flash: bool)
      requires Valid() && Quiet()
      modifies this, arb, arb.slots
      ensures Valid() && Quiet()
      ensures enabled <==> old(enabled) && !(old(onAir) && !(Scannable(prm) && scanReq && answered)
                                             && Connectable(prm) && connectInd && accepted)
      ensures prm == old(prm)
      ensures !old(onAir) || (Scannable(prm) && scanReq && answered) ==>
                && arb.st == old(arb.st) && (onAir, inEvent, chIdx, eventTick) == old((onAir, inEvent, chIdx, eventTick))
                && (chansLeft, sent, lastFull, dropsInRow) == old((chansLeft, sent, lastFull, dropsInRow))
      ensures old(onAir) && !(Scannable(prm) && scanReq && answered) && Connectable(prm) && connectInd ==> !inEvent
      ensures old(onAir) && !(Scannable(prm) && scanReq && answered) && !(Connectable(prm) && connectInd) ==>
                && (inEvent ==> !flash && FirstAfter(prm.channels, old(chIdx), chIdx) && Ahead() < old(Ahead()))
                && (inEvent ==> (onAir <==> old(chansLeft) > 0))
                && (!flash && NoneAfter(prm.channels, old(chIdx)) ==> !inEvent && lastFull >= old(clock))
    {
      if !enabled || !inEvent || !onAir {
        return;
      }
      if Scannable(prm) && scanReq && answered {
        return;
      }
      if Connectable(prm) && connectInd {
        Connecting(accepted);
      } else {
        NextChannel(flash);
        if inEvent {
          assert chIdx in old(Ahead()) && chIdx !in Ahead();
        }
      }
    }

    /** A central asks for a connection: advertising ends, a link may be made, and
        if it is not, advertising goes on. */
    method Connecting(accepted: bool)
      requires Valid() && Quiet() && enabled && inEvent && onAir
      modifies this, arb, arb.slots
      ensures Valid() && Quiet() && enabled == !accepted && prm == old(prm) && !inEvent
      ensures radioDirty <==> old(radioDirty) || accepted
    {
      inEvent := false;
      onAir := false;
      enabled := false;
      arb.Cancel(adv);
      var link: nat := *;
      if link < adv {
        LinkActs(link);
      }
      if accepted {
        radioDirty := true;
      } else {
        enabled := true;
        ScheduleNextEvent();
      }
    }

    method NewPlans()
      modifies this`plans
    {
      plans := *;
    }

    /** A link plans its next event: it asks, gives up or cancels, as often as
        it likes. */
    method LinkActs(i: nat)
      requires Valid() && Quiet() && i < adv
      modifies this, arb, arb.slots
      ensures Valid() && Quiet() && enabled == old(enabled) && prm == old(prm)
      ensures radioDirty == old(radioDirty) && (inEvent ==> old(inEvent) && chIdx == old(chIdx))
    {
      var rounds: nat := *;
      while rounds > 0
        invariant Valid() && Quiet() && enabled == old(enabled) && prm == old(prm)
        invariant radioDirty == old(radioDirty) && (inEvent ==> old(inEvent) && chIdx == old(chIdx))
      {
        rounds := rounds - 1;
        NewPlans();
        var act: nat := *;
        match act {
          case 0 =>
            var r := AnyReq();
            var _ := LinkRequest(i, r);
          case 1 =>
            LinkYield(i);
          case _ =>
            arb.Cancel(i);
        }
      }
    }

    /** An event in progress ends, whatever the links and the alarm do in between:
        after as many radio events without an answer as there are channels it is
        over. */
    method EventEnds(steps: nat) returns (ghost radio: nat, ghost over: bool)
      requires Valid() && Quiet() && enabled && inEvent
      modifies this, arb, arb.slots
      ensures Valid() && Quiet() && enabled
      ensures radio >= |prm.channels| ==> over
    {
      radio, over := 0, false;
      ProperSubsetCount(Ahead(), prm.channels, chIdx);
      for k := 0 to steps
        invariant Valid() && Quiet() && enabled && prm == old(prm)
        invariant over || (inEvent && radio + |Ahead()| <= old(|Ahead()|))
      {
        ghost var aired := EventStep();
        radio, over := radio + aired, over || !inEvent;
      }
    }

    /** A radio event, the alarm, or a link. */
    method EventStep() returns (ghost aired: nat)
      requires Valid() && Quiet() && enabled
      modifies this, arb, arb.slots
      ensures Valid() && Quiet() && enabled && prm == old(prm)
      ensures inEvent && old(inEvent) ==> aired + |Ahead()| <= old(|Ahead()|)
    {
      var what: nat, flash: bool := *, *;
      aired := 0;
      if what == 0 && onAir {
        RadioEvt(false, false, false, false, flash);
        aired := 1;
        if inEvent {
          ProperSubsetCount(Ahead(), old(Ahead()), chIdx);
        }
      } else if what == 1 && arb.sched.Some? {
        AlarmFired(flash);
      } else if what < adv {
        LinkActs(what);
      }
    }

    /** Any number of anything: every state that is ever left to the
        environment is valid, so advertising is never silent in it. */
    method AnyRun(steps: nat)
      requires Valid() && Quiet()
      modifies this, arb, arb.slots
      ensures Valid() && Quiet()
      ensures Safe(arb.st)
      ensures var a := arb.st.slots[adv];
              if !enabled then !a.used && !onAir && !inEvent
              else if onAir then Running(a) && inEvent && chIdx in prm.channels
                                 && (!stale ==> (sent + chansLeft) * CHAN_US == a.r.minLen)
              else Waiting(a) && a.r.alarm == a.r.open && a.r.minLen == a.r.maxLen
                   && (if inEvent then a.r.minLen == CHAN_US && a.r.alarm + START_SLACK - pduTick <= PDU_GAP_MAX
                       else a.r.alarm >= eventTick)
                   && (dropsInRow >= STARVE_INTERVALS && !resort ==> a.r.prio == PRIO_ACTIVE)
                   && (!stale ==> a.r.alarm == reqTick && a.r.minLen == reqChans * CHAN_US)
    {
      for k := 0 to steps
        invariant Valid() && Quiet()
      {
        var what: nat, flash: bool, b1: bool, b2: bool, b3: bool, b4: bool, taken: nat := *, *, *, *, *, *, *;
        match what {
          case 0 =>
            var _ := Enable(b1, taken, b2);
          case 1 =>
            if arb.sched.Some? {
              AlarmFired(flash);
            }
          case 2 =>
            RadioEvt(b1, b2, b3, b4, flash);
          case 3 =>
            var p: Params := *;
            var _ := SetParams(p);
          case _ =>
            if taken < adv {
              LinkActs(taken);
            }
        }
      }
      ReachedIsSafe(arb.states, arb.steps, arb.st);
    }
  }

  /** A refused request, and one in a gap, move nobody else. */
  lemma GapMovesNobody(s: Slots, id: nat, t: int, chans: nat, prio: nat, s': Slots, ok: bool)
    requires id < |s| && RequestSlots(s, id, ChannelReq(t, chans, prio), s', ok)
    ensures Free(s, t, 0, chans * CHAN_US) ==> ok && Victims(s, id, ChannelReq(t, chans, prio)) == {}
    ensures !ok || Free(s, t, 0, chans * CHAN_US) ==> OthersUntouched(s, s', id)
    ensures !ok ==> s'[id].yielded == s[id].yielded
  {
  }

  /** A starving advertiser is accepted at once by meek links. */
  lemma MeekLinksYield(s: Slots, id: nat, r: Req)
    requires id < |s|
    ensures Meek(s, id) && r.prio >= PRIO_ACTIVE ==> Accepted(s, id, r)
  {
  }

  lemma AloneIsFree(s: Slots, id: nat, t: int, len: nat)
    requires id < |s|
    ensures Alone(s, id) ==> Free(Cancelled(s, id), t, 0, len)
  {
  }

  /** Gaps depend on the others, once the requester holds nothing. */
  lemma SameGap(s: Slots, s': Slots, id: nat, from: int, len: nat, t: int)
    requires id < |s| && OthersUntouched(s, s', id) && !s'[id].used
    ensures IsGap(Cancelled(s, id), from, 0, len, t) ==> IsGap(s', from, 0, len, t)
  {
    forall u
      ensures Free(s', u, 0, len) <==> Free(Cancelled(s, id), u, 0, len)
    {
      SameFree(s, s', id, u, len);
    }
  }

  /** A refused advertiser looks for gaps between what the others hold. */
  lemma RefusedGoesByGaps(p: Params, s: Slots, s': Slots, id: nat, from: int, prio: nat, c: Choice)
    requires id < |s| && OthersUntouched(s, s', id) && !s'[id].used && ByGaps(p, s', from, c)
    requires !Accepted(s, id, ChannelReq(from, |p.channels|, prio)) && !Accepted(s, id, ChannelReq(from, 1, prio))
    ensures GoesTo(p, s, id, from, true, prio, c)
  {
    var n, s0 := |p.channels|, Cancelled(s, id);
    forall tf, t1 | IsGap(s0, from, 0, n * CHAN_US, tf) && IsGap(s0, from, 0, CHAN_US, t1)
      ensures IsGap(s', from, 0, n * CHAN_US, tf) && IsGap(s', from, 0, CHAN_US, t1)
    {
      SameGap(s, s', id, from, n * CHAN_US, tf);
      SameGap(s, s', id, from, CHAN_US, t1);
    }
  }

  lemma SameFree(s: Slots, s': Slots, id: nat, t: int, len: nat)
    requires id < |s| && OthersUntouched(s, s', id) && !s'[id].used
    ensures Free(s', t, 0, len) <==> Free(Cancelled(s, id), t, 0, len)
  {
    var c := Cancelled(s, id);
    assert forall i: nat | i < |s| && i != id :: c[i] == s[i] == s'[i];
  }

  /** Who refuses depends on the others and on the requester's own flag. */
  lemma SameRefusals(s: Slots, s': Slots, id: nat, r: Req)
    requires id < |s| && OthersUntouched(s, s', id) && s'[id].yielded == s[id].yielded
    ensures Accepted(s, id, r) <==> Accepted(s', id, r)
  {
    forall i: nat | i < |s|
      ensures Refuses(s, id, r, i) <==> Refuses(s', id, r, i)
    {
    }
  }

  lemma ChannelCount(p: Params)
    requires ValidParams(p)
    ensures 1 <= |p.channels| <= 3
  {
    assert p.channels <= {0, 1, 2};
    SubsetCount(p.channels, {0, 1, 2});
  }

  lemma ProperSubsetCount(a: set<nat>, b: set<nat>, x: nat)
    requires a <= b && x in b && x !in a
    ensures |a| < |b|
  {
    SubsetCount(a, b - {x});
  }

  lemma {:induction false} SubsetCount(a: set<nat>, b: set<nat>)
    requires a <= b
    ensures |a| <= |b|
  {
    if x :| x in a {
      SubsetCount(a - {x}, b - {x});
    }
  }
}
