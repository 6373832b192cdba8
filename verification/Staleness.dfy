/** The two fields that `Controller.AdvRequest` writes last, and when the links
    can make them wrong: the request is accepted, the owners it displaced are
    called back, and one of them displaces advertising in turn. */
module Staleness {
  import opened Ticks
  import opened Wrappers
  import opened Arbiter
  import opened Controller

  // ---------------------------------------------------------------------
  // Dispatches
  // ---------------------------------------------------------------------

  /** The owner that was called back last. */
  function Turn(steps: seq<Step>): Option<nat> {
    if steps == [] then None
    else
      match steps[|steps| - 1]
      case CallBack(i) => Some(i)
      case _ => Turn(steps[..|steps| - 1])
  }

  /** What a displaced advertiser asks for: channels in the first gap from its
      displaced placement on. */
  ghost predicate AdvAsks(s: Slots, from: int, r: Req) {
    exists chans: nat, prio: nat ::
      1 <= chans <= 3 && r == ChannelReq(r.alarm, chans, prio) && IsGap(s, from, 0, chans * CHAN_US, r.alarm)
  }

  /** The lowest id that is due is called back; the owner called back asks, gives
      up or cancels as it likes, advertising as it does. */
  ghost predicate Allowed(adv: nat, from: int, a: State, turn: Option<nat>, step: Step) {
    match step
    case CallBack(i) => forall j | j in a.pending :: i <= j
    case Request(i, r) => turn == Some(i) && (i == adv ==> AdvAsks(a.slots, from, r))
    case Yield(i) => turn == Some(i)
    case Cancel(i) => turn == Some(i)
    case _ => false
  }

  ghost predicate AllowedAt(adv: nat, from: int, states: seq<State>, steps: seq<Step>, k: nat) {
    k < |steps| && k < |states| && Allowed(adv, from, states[k], Turn(steps[..k]), steps[k])
  }

  /** A dispatch that has come this far. */
  ghost predicate Dispatching(adv: nat, from: int, states: seq<State>, steps: seq<Step>) {
    && IsRun(states, steps)
    && forall k: nat {:trigger AllowedAt(adv, from, states, steps, k)} | k < |steps| :: AllowedAt(adv, from, states, steps, k)
  }

  function Last(states: seq<State>): State
    requires states != []
  {
    states[|states| - 1]
  }

  lemma Extend(adv: nat, from: int, states: seq<State>, steps: seq<Step>, step: Step, b: State)
    requires Dispatching(adv, from, states, steps)
    requires Next(Last(states), step, b) && Allowed(adv, from, Last(states), Turn(steps), step)
    ensures Dispatching(adv, from, states + [b], steps + [step])
  {
    var states', steps' := states + [b], steps + [step];
    forall k: nat | k < |steps'|
      ensures Next(states'[k], steps'[k], states'[k + 1]) && AllowedAt(adv, from, states', steps', k)
    {
      if k < |steps| {
        assert Next(states[k], steps[k], states[k + 1]) && AllowedAt(adv, from, states, steps, k);
        assert steps'[..k] == steps[..k];
      } else {
        assert steps'[..k] == steps;
      }
    }
  }

  lemma Least(p: set<nat>) returns (i: nat)
    requires p != {}
    ensures i in p && forall j | j in p :: i <= j
  {
    var w :| w in p;
    i := w;
    while exists j :: j in p && j < i
      invariant i in p
      decreases i
    {
      var j :| j in p && j < i;
      i := j;
    }
  }

  /** Nobody answers a callback any more, until all are called back. */
  lemma {:induction false} Drain(adv: nat, from: int, states: seq<State>, steps: seq<Step>)
    returns (states': seq<State>, steps': seq<Step>)
    requires Dispatching(adv, from, states, steps) && forall i | i in Last(states).pending :: i < |Last(states).slots|
    ensures Dispatching(adv, from, states', steps') && states'[0] == states[0]
    ensures Last(states') == Last(states).(pending := {})
    ensures Last(states).pending == {} ==> steps' == steps
    ensures adv in Last(states).pending && (forall i | i in Last(states).pending :: i <= adv) ==> Turn(steps') == Some(adv)
    decreases Last(states).pending
  {
    var a := Last(states);
    if a.pending == {} {
      states', steps' := states, steps;
    } else {
      var i := Least(a.pending);
      var b := a.(pending := a.pending - {i});
      Extend(adv, from, states, steps, CallBack(i), b);
      states', steps' := Drain(adv, from, states + [b], steps + [CallBack(i)]);
      if a.pending == {adv} {
        assert b.pending == {};
      } else if adv in a.pending && forall j | j in a.pending :: j <= adv {
        assert exists j :: j in a.pending && j != adv;
        assert i != adv;
      }
    }
  }

  // ---------------------------------------------------------------------
  // What there always is
  // ---------------------------------------------------------------------

  lemma FreeSomewhere(s: Slots, from: int, len: nat) returns (t: int)
    ensures t >= from && Free(s, t, 0, len)
  {
    t := from;
    for i := 0 to |s|
      invariant t >= from && forall j: nat | j < i :: t > SpanEnd(s[j])
    {
      if t <= SpanEnd(s[i]) {
        t := SpanEnd(s[i]) + 1;
      }
    }
  }

  lemma GapExists(s: Slots, from: int, len: nat) returns (t: int)
    ensures IsGap(s, from, 0, len, t)
  {
    var far := FreeSomewhere(s, from, len);
    t := from;
    while !Free(s, t, 0, len)
      invariant from <= t <= far && forall u | from <= u < t :: !Free(s, u, 0, len)
      decreases far - t
    {
      t := t + 1;
    }
  }

  /** The slots after an accepted request. */
  ghost function Granted(s: Slots, id: nat, r: Req): (t: Slots)
    requires id < |s| && Accepted(s, id, r)
    ensures RequestSlots(s, id, r, t, true)
  {
    seq(|s|, i requires 0 <= i < |s| =>
      if i == id then Slot(true, false, s[id].yielded && !Collided(s, id, r), None, r, s[id].runEnd)
      else if Contends(s, id, r, i) then s[i].(used := false, yielded := true)
      else s[i])
  }

  // ---------------------------------------------------------------------
  // A victim that comes back
  // ---------------------------------------------------------------------

  /** The same span at the next higher priority. */
  function Harder(r: Req): Req {
    r.(prio := r.prio + 1)
  }

  /** A victim of an accepted request that asks for the same span at the next
      priority is accepted, and displaces the requester and nobody else. */
  lemma VictimComesBack(s: Slots, id: nat, r: Req, t: Slots, v: nat)
    requires id < |s| && ValidReq(r) && RequestSlots(s, id, r, t, true) && v in Victims(s, id, r)
    ensures Accepted(t, v, Harder(r)) && Victims(t, v, Harder(r)) == {id}
  {
  }

  /** So it can end: advertising is placed anew, and not where it asked. */
  ghost predicate EndsElsewhere(adv: nat, r: Req, states: seq<State>, steps: seq<Step>) {
    && Dispatching(adv, r.alarm, states, steps) && Last(states).pending == {} && adv < |Last(states).slots|
    && Waiting(Last(states).slots[adv]) && Last(states).slots[adv].r.alarm != r.alarm
  }

  /** What the arbiter holds for advertising is not what was asked for. */
  ghost predicate EndsWrong(adv: nat, r: Req, states: seq<State>, steps: seq<Step>) {
    && Dispatching(adv, r.alarm, states, steps) && Last(states).pending == {} && adv < |Last(states).slots|
    && !(Waiting(Last(states).slots[adv]) && Last(states).slots[adv].r == r)
  }

  /** The displaced owner takes the span, everybody is called back, and
      advertising finds a gap after it. */
  lemma LinksCanDoIt(a: State, adv: nat, r: Req, b: State) returns (states: seq<State>, steps: seq<Step>)
    requires Safe(a) && a.pending == {} && adv == |a.slots| - 1 && Next(a, Request(adv, r), b)
    requires Accepted(a.slots, adv, r) && Victims(a.slots, adv, r) != {}
    ensures states != [] && states[0] == b && EndsElsewhere(adv, r, states, steps)
  {
    var v := Least(b.pending);
    var states1, steps1 := [b], [];
    assert Dispatching(adv, r.alarm, states1, steps1);
    var c := b.(pending := b.pending - {v});
    Extend(adv, r.alarm, states1, steps1, CallBack(v), c);
    var states2, steps2 := states1 + [c], steps1 + [CallBack(v)];
    VictimComesBack(a.slots, adv, r, b.slots, v);
    var t := Granted(b.slots, v, Harder(r));
    var d := State(t, c.pending + {adv}, AlarmOf(t));
    assert Next(c, Request(v, Harder(r)), d);
    Extend(adv, r.alarm, states2, steps2, Request(v, Harder(r)), d);
    states, steps := Drain(adv, r.alarm, states2 + [d], steps2 + [Request(v, Harder(r))]);
    states, steps := PlaceAgain(adv, r, v, states, steps);
  }

  lemma PlaceAgain(adv: nat, r: Req, v: nat, states: seq<State>, steps: seq<Step>)
    returns (states': seq<State>, steps': seq<Step>)
    requires Dispatching(adv, r.alarm, states, steps) && Last(states).pending == {} && Turn(steps) == Some(adv)
    requires v < |Last(states).slots| && adv < |Last(states).slots| && v != adv
    requires Waiting(Last(states).slots[v]) && Last(states).slots[v].r == Harder(r) && ValidReq(r)
    ensures states' != [] && states'[0] == states[0] && EndsElsewhere(adv, r, states', steps')
  {
    var s := Last(states).slots;
    var at := GapExists(s, r.alarm, CHAN_US);
    assert at != r.alarm by {
      assert Overlap(r.alarm, r.alarm + US(CHAN_US), s[v].r.alarm, SpanEnd(s[v]));
    }
    var q := ChannelReq(at, 1, PRIO_ADV);
    GapRequestAccepted(s, adv, q);
    var t := Granted(s, adv, q);
    var e := State(t, {}, AlarmOf(t));
    assert Next(Last(states), Request(adv, q), e);
    assert AdvAsks(s, r.alarm, q);
    Extend(adv, r.alarm, states, steps, Request(adv, q), e);
    states', steps' := states + [e], steps + [Request(adv, q)];
  }

  /** The fields can be wrong after an accepted request, by some behaviour of
      the links, exactly when the request displaces somebody. */
  lemma FieldsCanBeWrong(a: State, adv: nat, r: Req, b: State)
    requires Safe(a) && a.pending == {} && adv == |a.slots| - 1 && Next(a, Request(adv, r), b)
    requires Accepted(a.slots, adv, r)
    ensures Victims(a.slots, adv, r) != {} <==>
            exists states: seq<State>, steps: seq<Step> :: states != [] && states[0] == b && EndsWrong(adv, r, states, steps)
  {
    if Victims(a.slots, adv, r) != {} {
      var states, steps := LinksCanDoIt(a, adv, r, b);
      assert EndsWrong(adv, r, states, steps);
    } else {
      forall states: seq<State>, steps: seq<Step> | states != [] && states[0] == b && Dispatching(adv, r.alarm, states, steps)
        ensures !EndsWrong(adv, r, states, steps)
      {
        NothingDue(adv, r, states, steps);
      }
    }
  }

  /** A dispatch begins with a callback. */
  lemma BeginsWithCallBack(adv: nat, r: Req, states: seq<State>, steps: seq<Step>)
    requires Dispatching(adv, r.alarm, states, steps) && steps != []
    ensures states[0].pending != {}
  {
    assert AllowedAt(adv, r.alarm, states, steps, 0);
    assert steps[..0] == [];
    assert Next(states[0], steps[0], states[1]);
  }

  /** With nobody to call back it is over at once. */
  lemma NothingDue(adv: nat, r: Req, states: seq<State>, steps: seq<Step>)
    requires Dispatching(adv, r.alarm, states, steps) && states[0].pending == {}
    ensures steps == [] && Last(states) == states[0]
  {
    if steps != [] {
      BeginsWithCallBack(adv, r, states, steps);
    }
  }

  // ---------------------------------------------------------------------
  // How wrong
  // ---------------------------------------------------------------------

  // Three links and advertising (3), with 500 us of lead.  A starving advertiser
  // asks for a whole event and displaces link 0.  That link comes back one
  // connection interval of 7.5 ms later, starving itself, and displaces it.  The
  // other links leave no room for a whole event within 10 ms, so advertising
  // takes the first gap for one channel.

  const ADV: nat := 3
  const WHOLE := ChannelReq(100000, 3, PRIO_ACTIVE)
  const ONE := ChannelReq(100000, 1, PRIO_ACTIVE)
  const EVENT := Req(68000, 76000, 2000, 2000, 1)
  const NEXT_EVENT := Req(68000 + US(7500), 76000 + US(7500), 2000, 2000, 3)
  const LINK1 := Accept(Req(260000, 268000, 4500, 4500, 1))
  const LINK2 := Accept(Req(348000, 356000, 4500, 4500, 1))
  const NO_ADV := Accept(ONE).(used := false)

  function Accept(r: Req): Slot {
    Slot(true, false, false, None, r, 0)
  }

  function Lost(s: Slot): Slot {
    s.(used := false, yielded := true)
  }

  function States(): seq<State> {
    [State([Accept(EVENT), LINK1, LINK2, NO_ADV], {}, Some(68000)),
     State([Lost(Accept(EVENT)), LINK1, LINK2, Accept(WHOLE)], {0}, Some(100000)),
     State([Lost(Accept(EVENT)), LINK1, LINK2, Accept(WHOLE)], {}, Some(100000)),
     State([Accept(NEXT_EVENT), LINK1, LINK2, Lost(Accept(WHOLE))], {3}, Some(188000)),
     State([Accept(NEXT_EVENT), LINK1, LINK2, Lost(Accept(WHOLE))], {}, Some(188000)),
     State([Accept(NEXT_EVENT), LINK1, LINK2, Accept(ONE).(yielded := true)], {}, Some(100000))]
  }

  function Steps(): seq<Step> {
    [Request(ADV, WHOLE), CallBack(0), Request(0, NEXT_EVENT), CallBack(ADV), Request(ADV, ONE)]
  }

  lemma FirstStep()
    ensures Next(States()[0], Steps()[0], States()[1])
  {
    var s, t := States()[0].slots, States()[1].slots;
    assert Contends(s, ADV, WHOLE, 0) && !Contends(s, ADV, WHOLE, 1) && !Contends(s, ADV, WHOLE, 2);
    assert Victims(s, ADV, WHOLE) == {0};
    assert RequestSlots(s, ADV, WHOLE, t, true);
    assert IsEarliest(t, 3);
    AlarmOfIsRight(t, Some(100000));
  }

  lemma ThirdStep()
    ensures Next(States()[2], Steps()[2], States()[3])
  {
    var s, t := States()[2].slots, States()[3].slots;
    assert Contends(s, 0, NEXT_EVENT, 3) && !Contends(s, 0, NEXT_EVENT, 1) && !Contends(s, 0, NEXT_EVENT, 2);
    assert Victims(s, 0, NEXT_EVENT) == {3};
    assert RequestSlots(s, 0, NEXT_EVENT, t, true);
    assert IsEarliest(t, 0);
    AlarmOfIsRight(t, Some(188000));
  }

  lemma LastStep()
    ensures Next(States()[4], Steps()[4], States()[5])
  {
    var s, t := States()[4].slots, States()[5].slots;
    assert !Contends(s, ADV, ONE, 0) && !Contends(s, ADV, ONE, 1) && !Contends(s, ADV, ONE, 2);
    assert Victims(s, ADV, ONE) == {};
    assert RequestSlots(s, ADV, ONE, t, true);
    assert IsEarliest(t, 3);
    AlarmOfIsRight(t, Some(100000));
  }

  lemma StaysARun()
    ensures IsRun(States(), Steps())
  {
    FirstStep();
    ThirdStep();
    LastStep();
  }

  lemma StartsSafe()
    ensures Safe(States()[0])
  {
    assert IsEarliest(States()[0].slots, 0);
  }

  /** Also the number of channels: the request for three is accepted, the
      dispatch runs to its end, and the arbiter holds one, because no gap for
      three comes within the wait for it.  The advertiser goes on to send three
      in a span reserved for one. */
  lemma CallerIsToldMore()
    ensures IsRun(States(), Steps()) && Safe(States()[0])
    ensures Accepted(States()[0].slots, ADV, WHOLE)
    ensures IsGap(States()[4].slots, WHOLE.alarm, 0, CHAN_US, ONE.alarm)
    ensures forall t | ONE.alarm <= t <= ONE.alarm + WHOLE_WAIT :: !Free(States()[4].slots, t, 0, 3 * CHAN_US)
    ensures States()[5].pending == {} && States()[5].slots[ADV].used
    ensures 3 * States()[5].slots[ADV].r.minLen == WHOLE.minLen
  {
    StaysARun();
    StartsSafe();
    var s := States()[4].slots;
    forall t | ONE.alarm <= t <= ONE.alarm + WHOLE_WAIT
      ensures !Free(s, t, 0, 3 * CHAN_US)
    {
      assert Overlap(t, t + US(3 * CHAN_US), s[0].r.alarm, SpanEnd(s[0]))
          || Overlap(t, t + US(3 * CHAN_US), s[1].r.alarm, SpanEnd(s[1]));
    }
  }
}
