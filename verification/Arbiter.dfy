/** The event arbiter as a specification: its state, what each operation does
    to it, and what every run of operations keeps. */
module Arbiter {
  import opened Ticks
  import opened Wrappers

  const EVENT_SAFETY_US: int := 300
  const ARM_LEAD_US: int := 500
  /** A started event ends this long before the next request opens. */
  const CLIP_RESERVE_US: int := EVENT_SAFETY_US + ARM_LEAD_US

  datatype Req = Req(alarm: int, open: int, minLen: nat, maxLen: nat, prio: nat)

  /** What the owners' requests satisfy: the alarm is not after the open, and
      the reserved length covers the clipping reserve. */
  predicate ValidReq(r: Req) {
    r.alarm <= r.open && r.minLen >= CLIP_RESERVE_US
  }

  function ReqEnd(r: Req): int {
    r.open + US(r.minLen)
  }

  datatype Slot = Slot(
    used: bool,              // holds a request
    running: bool,           // and its event is under way
    yielded: bool,           // came off worse the last time
    refusedBy: Option<nat>,  // who stood in the way of a refused request
    r: Req,
    runEnd: int)             // where the event under way ends, reserve included

  type Slots = seq<Slot>

  predicate Running(o: Slot) {
    o.used && o.running
  }

  /** Accepted and not started yet. */
  predicate Waiting(o: Slot) {
    o.used && !o.running
  }

  function SpanEnd(o: Slot): int {
    if o.running then o.runEnd else ReqEnd(o.r)
  }

  predicate SpansMeet(a: Slot, b: Slot) {
    Overlap(a.r.alarm, SpanEnd(a), b.r.alarm, SpanEnd(b))
  }

  /** A request against another slot: a running one is judged by the request's
      open and one tick before its end. */
  predicate Collides(r: Req, o: Slot) {
    if o.running
    then Overlap(r.open, ReqEnd(r), o.r.alarm, o.runEnd - 1)
    else Overlap(r.alarm, ReqEnd(r), o.r.alarm, SpanEnd(o))
  }

  /** The requester `me` displaces `o`. */
  predicate Wins(me: Slot, r: Req, o: Slot) {
    && !o.running
    && (o.r.prio < r.prio || (o.r.prio == r.prio && me.yielded && !o.yielded))
  }

  predicate Contends(s: Slots, id: nat, r: Req, i: nat) {
    i < |s| && i != id && s[i].used && Collides(r, s[i])
  }

  predicate Refuses(s: Slots, id: nat, r: Req, i: nat)
    requires id < |s|
  {
    Contends(s, id, r, i) && !Wins(s[id], r, s[i])
  }

  /** The first slot that refuses the request. */
  ghost predicate IsRefuser(s: Slots, id: nat, r: Req, i: nat)
    requires id < |s|
  {
    Refuses(s, id, r, i) && forall j: nat | j < i :: !Refuses(s, id, r, j)
  }

  ghost predicate Accepted(s: Slots, id: nat, r: Req)
    requires id < |s|
  {
    forall i: nat | i < |s| :: !Refuses(s, id, r, i)
  }

  ghost predicate Collided(s: Slots, id: nat, r: Req) {
    exists i: nat | i < |s| :: Contends(s, id, r, i)
  }

  function Victims(s: Slots, id: nat, r: Req): set<nat> {
    set i: nat | i < |s| && Contends(s, id, r, i)
  }

  /** The slots after a request: `t` is what `s` becomes. */
  ghost predicate RequestSlots(s: Slots, id: nat, r: Req, t: Slots, ok: bool)
    requires id < |s|
  {
    && |t| == |s|
    && (ok <==> Accepted(s, id, r))
    && (ok ==>
          && t[id] == Slot(true, false, s[id].yielded && !Collided(s, id, r), None, r, s[id].runEnd)
          && forall i: nat | i < |s| && i != id ::
               t[i] == if Contends(s, id, r, i) then s[i].(used := false, yielded := true) else s[i])
    && (!ok ==> exists k: nat | k < |s| ::
          IsRefuser(s, id, r, k) && t == s[id := s[id].(used := false, running := false, refusedBy := Some(k))])
  }

  predicate IsEarliest(s: Slots, i: nat) {
    && i < |s| && Waiting(s[i])
    && forall j: nat | j < |s| && Waiting(s[j]) ::
         s[i].r.alarm <= s[j].r.alarm && (j < i ==> s[i].r.alarm < s[j].r.alarm)
  }

  /** There is but one, with the lowest id among equals. */
  lemma OneIsEarliest(s: Slots, i: nat, j: nat)
    requires i < |s| && j < |s| && IsEarliest(s, i) && Waiting(s[j])
    ensures s[i].r.alarm <= s[j].r.alarm && (s[i].r.alarm == s[j].r.alarm ==> i <= j)
    ensures IsEarliest(s, j) <==> i == j
  {
  }

  predicate NoneWaiting(s: Slots) {
    forall j: nat | j < |s| :: !Waiting(s[j])
  }

  /** The main alarm stands for the earliest waiting request, or is off. */
  ghost predicate AlarmRight(s: Slots, alarm: Option<int>) {
    match alarm
    case None => NoneWaiting(s)
    case Some(t) => exists i: nat | i < |s| :: IsEarliest(s, i) && s[i].r.alarm == t
  }

  /** The slot that arming finds, and the alarm it sets. */
  function EarliestOf(s: Slots): (r: Option<nat>)
    ensures r.Some? ==> r.value < |s|
  {
    if s == [] then None
    else
      var n := |s| - 1;
      var b := EarliestOf(s[..n]);
      if Waiting(s[n]) && (b.None? || s[n].r.alarm < s[b.value].r.alarm) then Some(n) else b
  }

  function AlarmOf(s: Slots): Option<int> {
    match EarliestOf(s)
    case None => None
    case Some(i) => Some(s[i].r.alarm)
  }

  lemma {:induction false} EarliestIsFound(s: Slots)
    ensures match EarliestOf(s) case None => NoneWaiting(s) case Some(i) => IsEarliest(s, i)
  {
    if s != [] {
      var n := |s| - 1;
      EarliestIsFound(s[..n]);
      assert forall j: nat | j < n :: s[..n][j] == s[j];
    }
  }

  /** What arming sets stands for the earliest waiting request, and nothing else
      does. */
  lemma AlarmOfIsRight(s: Slots, alarm: Option<int>)
    ensures AlarmRight(s, alarm) <==> alarm == AlarmOf(s)
  {
    EarliestIsFound(s);
  }

  /** Only the fairness flags differ. */
  predicate SameRequests(s: Slots, t: Slots) {
    && |t| == |s|
    && forall i: nat | i < |s| ::
         t[i].used == s[i].used && t[i].running == s[i].running && t[i].r == s[i].r && t[i].runEnd == s[i].runEnd
  }

  lemma AlarmUnmoved(s: Slots, t: Slots, alarm: Option<int>)
    requires SameRequests(s, t) && AlarmRight(s, alarm)
    ensures AlarmRight(t, alarm)
  {
  }

  predicate SomeOtherRuns(s: Slots, id: nat) {
    exists i: nat | i < |s| :: i != id && Running(s[i])
  }

  function RoomBefore(open: int, o: Slot): nat
    requires open <= o.r.open
  {
    var lim := (o.r.open - open) / TICKS_PER_US;
    if lim > CLIP_RESERVE_US then lim - CLIP_RESERVE_US else 0
  }

  /** A waiting request other than `id` that opens no earlier than it. */
  predicate Follows(s: Slots, id: nat, i: nat)
    requires id < |s|
  {
    i < |s| && i != id && Waiting(s[i]) && s[id].r.open <= s[i].r.open
  }

  /** The cap of a started request: the largest length that stays within its
      own maximum and within the room before every waiting request. */
  ghost predicate IsCap(s: Slots, id: nat, cap: nat)
    requires id < |s|
  {
    && cap <= s[id].r.maxLen
    && (forall i: nat | Follows(s, id, i) :: cap <= RoomBefore(s[id].r.open, s[i]))
    && (cap == s[id].r.maxLen || exists i: nat | Follows(s, id, i) :: cap == RoomBefore(s[id].r.open, s[i]))
  }

  function RunEnd(r: Req, cap: nat): int {
    r.open + US(if cap + CLIP_RESERVE_US > r.minLen then cap + CLIP_RESERVE_US else r.minLen)
  }

  datatype State = State(slots: Slots, pending: set<nat>, alarm: Option<int>)

  // ---------------------------------------------------------------------
  // What every reachable state keeps
  // ---------------------------------------------------------------------

  ghost predicate OneRunning(s: Slots) {
    forall i: nat, j: nat | i < |s| && j < |s| && Running(s[i]) && Running(s[j]) :: i == j
  }

  ghost predicate WaitingDisjoint(s: Slots) {
    forall i: nat, j: nat | i < |s| && j < |s| && i != j && Waiting(s[i]) && Waiting(s[j]) :: !SpansMeet(s[i], s[j])
  }

  /** Every waiting request opens at or after the end of the running one, or
      lies wholly before it. */
  ghost predicate ClearOfRunning(s: Slots) {
    forall i: nat, j: nat | i < |s| && j < |s| && Running(s[i]) && Waiting(s[j]) ::
      s[j].r.open >= s[i].runEnd || ReqEnd(s[j].r) < s[i].r.alarm
  }

  ghost predicate ReqsValid(s: Slots) {
    forall i: nat | i < |s| && s[i].used ::
      ValidReq(s[i].r) && (s[i].running ==> s[i].runEnd >= ReqEnd(s[i].r))
  }

  ghost predicate SlotsSafe(s: Slots) {
    OneRunning(s) && WaitingDisjoint(s) && ClearOfRunning(s) && ReqsValid(s)
  }

  /** A displaced owner holds nothing until it is called back. */
  ghost predicate PendingIdle(s: Slots, pending: set<nat>) {
    forall i | i in pending :: i < |s| && !s[i].used
  }

  ghost predicate Safe(a: State) {
    SlotsSafe(a.slots) && PendingIdle(a.slots, a.pending) && AlarmRight(a.slots, a.alarm)
  }

  // ---------------------------------------------------------------------
  // The steps
  // ---------------------------------------------------------------------

  datatype Step =
    | Request(id: nat, r: Req)   // an owner asks, accepted or refused
    | Yield(id: nat)             // an owner gives the refused event up
    | Cancel(id: nat)
    | Fire(id: nat, cap: nat)    // the alarm starts a request
    | Overrun(id: nat)           // the alarm finds another event running
    | CallBack(id: nat)          // a displaced owner is told

  /** What `Yield` does to the fairness flags. */
  function YieldSlots(s: Slots, id: nat): Slots
    requires id < |s|
  {
    var t := s[id := s[id].(yielded := true)];
    var u := match s[id].refusedBy
      case Some(k) => if k < |s| then t[k := t[k].(yielded := false)] else t
      case None => t;
    u[id := u[id].(refusedBy := None)]
  }

  /** The slots after a cancellation. */
  function Cancelled(s: Slots, id: nat): Slots
    requires id < |s|
  {
    if s[id].used then s[id := s[id].(used := false, running := false)] else s
  }

  /** A step, and what it does to the alarm: a request, a cancellation and the
      alarm itself arm anew, a yield and a callback leave it alone. */
  ghost predicate Next(a: State, step: Step, b: State) {
    step.id < |a.slots| == |b.slots| &&
    (if step.Yield? || step.CallBack? then b.alarm == a.alarm else b.alarm == AlarmOf(b.slots)) &&
    var s, t, id := a.slots, b.slots, step.id;
    match step
    case Request(_, r) =>
      && ValidReq(r) && id !in a.pending
      && exists ok :: RequestSlots(s, id, r, t, ok)
                      && b.pending == if ok then a.pending + Victims(s, id, r) else a.pending
    case Yield(_) =>
      t == YieldSlots(s, id) && b.pending == a.pending
    case Cancel(_) =>
      t == s[id := s[id].(used := false, running := false)] && b.pending == a.pending
    case Fire(_, cap) =>
      && IsEarliest(s, id) && !SomeOtherRuns(s, id) && IsCap(s, id, cap)
      && t == s[id := s[id].(running := true, runEnd := RunEnd(s[id].r, cap))]
      && b.pending == a.pending
    case Overrun(_) =>
      && IsEarliest(s, id) && SomeOtherRuns(s, id)
      && t == s[id := s[id].(used := false, yielded := true)]
      && b.pending == a.pending + {id}
    case CallBack(_) =>
      id in a.pending && t == s && b.pending == a.pending - {id}
  }

  /** Every accepted request of `t` is one of `s`, unchanged. */
  ghost predicate NoneAdded(s: Slots, t: Slots) {
    && |t| == |s|
    && forall i: nat | i < |s| && t[i].used ::
         s[i].used && t[i].running == s[i].running && t[i].r == s[i].r && t[i].runEnd == s[i].runEnd
  }

  lemma DroppingKeepsSafe(s: Slots, t: Slots)
    requires SlotsSafe(s) && NoneAdded(s, t)
    ensures SlotsSafe(t)
  {
  }

  lemma RequestKeepsSafe(s: Slots, id: nat, r: Req, t: Slots, ok: bool)
    requires SlotsSafe(s) && id < |s| && ValidReq(r) && RequestSlots(s, id, r, t, ok)
    ensures SlotsSafe(t)
  {
    if ok {
      forall i: nat | i < |s| && i != id
        ensures Waiting(t[i]) <==> Waiting(s[i]) && !Collides(r, s[i])
        ensures Running(t[i]) <==> Running(s[i])
        ensures t[i].used ==> t[i] == s[i]
        ensures Running(s[i]) ==> !Collides(r, s[i])
      {
        assert !Refuses(s, id, r, i);
        assert Wins(s[id], r, s[i]) ==> !s[i].running;
      }
    }
  }

  /** When the alarm fires, no waiting request opens before the started one,
      and the cap plus the clipping reserve ends by every other open. */
  lemma CapClears(s: Slots, id: nat, cap: nat, i: nat)
    requires SlotsSafe(s) && IsEarliest(s, id) && IsCap(s, id, cap)
    requires i < |s| && i != id && Waiting(s[i])
    ensures s[id].r.open <= s[i].r.open
    ensures RunEnd(s[id].r, cap) <= s[i].r.open
    ensures s[id].r.open + US(cap + CLIP_RESERVE_US) <= RunEnd(s[id].r, cap)
  {
  }

  lemma FireKeepsSafe(s: Slots, id: nat, cap: nat)
    requires SlotsSafe(s) && IsEarliest(s, id) && !SomeOtherRuns(s, id) && IsCap(s, id, cap)
    ensures SlotsSafe(s[id := s[id].(running := true, runEnd := RunEnd(s[id].r, cap))])
  {
  }

  lemma StepKeepsSlotsSafe(a: State, step: Step, b: State)
    requires SlotsSafe(a.slots) && Next(a, step, b)
    ensures SlotsSafe(b.slots)
  {
    var s, t, id := a.slots, b.slots, step.id;
    match step {
      case Request(_, r) =>
        var ok :| RequestSlots(s, id, r, t, ok)
                  && b.pending == if ok then a.pending + Victims(s, id, r) else a.pending;
        RequestKeepsSafe(s, id, r, t, ok);
      case Fire(_, cap) =>
        FireKeepsSafe(s, id, cap);
      case Yield(_) =>
        DroppingKeepsSafe(s, t);
      case Cancel(_) =>
        DroppingKeepsSafe(s, t);
      case Overrun(_) =>
        DroppingKeepsSafe(s, t);
      case CallBack(_) =>
    }
  }

  lemma StepKeepsPendingIdle(a: State, step: Step, b: State)
    requires PendingIdle(a.slots, a.pending) && Next(a, step, b)
    ensures PendingIdle(b.slots, b.pending)
  {
  }

  lemma StepKeepsAlarm(a: State, step: Step, b: State)
    requires AlarmRight(a.slots, a.alarm) && Next(a, step, b)
    ensures AlarmRight(b.slots, b.alarm)
  {
    if step.Yield? {
      AlarmUnmoved(a.slots, b.slots, a.alarm);
    }
    AlarmOfIsRight(b.slots, b.alarm);
  }

  /** Every step keeps the state safe. */
  lemma StepKeepsSafe(a: State, step: Step, b: State)
    requires Safe(a) && Next(a, step, b)
    ensures Safe(b)
  {
    StepKeepsSlotsSafe(a, step, b);
    StepKeepsPendingIdle(a, step, b);
    StepKeepsAlarm(a, step, b);
  }

  // ---------------------------------------------------------------------
  // Runs
  // ---------------------------------------------------------------------

  /** A run: the states and the steps between them. */
  ghost predicate IsRun(states: seq<State>, steps: seq<Step>) {
    && |states| == |steps| + 1
    && forall k: nat | k < |steps| :: Next(states[k], steps[k], states[k + 1])
  }

  ghost predicate Initial(a: State) {
    && (forall i: nat | i < |a.slots| :: !a.slots[i].used && !a.slots[i].yielded && a.slots[i].refusedBy == None)
    && a.pending == {} && a.alarm == None
  }

  /** Every state of every run from the initial state is safe. */
  lemma {:induction false} RunIsSafe(states: seq<State>, steps: seq<Step>, k: nat)
    requires IsRun(states, steps) && Initial(states[0]) && k < |states|
    ensures Safe(states[k])
  {
    if k > 0 {
      RunIsSafe(states, steps, k - 1);
      StepKeepsSafe(states[k - 1], steps[k - 1], states[k]);
    }
  }

  /** `st` ends a run from an initial state. */
  ghost predicate Reached(states: seq<State>, steps: seq<Step>, st: State) {
    IsRun(states, steps) && Initial(states[0]) && states[|steps|] == st
  }

  lemma ReachedIsSafe(states: seq<State>, steps: seq<Step>, st: State)
    requires Reached(states, steps, st)
    ensures Safe(st)
  {
    RunIsSafe(states, steps, |steps|);
  }

  lemma ReachedExtends(states: seq<State>, steps: seq<Step>, a: State, step: Step, b: State)
    requires Reached(states, steps, a) && Next(a, step, b)
    ensures Reached(states + [b], steps + [step], b)
  {
  }

  // ---------------------------------------------------------------------
  // Displacements and callbacks
  // ---------------------------------------------------------------------

  /** The step takes the accepted request of `i` away from it. */
  ghost predicate Displaces(a: State, step: Step, i: nat) {
    match step
    case Request(id, r) => id < |a.slots| && Accepted(a.slots, id, r) && Contends(a.slots, id, r, i)
    case Overrun(id) => id == i
    case _ => false
  }

  ghost function Displacements(states: seq<State>, steps: seq<Step>, i: nat): nat
    requires |states| == |steps| + 1
  {
    if steps == [] then 0
    else
      var n := |steps| - 1;
      Displacements(states[..n + 1], steps[..n], i) + if Displaces(states[n], steps[n], i) then 1 else 0
  }

  function CallBacks(steps: seq<Step>, i: nat): nat {
    if steps == [] then 0
    else
      var n := |steps| - 1;
      CallBacks(steps[..n], i) + if steps[n] == CallBack(i) then 1 else 0
  }

  /** Each displacement of an owner is answered by exactly one callback, and
      the last one may still be due. */
  lemma {:induction false} EachDisplacementAnswered(states: seq<State>, steps: seq<Step>, i: nat)
    requires IsRun(states, steps) && Initial(states[0])
    ensures Displacements(states, steps, i)
         == CallBacks(steps, i) + if i in states[|steps|].pending then 1 else 0
    decreases |steps|
  {
    if steps != [] {
      var n := |steps| - 1;
      var states', steps' := states[..n + 1], steps[..n];
      assert IsRun(states', steps') by {
        forall k: nat | k < |steps'| ensures Next(states'[k], steps'[k], states'[k + 1]) {
          assert Next(states[k], steps[k], states[k + 1]);
        }
      }
      EachDisplacementAnswered(states', steps', i);
      RunIsSafe(states, steps, n);
      StepAnswers(states[n], steps[n], states[n + 1], i);
    }
  }

  lemma StepAnswers(a: State, step: Step, b: State, i: nat)
    requires Safe(a) && Next(a, step, b)
    ensures Displaces(a, step, i) ==> i !in a.pending && i in b.pending && step != CallBack(i)
    ensures step == CallBack(i) ==> i in a.pending && i !in b.pending
    ensures !Displaces(a, step, i) && step != CallBack(i) ==> (i in a.pending <==> i in b.pending)
  {
  }

  /** The result of a request is determined by the slots and the request. */
  lemma RequestDetermined(s: Slots, id: nat, r: Req, t: Slots, ok: bool, t': Slots, ok': bool)
    requires id < |s| && RequestSlots(s, id, r, t, ok) && RequestSlots(s, id, r, t', ok')
    ensures t == t' && ok == ok'
  {
  }

  // ---------------------------------------------------------------------
  // Gaps
  // ---------------------------------------------------------------------

  /** [t - lead, t + len] meets no accepted span. */
  predicate Free(s: Slots, t: int, lead: nat, len: nat) {
    forall i: nat | i < |s| && s[i].used ::
      !Overlap(t - US(lead), t + US(len), s[i].r.alarm, SpanEnd(s[i]))
  }

  /** The earliest free tick at or after `from`. */
  ghost predicate IsGap(s: Slots, from: int, lead: nat, len: nat, t: int) {
    && t >= from
    && Free(s, t, lead, len)
    && forall u | from <= u < t :: !Free(s, u, lead, len)
  }

  /** A request without lead placed in a gap meets nobody: it is accepted, and
      it displaces nobody. */
  lemma GapRequestAccepted(s: Slots, id: nat, r: Req)
    requires id < |s| && r.alarm == r.open && Free(s, r.alarm, 0, r.minLen)
    ensures Accepted(s, id, r) && Victims(s, id, r) == {} && !Collided(s, id, r)
  {
  }

  /** A request leaves another owner's slot alone, or displaces it; it never
      displaces a running one. */
  lemma OthersKeptOrDisplaced(s: Slots, id: nat, r: Req, t: Slots, ok: bool, i: nat)
    requires id < |s| && RequestSlots(s, id, r, t, ok) && i < |s| && i != id
    ensures t[i] == s[i]
         || (ok && i in Victims(s, id, r) && !s[i].running && t[i] == s[i].(used := false, yielded := true))
  {
    if ok {
      assert !Refuses(s, id, r, i);
    }
  }

  /** Only the slot of `id` may have changed. */
  predicate OthersUntouched(s: Slots, t: Slots, id: nat) {
    |t| == |s| && forall i: nat | i < |s| && i != id :: t[i] == s[i]
  }

  lemma GapIsUnique(s: Slots, from: int, lead: nat, len: nat, t: int)
    requires IsGap(s, from, lead, len, t)
    ensures forall u | IsGap(s, from, lead, len, u) :: u == t
  {
  }

  /** The earliest gap for a longer span is not before the earliest gap for a
      shorter one. */
  lemma GapGrows(s: Slots, from: int, lead: nat, len: nat, t: int, len': nat, t': int)
    requires IsGap(s, from, lead, len, t) && IsGap(s, from, lead, len', t') && len <= len'
    ensures t <= t'
  {
    assert Free(s, t', lead, len);
  }
}
