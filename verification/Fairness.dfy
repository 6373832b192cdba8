/** Round robin: what a requester that lost is owed, and what spends it. */
module Fairness {
  import opened Ticks
  import opened Wrappers
  import opened Arbiter

  /** In this step `x` loses to `y`: it is displaced by a request of `y`, or it
      gives up the event `y` refused. */
  ghost predicate Loses(a: State, step: Step, x: nat, y: nat) {
    && x < |a.slots| && y < |a.slots|
    && match step
       case Request(id, r) => id == y && Accepted(a.slots, y, r) && Contends(a.slots, y, r, x)
       case Yield(id) => id == x && a.slots[x].refusedBy == Some(y)
       case _ => false
  }

  /** When `x` and `y` meet, it is in a tie, and `x` does not meet a running
      event of `y`. */
  ghost predicate MeetInTies(a: State, step: Step, x: nat, y: nat) {
    && x < |a.slots| && y < |a.slots| && x != y
    && match step
       case Request(id, r) =>
         && (id == x && Contends(a.slots, x, r, y) ==> a.slots[y].r.prio == r.prio && !a.slots[y].running)
         && (id == y && Contends(a.slots, y, r, x) ==> a.slots[x].r.prio == r.prio)
       case _ => true
  }

  /** Two that always ask at one priority meet in ties, but for a request against a
      running event. */
  lemma EqualsMeetInTies(a: State, step: Step, x: nat, y: nat, prio: nat)
    requires x < |a.slots| && y < |a.slots| && x != y && a.slots[x].r.prio == a.slots[y].r.prio == prio
    requires step.Request? && step.id in {x, y} ==> step.r.prio == prio
    requires step.Request? && step.id == x ==> !a.slots[y].running
    ensures MeetInTies(a, step, x, y)
  {
  }

  /** The flags of a requester that wins the next tie with `y`. */
  predicate Favoured(s: Slots, x: nat, y: nat) {
    x < |s| && y < |s| && s[x].yielded && !s[y].yielded
  }

  /** And no refusal by `y` that it could still act on. */
  ghost predicate Owed(s: Slots, x: nat, y: nat) {
    Favoured(s, x, y) && s[x].refusedBy != Some(y)
  }

  /** The step uses up what `y` owes to `x`: `x` displaces somebody, somebody
      gives up an event that `x` refused, or `y` loses to anybody. */
  ghost predicate Spends(a: State, step: Step, x: nat, y: nat) {
    match step
    case Request(id, r) =>
      id < |a.slots| && Accepted(a.slots, id, r)
      && if id == x then Collided(a.slots, x, r) else id != y && Contends(a.slots, id, r, y)
    case Yield(id) => id == y || (id != x && id < |a.slots| && a.slots[id].refusedBy == Some(x))
    case Overrun(id) => id == y
    case _ => false
  }

  /** An accepted request carries no refusal, and nobody refuses itself. */
  ghost predicate RefusalsRight(s: Slots) {
    forall i: nat | i < |s| :: (s[i].used ==> s[i].refusedBy == None) && s[i].refusedBy != Some(i)
  }

  lemma StepKeepsRefusals(a: State, step: Step, b: State)
    requires Next(a, step, b) && RefusalsRight(a.slots)
    ensures RefusalsRight(b.slots)
  {
  }

  lemma {:induction false} RunKeepsRefusals(states: seq<State>, steps: seq<Step>, k: nat)
    requires IsRun(states, steps) && RefusalsRight(states[0].slots) && k < |states|
    ensures RefusalsRight(states[k].slots)
  {
    if k > 0 {
      RunKeepsRefusals(states, steps, k - 1);
      StepKeepsRefusals(states[k - 1], steps[k - 1], states[k]);
    }
  }

  lemma LosingIsOwed(a: State, step: Step, b: State, x: nat, y: nat)
    requires Next(a, step, b) && RefusalsRight(a.slots) && x != y && Loses(a, step, x, y)
    ensures Owed(b.slots, x, y)
  {
  }

  /** Whatever the others do: what `y` owes to `x` is gone after a step exactly
      when the step spends it, and until then `x` does not lose to `y`. */
  lemma OwedUnlessSpent(a: State, step: Step, b: State, x: nat, y: nat)
    requires Next(a, step, b) && RefusalsRight(a.slots) && MeetInTies(a, step, x, y)
    requires Owed(a.slots, x, y)
    ensures Owed(b.slots, x, y) <==> !Spends(a, step, x, y)
    ensures !Loses(a, step, x, y)
  {
    if step.Request? {
      RequestUnlessSpent(a, step.id, step.r, b, x, y);
    }
  }

  lemma RequestUnlessSpent(a: State, id: nat, r: Req, b: State, x: nat, y: nat)
    requires Next(a, Request(id, r), b) && MeetInTies(a, Request(id, r), x, y)
    requires Owed(a.slots, x, y)
    ensures Owed(b.slots, x, y) <==> !Spends(a, Request(id, r), x, y)
    ensures !Loses(a, Request(id, r), x, y)
  {
    var s, t := a.slots, b.slots;
    var ok :| RequestSlots(s, id, r, t, ok);
    if id == x {
      assert !Refuses(s, x, r, y);
    } else if id == y && Contends(s, y, r, x) {
      assert Refuses(s, y, r, x);
    }
  }

  ghost predicate OwedThroughout(states: seq<State>, x: nat, y: nat, k: nat, m: nat)
    requires m < |states|
  {
    forall i: nat | k <= i <= m :: Owed(states[i].slots, x, y)
  }

  ghost predicate NeverSpent(states: seq<State>, steps: seq<Step>, x: nat, y: nat, k: nat, m: nat)
    requires m <= |steps| < |states|
  {
    forall i: nat | k <= i < m :: !Spends(states[i], steps[i], x, y)
  }

  /** Step i spends what is owed, or leaves it owed. */
  ghost predicate StepExact(states: seq<State>, steps: seq<Step>, x: nat, y: nat, i: nat) {
    && i < |steps| < |states|
    && (Owed(states[i].slots, x, y) ==> (Owed(states[i + 1].slots, x, y) <==> !Spends(states[i], steps[i], x, y)))
  }

  lemma {:induction false} StepByStep(states: seq<State>, steps: seq<Step>, x: nat, y: nat, k: nat, m: nat)
    requires k <= m <= |steps| < |states| && Owed(states[k].slots, x, y)
    requires forall i: nat {:trigger StepExact(states, steps, x, y, i)} | k <= i < m :: StepExact(states, steps, x, y, i)
    ensures OwedThroughout(states, x, y, k, m) <==> NeverSpent(states, steps, x, y, k, m)
  {
    if k < m {
      StepByStep(states, steps, x, y, k, m - 1);
      assert StepExact(states, steps, x, y, m - 1);
      assert OwedThroughout(states, x, y, k, m) <==>
             OwedThroughout(states, x, y, k, m - 1) && Owed(states[m].slots, x, y);
      assert NeverSpent(states, steps, x, y, k, m) <==>
             NeverSpent(states, steps, x, y, k, m - 1) && !Spends(states[m - 1], steps[m - 1], x, y);
    }
  }

  /** Over any run in which the two meet in ties: `y` keeps owing to `x` as long
      as no step spends it, and no longer. */
  lemma OwedLasts(states: seq<State>, steps: seq<Step>, x: nat, y: nat, k: nat, m: nat)
    requires IsRun(states, steps) && RefusalsRight(states[0].slots) && k <= m <= |steps|
    requires forall i: nat | k <= i < m :: MeetInTies(states[i], steps[i], x, y)
    requires Owed(states[k].slots, x, y)
    ensures OwedThroughout(states, x, y, k, m) <==> NeverSpent(states, steps, x, y, k, m)
  {
    forall i: nat | k <= i < m
      ensures StepExact(states, steps, x, y, i)
    {
      NextInRun(states, steps, i);
      if Owed(states[i].slots, x, y) {
        OwedUnlessSpent(states[i], steps[i], states[i + 1], x, y);
      }
    }
    StepByStep(states, steps, x, y, k, m);
  }

  lemma NextInRun(states: seq<State>, steps: seq<Step>, k: nat)
    requires IsRun(states, steps) && RefusalsRight(states[0].slots) && k < |steps|
    ensures Next(states[k], steps[k], states[k + 1]) && RefusalsRight(states[k].slots)
  {
    RunKeepsRefusals(states, steps, k);
  }

  /** For any number of requesters: between two losses of `x` to `y` in a row
      something spent what `y` owed after the first. */
  lemma TwoLossesSpend(states: seq<State>, steps: seq<Step>, x: nat, y: nat, k: nat, m: nat)
    requires IsRun(states, steps) && RefusalsRight(states[0].slots) && k < m < |steps| && x != y
    requires forall i: nat | k < i <= m :: MeetInTies(states[i], steps[i], x, y)
    requires Loses(states[k], steps[k], x, y) && Loses(states[m], steps[m], x, y)
    ensures exists i: nat | k < i < m :: Spends(states[i], steps[i], x, y)
  {
    NextInRun(states, steps, k);
    NextInRun(states, steps, m);
    LosingIsOwed(states[k], steps[k], states[k + 1], x, y);
    if NeverSpent(states, steps, x, y, k + 1, m) {
      OwedLasts(states, steps, x, y, k + 1, m);
      OwedUnlessSpent(states[m], steps[m], states[m + 1], x, y);
    }
  }

  // ---------------------------------------------------------------------
  // Two that meet nobody else
  // ---------------------------------------------------------------------

  /** A request of `id` meets nobody but possibly `other`. */
  ghost predicate MeetsOnly(s: Slots, id: nat, r: Req, other: nat) {
    forall i: nat | i < |s| && i != other :: !Contends(s, id, r, i)
  }

  /** Nobody else meets `x` or `y`, neither overruns, and both yield only what
      the other refused. */
  ghost predicate Alone(a: State, step: Step, x: nat, y: nat) {
    && x < |a.slots| && y < |a.slots|
    && var s := a.slots;
       match step
       case Request(id, r) =>
         if id == x then MeetsOnly(s, x, r, y)
         else if id == y then MeetsOnly(s, y, r, x)
         else !Contends(s, id, r, x) && !Contends(s, id, r, y)
       case Yield(id) =>
         if id == x then s[x].refusedBy == Some(y)
         else if id == y then s[y].refusedBy == Some(x)
         else id < |s| && s[id].refusedBy != Some(x) && s[id].refusedBy != Some(y)
       case Overrun(id) => id != x && id != y
       case _ => true
  }

  /** Then only a loss of `y` to `x` spends anything. */
  lemma AloneSpendsByLosing(a: State, step: Step, b: State, x: nat, y: nat)
    requires Next(a, step, b) && Alone(a, step, x, y) && x != y && Spends(a, step, x, y)
    ensures Loses(a, step, y, x)
  {
  }

  /** Round robin: of two that meet only each other, and in ties, one that lost
      twice to the other has beaten it in between.  In either order. */
  lemma NeverTwiceInARow(states: seq<State>, steps: seq<Step>, x: nat, y: nat, k: nat, m: nat)
    requires IsRun(states, steps) && RefusalsRight(states[0].slots) && k < m < |steps| && x != y
    requires forall i: nat | k < i <= m :: MeetInTies(states[i], steps[i], x, y) && Alone(states[i], steps[i], x, y)
    requires Loses(states[k], steps[k], x, y) && Loses(states[m], steps[m], x, y)
    ensures exists i: nat | k < i < m :: Loses(states[i], steps[i], y, x)
  {
    TwoLossesSpend(states, steps, x, y, k, m);
    var i: nat :| k < i < m && Spends(states[i], steps[i], x, y);
    AloneSpendsByLosing(states[i], steps[i], states[i + 1], x, y);
  }

  // ---------------------------------------------------------------------
  // Beyond that
  // ---------------------------------------------------------------------

  /** Why the flags decide: when `x` meets `y` at equal priority, it is refused
      exactly when `y` runs or `x` is not favoured. */
  lemma TieDecided(s: Slots, x: nat, y: nat, r: Req)
    requires x < |s| && Contends(s, x, r, y) && s[y].r.prio == r.prio
    ensures Refuses(s, x, r, y) <==> s[y].running || !Favoured(s, x, y)
  {
  }

  /** A loss at the alarm marks the loser but not the winner: the loser wins
      their next tie exactly when the winner had not yielded before. */
  lemma OverrunTie(a: State, b: State, x: nat, y: nat, r: Req, o: Slot)
    requires Next(a, Overrun(x), b) && y < |a.slots| && x != y
    requires o == b.slots[y].(running := false) && o.r.prio == r.prio
    ensures Wins(b.slots[x], r, o) <==> !a.slots[y].yielded
  {
  }

  // The flags are kept per requester, not per pair.  So a third requester is
  // enough: 0 loses to 1, displaces 2, which spends what 1 owes, and loses to 1
  // again.

  const EARLY := Req(0, 0, 1000, 1000, 1)
  const LATE := Req(100000, 100000, 1000, 1000, 1)
  const LOW := Req(100000, 100000, 1000, 1000, 0)
  const IDLE := Slot(false, false, false, None, EARLY, 0)
  const ONE := Slot(true, false, false, None, EARLY, 0)
  const TWO := Slot(true, false, false, None, LOW, 0)
  const WON := Slot(true, false, false, None, LATE, 0)

  function ThreeStates(): seq<State> {
    [State([IDLE, ONE, TWO], {}, Some(0)),
     State([IDLE.(refusedBy := Some(1)), ONE, TWO], {}, Some(0)),
     State([IDLE.(yielded := true), ONE, TWO], {}, Some(0)),
     State([WON, ONE, TWO.(used := false, yielded := true)], {2}, Some(0)),
     State([WON.(used := false, refusedBy := Some(1)), ONE, TWO.(used := false, yielded := true)], {2}, Some(0)),
     State([WON.(used := false, yielded := true), ONE, TWO.(used := false, yielded := true)], {2}, Some(0))]
  }

  function ThreeSteps(): seq<Step> {
    [Request(0, EARLY), Yield(0), Request(0, LATE), Request(0, EARLY), Yield(0)]
  }

  lemma ThreeRun()
    ensures IsRun(ThreeStates(), ThreeSteps())
  {
    var states, steps := ThreeStates(), ThreeSteps();
    RefusedByOne(states[0], states[1], EARLY);
    YieldsToOne(states[1], states[2]);
    DisplacesTwo(states[2], states[3], LATE);
    RefusedByOne(states[3], states[4], EARLY);
    YieldsToOne(states[4], states[5]);
  }

  /** 0 loses twice in a row to 1 in a run that starts safe; the step between
      spends. */
  lemma ThirdRequesterBreaksIt()
    ensures IsRun(ThreeStates(), ThreeSteps())
    ensures Safe(ThreeStates()[0]) && RefusalsRight(ThreeStates()[0].slots)
    ensures Spends(ThreeStates()[2], ThreeSteps()[2], 0, 1)
    ensures Loses(ThreeStates()[1], ThreeSteps()[1], 0, 1) && Loses(ThreeStates()[4], ThreeSteps()[4], 0, 1)
    ensures forall i: nat | 1 < i < 4 :: !Loses(ThreeStates()[i], ThreeSteps()[i], 1, 0)
  {
    ThreeRun();
    assert IsEarliest(ThreeStates()[0].slots, 1);
    DisplacingSpends();
  }

  lemma DisplacingSpends()
    ensures Spends(ThreeStates()[2], ThreeSteps()[2], 0, 1)
  {
    var s := ThreeStates()[2].slots;
    assert Contends(s, 0, LATE, 2) && !Contends(s, 0, LATE, 1);
    assert Wins(s[0], LATE, s[2]);
  }

  lemma YieldsToOne(a: State, b: State)
    requires |a.slots| == 3 && a.slots[0].refusedBy == Some(1) && !a.slots[1].yielded && a.alarm == b.alarm
    requires IsEarliest(b.slots, 1) && b.alarm == Some(b.slots[1].r.alarm)
    requires b.slots == a.slots[0 := a.slots[0].(yielded := true, refusedBy := None)] && b.pending == a.pending
    ensures Next(a, Yield(0), b)
  {
  }

  lemma RefusedByOne(a: State, b: State, r: Req)
    requires |a.slots| == 3 && 0 !in a.pending && ValidReq(r)
    requires IsEarliest(b.slots, 1) && b.alarm == Some(b.slots[1].r.alarm)
    requires Contends(a.slots, 0, r, 1) && a.slots[1].r.prio == r.prio && !a.slots[0].yielded
    requires b.slots == a.slots[0 := a.slots[0].(used := false, running := false, refusedBy := Some(1))]
    requires b.pending == a.pending
    ensures Next(a, Request(0, r), b)
  {
    AlarmOfIsRight(b.slots, b.alarm);
    assert IsRefuser(a.slots, 0, r, 1);
    assert RequestSlots(a.slots, 0, r, b.slots, false);
  }

  lemma DisplacesTwo(a: State, b: State, r: Req)
    requires |a.slots| == 3 && 0 !in a.pending && ValidReq(r)
    requires IsEarliest(b.slots, 1) && b.alarm == Some(b.slots[1].r.alarm)
    requires Contends(a.slots, 0, r, 2) && Wins(a.slots[0], r, a.slots[2]) && !Contends(a.slots, 0, r, 1)
    requires b.slots == [Slot(true, false, false, None, r, a.slots[0].runEnd), a.slots[1],
                         a.slots[2].(used := false, yielded := true)]
    requires b.pending == a.pending + {2}
    ensures Next(a, Request(0, r), b)
  {
    AlarmOfIsRight(b.slots, b.alarm);
    assert Victims(a.slots, 0, r) == {2};
    assert Collided(a.slots, 0, r);
    assert RequestSlots(a.slots, 0, r, b.slots, true);
  }
}
