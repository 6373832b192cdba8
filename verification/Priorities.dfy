/** What a request comes to, in terms of priorities and of times on the air. */
module Priorities {
  import opened Ticks
  import opened Wrappers
  import opened Arbiter

  // ---------------------------------------------------------------------
  // Which requests meet
  // ---------------------------------------------------------------------

  /** The slot keeps the air at tick x: while it waits, from its alarm until the
      end of what it reserves; while it runs, until its run end. */
  ghost predicate Holds(o: Slot, x: int) {
    o.used && if o.running then o.r.alarm <= x < o.runEnd else o.r.alarm <= x <= o.r.open + US(o.r.minLen)
  }

  /** A request meets a slot exactly when some tick is wanted by both.  Against
      a running event the request's own lead does not count. */
  lemma MeetsWhen(s: Slots, id: nat, r: Req, i: nat)
    requires i < |s| && i != id && SlotsSafe(s) && ValidReq(r)
    ensures Contends(s, id, r, i) <==>
              exists x :: (if s[i].running then r.open else r.alarm) <= x <= r.open + US(r.minLen) && Holds(s[i], x)
  {
    var from, o := if s[i].running then r.open else r.alarm, s[i];
    if Contends(s, id, r, i) {
      var x := if from >= o.r.alarm then from else o.r.alarm;
      assert Holds(o, x);
    }
  }

  /** Accepted requests that wait have the air to themselves, each from its alarm
      on for the length it reserves behind its open. */
  lemma AirIsReserved(s: Slots, i: nat, j: nat, x: int)
    requires SlotsSafe(s) && i < |s| && j < |s| && i != j && !s[i].running && Holds(s[i], x) && Holds(s[j], x)
    ensures s[j].running && x < s[i].r.open
  {
  }

  /** A tick of an accepted span. */
  ghost predicate Spans(o: Slot, x: int) {
    o.used && o.r.alarm <= x <= if o.running then o.runEnd else o.r.open + US(o.r.minLen)
  }

  /** A span is free exactly when no tick of it is in an accepted one. */
  lemma FreeWhen(s: Slots, t: int, lead: nat, len: nat)
    requires SlotsSafe(s) && forall i: nat | i < |s| && Running(s[i]) :: s[i].r.alarm <= s[i].runEnd
    ensures Free(s, t, lead, len) <==>
              forall i: nat, x | i < |s| && Spans(s[i], x) :: x < t - US(lead) || t + US(len) < x
  {
    if !Free(s, t, lead, len) {
      var i: nat :| i < |s| && s[i].used && Overlap(t - US(lead), t + US(len), s[i].r.alarm, SpanEnd(s[i]));
      var x := if t - US(lead) >= s[i].r.alarm then t - US(lead) else s[i].r.alarm;
      assert Spans(s[i], x) && t - US(lead) <= x <= t + US(len);
    }
  }

  /** A request can be asked again as it is, also while another event runs: it
      meets nobody. */
  lemma AskAgain(s: Slots, id: nat, t: Slots, ok: bool)
    requires SlotsSafe(s) && id < |s| && Waiting(s[id]) && RequestSlots(s, id, s[id].r, t, ok)
    ensures ok && Victims(s, id, s[id].r) == {} && OthersUntouched(s, t, id)
  {
    assert forall i: nat | i < |s| :: !Contends(s, id, s[id].r, i);
  }

  // ---------------------------------------------------------------------
  // Who wins
  // ---------------------------------------------------------------------

  /** A request of higher priority, and an event that runs, stay as they are;
      a request that meets one is refused. */
  lemma HigherStays(s: Slots, id: nat, r: Req, t: Slots, ok: bool, i: nat)
    requires id < |s| && RequestSlots(s, id, r, t, ok)
    requires i < |s| && i != id && s[i].used && (s[i].running || s[i].r.prio > r.prio)
    ensures t[i] == s[i] && (ok ==> !Contends(s, id, r, i))
  {
    assert !ok || !Refuses(s, id, r, i);
  }

  /** A request of lower priority that waits never refuses; met by a request that
      is accepted it is displaced. */
  lemma LowerGivesWay(s: Slots, id: nat, r: Req, t: Slots, ok: bool, i: nat)
    requires id < |s| && RequestSlots(s, id, r, t, ok)
    requires i < |s| && i != id && Waiting(s[i]) && s[i].r.prio < r.prio
    ensures !Refuses(s, id, r, i) && (!ok ==> t[id].refusedBy != Some(i))
    ensures t[i].used <==> !(ok && Contends(s, id, r, i))
  {
  }

  /** Between equals the one that came off worse last wins, unless both did. */
  lemma EqualsDecide(s: Slots, id: nat, r: Req, t: Slots, ok: bool, i: nat)
    requires id < |s| && RequestSlots(s, id, r, t, ok)
    requires i < |s| && Waiting(s[i]) && s[i].r.prio == r.prio && Contends(s, id, r, i)
    ensures Refuses(s, id, r, i) <==> !s[id].yielded || s[i].yielded
    ensures ok ==> s[id].yielded && !s[i].yielded && !t[i].used
  {
    assert ok ==> !Refuses(s, id, r, i);
  }

  /** So a request is accepted exactly when everything it meets waits and either
      has a lower priority, or the same and came off better last. */
  lemma AcceptedWhen(s: Slots, id: nat, r: Req, t: Slots, ok: bool)
    requires id < |s| && RequestSlots(s, id, r, t, ok)
    ensures ok <==> forall i: nat | i < |s| && Contends(s, id, r, i) ::
              !s[i].running && s[i].r.prio <= r.prio && (s[i].r.prio == r.prio ==> s[id].yielded && !s[i].yielded)
    ensures if ok then Waiting(t[id]) && t[id].r == r else !t[id].used && OthersUntouched(s, t, id)
  {
    forall i: nat | i < |s| && Contends(s, id, r, i)
      ensures Refuses(s, id, r, i) <==> !(!s[i].running && s[i].r.prio <= r.prio
                                          && (s[i].r.prio == r.prio ==> s[id].yielded && !s[i].yielded))
    {
    }
    if ok {
      assert forall i: nat | i < |s| :: !Refuses(s, id, r, i);
    } else {
      var k: nat :| IsRefuser(s, id, r, k);
    }
  }

  /** Nobody but its owner and the alarm touches request i in this step, and
      whoever asks has a lower priority. */
  ghost predicate Inferior(step: Step, i: nat, prio: nat) {
    step.id != i && (step.Request? ==> step.r.prio < prio)
  }

  /** A request outlasts everything of lower priority: in no run of such requests,
      of yields, cancellations, callbacks and starts of others is it displaced. */
  lemma {:induction false} OutranksAll(states: seq<State>, steps: seq<Step>, i: nat, k: nat)
    requires IsRun(states, steps) && k < |states| && i < |states[0].slots| && Waiting(states[0].slots[i])
    requires forall j: nat | j < |steps| :: Inferior(steps[j], i, states[0].slots[i].r.prio)
    ensures i < |states[k].slots| && Waiting(states[k].slots[i]) && states[k].slots[i].r == states[0].slots[i].r
  {
    if k > 0 {
      OutranksAll(states, steps, i, k - 1);
      assert Next(states[k - 1], steps[k - 1], states[k]) && Inferior(steps[k - 1], i, states[0].slots[i].r.prio);
      InferiorKeeps(states[k - 1], steps[k - 1], states[k], i);
    }
  }

  lemma InferiorKeeps(a: State, step: Step, b: State, i: nat)
    requires Next(a, step, b) && i < |a.slots| && Waiting(a.slots[i]) && Inferior(step, i, a.slots[i].r.prio)
    ensures i < |b.slots| && Waiting(b.slots[i]) && b.slots[i].r == a.slots[i].r
  {
    var s, t, id := a.slots, b.slots, step.id;
    match step {
      case Request(_, r) =>
        var ok :| RequestSlots(s, id, r, t, ok)
                  && b.pending == if ok then a.pending + Victims(s, id, r) else a.pending;
        HigherStays(s, id, r, t, ok, i);
      case _ =>
    }
  }

  // ---------------------------------------------------------------------
  // How long a started event may take
  // ---------------------------------------------------------------------

  /** One microsecond more would be beyond its own maximum, or bring it nearer to
      another open than the reserve. */
  lemma CapIsLargest(s: Slots, id: nat, cap: nat)
    requires SlotsSafe(s) && IsEarliest(s, id) && IsCap(s, id, cap)
    ensures cap <= s[id].r.maxLen
    ensures cap == s[id].r.maxLen || exists i: nat | i < |s| ::
              i != id && Waiting(s[i]) && s[id].r.open + US(cap + 1 + CLIP_RESERVE_US) > s[i].r.open
  {
    if cap != s[id].r.maxLen {
      var i: nat :| Follows(s, id, i) && cap == RoomBefore(s[id].r.open, s[i]);
      assert s[id].r.open + US(cap + 1 + CLIP_RESERVE_US) > s[i].r.open;
    }
  }

  /** A started event keeps the air for what it reserved, or for its cap and the
      reserve if that is longer, and no longer. */
  lemma RunEndIsExact(r: Req, cap: nat)
    ensures RunEnd(r, cap) >= r.open + US(r.minLen) && RunEnd(r, cap) >= r.open + US(cap + CLIP_RESERVE_US)
    ensures RunEnd(r, cap) == r.open + US(r.minLen) || RunEnd(r, cap) == r.open + US(cap + CLIP_RESERVE_US)
  {
  }
}
