/** The event arbiter as it changes state in place.  Its ghost history is a run
    of the state machine of `Arbiter`, so whatever holds of every run holds of
    it. */
module EventArbiter {
  import opened Ticks
  import opened Wrappers
  import opened Arbiter

  datatype Alarm = Nothing | Bumped(id: nat) | Started(id: nat, cap: nat)

  class EventArbiter {
    const ids: nat
    const slots: array<Slot>
    var armed: bool
    var sched: Option<int>   // the main alarm of the timer
    var pending: set<nat>    // displaced owners whose callback is due

    ghost var st: State
    ghost var states: seq<State>
    ghost var steps: seq<Step>

    ghost function View(): State
      reads this, slots
    {
      State(slots[..], pending, sched)
    }

    ghost predicate Shape()
      reads this
    {
      slots.Length == ids && (armed <==> sched.Some?)
    }

    ghost predicate Valid()
      reads this, slots
    {
      Shape() && st == View() && Reached(states, steps, st)
    }

    constructor (ids: nat)
      ensures Valid() && fresh(slots) && this.ids == ids
      ensures Initial(st) && |st.slots| == ids
    {
      this.ids := ids;
      var none := Slot(false, false, false, None, Req(0, 0, 0, 0, 0), 0);
      slots := new Slot[ids](_ => none);
      armed, sched, pending := false, None, {};
      new;
      st, states, steps := View(), [View()], [];
    }

    /** Record a step that has just been made. */
    ghost method Record(step: Step)
      requires Shape() && Reached(states, steps, st) && Next(st, step, View())
      modifies this`st, this`states, this`steps
      ensures Valid() && st == old(View())
    {
      ReachedExtends(states, steps, st, step, View());
      st, states, steps := View(), states + [View()], steps + [step];
    }

    method Earliest() returns (best: Option<nat>)
      requires Shape()
      ensures match best case None => NoneWaiting(slots[..]) case Some(i) => IsEarliest(slots[..], i)
    {
      best := None;
      for i := 0 to ids
        invariant match best
                  case None => forall j: nat | j < i :: !Waiting(slots[j])
                  case Some(b) =>
                    && b < i && Waiting(slots[b])
                    && forall j: nat | j < i && Waiting(slots[j]) ::
                         slots[b].r.alarm <= slots[j].r.alarm && (j < b ==> slots[b].r.alarm < slots[j].r.alarm)
      {
        if slots[i].used && !slots[i].running && (best == None || slots[i].r.alarm < slots[best.value].r.alarm) {
          best := Some(i);
        }
      }
    }

    method Arm()
      requires Shape()
      modifies this`armed, this`sched
      ensures Shape() && AlarmRight(slots[..], sched) && sched == AlarmOf(slots[..])
    {
      var i := Earliest();
      if i.Some? {
        sched := Some(slots[i.value].r.alarm);
        armed := true;
      } else if armed {
        armed := false;
        sched := None;
      }
      AlarmOfIsRight(slots[..], sched);
    }

    method RunningOther(id: nat) returns (other: Option<nat>)
      requires Shape()
      ensures other.Some? <==> SomeOtherRuns(slots[..], id)
    {
      for i := 0 to ids
        invariant forall j: nat | j < i :: j == id || !Running(slots[j])
      {
        if i != id && slots[i].used && slots[i].running {
          return Some(i);
        }
      }
      other := None;
    }

    method ClipCap(id: nat) returns (cap: nat)
      requires Shape() && id < ids
      ensures IsCap(slots[..], id, cap)
    {
      var s := slots[id];
      cap := s.r.maxLen;
      for i := 0 to ids
        invariant cap <= s.r.maxLen
        invariant forall j: nat | j < i && Follows(slots[..], id, j) :: cap <= RoomBefore(s.r.open, slots[j])
        invariant cap == s.r.maxLen || exists j: nat | Follows(slots[..], id, j) :: cap == RoomBefore(s.r.open, slots[j])
      {
        var o := slots[i];
        if i == id || !o.used || o.running {
          continue;
        }
        var d := o.r.open - s.r.open;
        if d < 0 {
          continue;
        }
        assert Follows(slots[..], id, i);
        var lim := d / TICKS_PER_US;
        lim := if lim > CLIP_RESERVE_US then lim - CLIP_RESERVE_US else 0;
        if lim < cap {
          cap := lim;
        }
      }
    }

    method Gap(from: int, lead: nat, len: nat) returns (t: int)
      requires Shape()
      ensures IsGap(slots[..], from, lead, len, t)
    {
      t := from;
      var moved := true;
      ghost var ahead := set i: nat | i < ids && SpanEnd(slots[i]) + US(lead) >= t;
      while moved
        invariant t >= from
        invariant forall u | from <= u < t :: !Free(slots[..], u, lead, len)
        invariant !moved ==> Free(slots[..], t, lead, len)
        invariant ahead == set i: nat | i < ids && SpanEnd(slots[i]) + US(lead) >= t
        decreases ahead, moved
      {
        moved := false;
        ghost var t0, ahead0 := t, ahead;
        for i := 0 to ids
          invariant t >= from && t >= t0
          invariant forall u | from <= u < t :: !Free(slots[..], u, lead, len)
          invariant !moved ==> t == t0 && forall j: nat | j < i && slots[j].used ::
                      !Overlap(t - US(lead), t + US(len), slots[j].r.alarm, SpanEnd(slots[j]))
          invariant ahead == set j: nat | j < ids && SpanEnd(slots[j]) + US(lead) >= t
          invariant if moved then ahead < ahead0 else ahead == ahead0
        {
          var o := slots[i];
          if o.used && Overlap(t - US(lead), t + US(len), o.r.alarm, SpanEnd(o)) {
            assert i in ahead;
            forall u | t <= u < SpanEnd(o) + US(lead) + 1
              ensures !Free(slots[..], u, lead, len)
            {
              assert Overlap(u - US(lead), u + US(len), slots[..][i].r.alarm, SpanEnd(slots[..][i]));
            }
            t := SpanEnd(o) + US(lead) + 1;
            ahead := set j: nat | j < ids && SpanEnd(slots[j]) + US(lead) >= t;
            moved := true;
          }
        }
      }
    }

    /** Decide a request, displace, arm, and note whom to call back.  The
        callbacks themselves are the dispatch loop of `Controller`. */
    method Request(id: nat, r: Req) returns (ok: bool)
      requires Valid() && id < ids && id !in pending && ValidReq(r)
      modifies this, slots
      ensures Valid() && |st.slots| == ids
      ensures RequestSlots(old(st).slots, id, r, st.slots, ok)
      ensures st.pending == if ok then old(st).pending + Victims(old(st).slots, id, r) else old(st).pending
    {
      ghost var s := st.slots;
      var me := slots[id];
      slots[id] := me.(used := false, running := false);
      var refuser, victims, collided := Examine(s, id, r);
      if refuser.Some? {
        slots[id] := slots[id].(refusedBy := refuser);
        Arm();
        assert slots[..] == s[id := s[id].(used := false, running := false, refusedBy := refuser)];
        assert RequestSlots(s, id, r, slots[..], false);
        Record(Step.Request(id, r));
        return false;
      }
      slots[id] := Slot(true, false, if collided then false else me.yielded, None, r, me.runEnd);
      Displace(s, id, victims);
      Arm();
      pending := pending + victims;
      assert RequestSlots(s, id, r, slots[..], true);
      Record(Step.Request(id, r));
      return true;
    }

    /** Look at every other slot in turn, until one refuses the request. */
    method Examine(ghost s: Slots, id: nat, r: Req) returns (refuser: Option<nat>, victims: set<nat>, collided: bool)
      requires Shape() && id < ids == |s|
      requires slots[..] == s[id := s[id].(used := false, running := false)]
      ensures match refuser
              case Some(k) => k < ids && IsRefuser(s, id, r, k)
              case None => Accepted(s, id, r) && victims == Victims(s, id, r) && (collided <==> Collided(s, id, r))
    {
      victims, collided := {}, false;
      for i := 0 to ids
        invariant forall j: nat | j < i :: !Refuses(s, id, r, j)
        invariant victims == set j: nat | j < i && Contends(s, id, r, j)
        invariant collided <==> exists j: nat | j < i :: Contends(s, id, r, j)
      {
        var o := slots[i];
        if i == id || !o.used {
          continue;
        }
        assert o == s[i];
        if o.running {
          if !Overlap(r.open, ReqEnd(r), o.r.alarm, o.runEnd - 1) {
            continue;
          }
        } else if !Overlap(r.alarm, ReqEnd(r), o.r.alarm, SpanEnd(o)) {
          continue;
        }
        collided := true;
        var win;
        if o.running || o.r.prio > r.prio {
          win := false;
        } else if o.r.prio < r.prio {
          win := true;
        } else {
          win := slots[id].yielded && !o.yielded;
        }
        if !win {
          return Some(i), victims, collided;
        }
        victims := victims + {i};
      }
      assert victims == Victims(s, id, r);
      refuser := None;
    }

    method Displace(ghost s: Slots, id: nat, victims: set<nat>)
      requires Shape() && id < ids == |s| && id !in victims
      requires forall j: nat | j < ids && j != id :: slots[j] == s[j]
      modifies slots
      ensures slots[id] == old(slots[id])
      ensures forall j: nat | j < ids && j != id ::
                slots[j] == if j in victims then s[j].(used := false, yielded := true) else s[j]
    {
      for i := 0 to ids
        invariant slots[id] == old(slots[id])
        invariant forall j: nat | j < ids && j != id ::
                    slots[j] == if j < i && j in victims then s[j].(used := false, yielded := true) else s[j]
      {
        if i in victims {
          slots[i] := slots[i].(used := false, yielded := true);
        }
      }
    }

    method Yield(id: nat)
      requires Valid() && id < ids
      modifies this, slots
      ensures Valid() && st == old(st).(slots := YieldSlots(old(st).slots, id))
    {
      ghost var s := st.slots;
      ReachedIsSafe(states, steps, st);
      slots[id] := slots[id].(yielded := true);
      match slots[id].refusedBy {
        case Some(k) =>
          if k < ids {
            slots[k] := slots[k].(yielded := false);
          }
        case None =>
      }
      slots[id] := slots[id].(refusedBy := None);
      assert slots[..] == YieldSlots(s, id);
      Record(Step.Yield(id));
    }

    method Cancel(id: nat)
      requires Valid() && id < ids
      modifies this, slots
      ensures Valid() && |st.slots| == ids && st.pending == old(st).pending
      ensures st.slots == Cancelled(old(st).slots, id)
    {
      if !slots[id].used {
        return;
      }
      slots[id] := slots[id].(used := false, running := false);
      Arm();
      Record(Step.Cancel(id));
    }

    /** The owner whose callback is due first. */
    method TakePending() returns (i: nat)
      requires Valid() && pending != {}
      modifies this
      ensures Valid() && i in old(st).pending && st == old(st).(pending := old(st).pending - {i})
      ensures i < ids && !st.slots[i].used
      ensures forall j | j in old(st).pending :: i <= j
    {
      ReachedIsSafe(states, steps, st);
      ghost var w :| w in pending;
      i := 0;
      while i !in pending
        invariant i <= w && forall j: nat | j < i :: j !in pending
        decreases w - i
      {
        i := i + 1;
      }
      pending := pending - {i};
      Record(CallBack(i));
    }

    /** The alarm fires for the earliest request: it starts, unless another
        event still runs. */
    method AlarmFired() returns (what: Alarm)
      requires Valid()
      modifies this, slots
      ensures Valid() && |st.slots| == ids
      ensures match what
              case Nothing => st == old(st) && NoneWaiting(st.slots)
              case Bumped(id) =>
                && IsEarliest(old(st).slots, id) && SomeOtherRuns(old(st).slots, id)
                && st.slots == old(st).slots[id := old(st).slots[id].(used := false, yielded := true)]
                && st.pending == old(st).pending + {id}
              case Started(id, cap) =>
                && IsEarliest(old(st).slots, id) && !SomeOtherRuns(old(st).slots, id)
                && IsCap(old(st).slots, id, cap)
                && st.slots == old(st).slots[id := old(st).slots[id].(
                                                running := true, runEnd := RunEnd(old(st).slots[id].r, cap))]
                && st.pending == old(st).pending
    {
      var first := Earliest();
      if first == None {
        ReachedIsSafe(states, steps, st);
        return Nothing;
      }
      armed, sched := false, None;
      var id := first.value;
      var other := RunningOther(id);
      if other.Some? {
        slots[id] := slots[id].(used := false, yielded := true);
        Arm();
        pending := pending + {id};
        Record(Overrun(id));
        return Bumped(id);
      }
      var cap := StartEvent(id);
      return Started(id, cap);
    }

    /** The alarm was for `id`, and nobody else runs. */
    method StartEvent(id: nat) returns (cap: nat)
      requires Shape() && Reached(states, steps, st) && st.slots == slots[..] && st.pending == pending
      requires IsEarliest(slots[..], id) && !SomeOtherRuns(slots[..], id)
      modifies this, slots
      ensures Valid() && |st.slots| == ids && st.pending == old(st).pending
      ensures IsCap(old(st).slots, id, cap)
      ensures st.slots == old(st).slots[id := old(st).slots[id].(running := true, runEnd := RunEnd(old(st).slots[id].r, cap))]
    {
      cap := ClipCap(id);
      var r := slots[id].r;
      slots[id] := slots[id].(running := true,
                              runEnd := r.open + US(if cap + CLIP_RESERVE_US > r.minLen then cap + CLIP_RESERVE_US else r.minLen));
      Arm();
      Record(Fire(id, cap));
    }
  }
}
