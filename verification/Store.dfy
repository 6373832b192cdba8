/** Persistence of the settings: the delayed save that runs beside the sets,
    and what a reboot makes of the stored entries. */
module Store {
  import opened Wrappers
  import opened Bytes
  import opened Registry
  import opened Codec

  const RETRIES: nat := 3

  // ---------------------------------------------------------------------
  // What a reboot makes of the entries
  // ---------------------------------------------------------------------

  type Entries = map<Bytes, Bytes>

  /** An entry that is too long or invalid counts for nothing. */
  function Loaded(d: Def, b: Bytes): Value {
    if |b| <= BUF && Decoded(d, b).Ok? && Checked(d, Decoded(d, b).value).Ok?
    then Checked(d, Decoded(d, b).value).value
    else DefaultOf(d)
  }

  function Restored(d: Def, es: Entries): Value {
    if d.key in es then Loaded(d, es[d.key]) else DefaultOf(d)
  }

  lemma {:induction false} FitsInCap(d: Def, v: Value, cap: nat)
    requires Encoded(d, v, cap).Ok?
    ensures |Encoded(d, v, cap).value| <= cap
  {
  }

  /** What is saved is what a reboot restores. */
  lemma SavedIsRestored(d: Def, v: Value, es: Entries)
    requires Checked(d, v) == Ok(v) && WellNamed(d)
    ensures Encoded(d, v, BUF).Ok? ==> Restored(d, es[d.key := Encoded(d, v, BUF).value]) == v
    ensures v == DefaultOf(d) ==> Restored(d, es - {d.key}) == v
  {
    if Encoded(d, v, BUF).Ok? {
      FitsInCap(d, v, BUF);
      WellNamedIsFaithful(d, v);
      RoundTrip(d, v, BUF);
    }
  }

  /** Another firmware's definition of the same setting: with another default,
      or for a list, whose default is all its names, with other names. */
  ghost predicate NewDefault(d: Def, now: Def) {
    && ValidDef(d) && ValidDef(now) && WellNamed(d) && WellNamed(now)
    && if d.typ.List? then now == d.(names := now.names) else now == d.(def := now.def)
  }

  /** An entry that holds an old default hides the new one exactly when the two
      differ; without an entry the new default applies. */
  lemma OldDefaultStays(d: Def, now: Def, es: Entries)
    requires NewDefault(d, now) && Encoded(d, DefaultOf(d), BUF).Ok?
    ensures Restored(now, es[d.key := Encoded(d, DefaultOf(d), BUF).value]) == DefaultOf(now) <==>
            if d.typ.List? then Kept(Known(d), Known(now)) == Known(now) else now.def == d.def
    ensures Restored(now, es - {d.key}) == DefaultOf(now)
  {
    var b := Encoded(d, DefaultOf(d), BUF).value;
    assert Restored(now, es[d.key := b]) == Loaded(now, b);
    if d.typ.List? {
      OldListStays(d, now);
    } else {
      OldValueStays(d, now);
    }
  }

  lemma DecodedDefault(d: Def)
    requires ValidDef(d) && WellNamed(d) && Encoded(d, DefaultOf(d), BUF).Ok?
    ensures var b := Encoded(d, DefaultOf(d), BUF).value;
            |b| <= BUF && Decoded(d, b) == Ok(DefaultOf(d)) == Checked(d, DefaultOf(d))
  {
    DefaultIsChecked(d);
    FitsInCap(d, DefaultOf(d), BUF);
    WellNamedIsFaithful(d, DefaultOf(d));
    RoundTrip(d, DefaultOf(d), BUF);
  }

  lemma SameCodec(d: Def, now: Def, b: Bytes, v: Value)
    requires now == d.(def := now.def) && !d.typ.List?
    ensures Decoded(now, b) == Decoded(d, b) && Checked(now, v) == Checked(d, v)
  {
  }

  lemma OldValueStays(d: Def, now: Def)
    requires NewDefault(d, now) && !d.typ.List? && Encoded(d, DefaultOf(d), BUF).Ok?
    ensures Loaded(now, Encoded(d, DefaultOf(d), BUF).value) == DefaultOf(d)
  {
    DecodedDefault(d);
    SameCodec(d, now, Encoded(d, DefaultOf(d), BUF).value, DefaultOf(d));
  }

  lemma OldListStays(d: Def, now: Def)
    requires NewDefault(d, now) && d.typ.List? && Encoded(d, DefaultOf(d), BUF).Ok?
    ensures Loaded(now, Encoded(d, DefaultOf(d), BUF).value) == DefaultOf(now) <==> Kept(Known(d), Known(now)) == Known(now)
  {
    var v, b := DefaultOf(d), Encoded(d, DefaultOf(d), BUF).value;
    DefaultIsChecked(d);
    FitsInCap(d, v, BUF);
    WellNamedMigrates(d, now, v);
    MigratedNames(d, now, v, BUF);
    Migration(d, now, v, BUF);
    AllNames(d);
    AllNames(now);
    var idx := Decoded(now, b).value.idx;
    if NamesOf(now, idx) == Known(now) {
      SameNamesSameList(now, idx, DefaultOf(now).idx);
    }
  }

  /** The default of a list is all names. */
  lemma AllNames(d: Def)
    requires ValidDef(d) && d.typ.List?
    ensures DefaultOf(d).idx != [] && InRange(DefaultOf(d).idx, NameCount(d)) && NamesOf(d, DefaultOf(d).idx) == Known(d)
  {
  }

  lemma SameNamesSameList(d: Def, xs: seq<U8>, ys: seq<U8>)
    requires Distinct(Known(d)) && InRange(xs, NameCount(d)) && InRange(ys, NameCount(d))
    requires NamesOf(d, xs) == NamesOf(d, ys)
    ensures xs == ys
  {
  }

  // ---------------------------------------------------------------------
  // The retry counter
  // ---------------------------------------------------------------------

  /** The counter after these runs; a run is the set of settings it failed to
      save. */
  function Retries(runs: seq<set<nat>>): (r: nat)
    ensures r <= RETRIES
  {
    if runs == [] then 0
    else
      var r := Retries(runs[..|runs| - 1]);
      if runs[|runs| - 1] != {} && r < RETRIES then r + 1 else 0
  }

  /** Failing runs since the last one that saved everything. */
  function Streak(runs: seq<set<nat>>): nat {
    if runs == [] || runs[|runs| - 1] == {} then 0 else Streak(runs[..|runs| - 1]) + 1
  }

  lemma {:induction false} RetriesFollowTheStreak(runs: seq<set<nat>>)
    ensures Retries(runs) == Streak(runs) % (RETRIES + 1)
  {
    if runs != [] && runs[|runs| - 1] != {} {
      RetriesFollowTheStreak(runs[..|runs| - 1]);
    }
  }

  /** The run that comes next gives up on whatever it fails to save. */
  predicate GivesUp(before: seq<set<nat>>, failed: set<nat>) {
    failed != {} && Retries(before) == RETRIES
  }

  lemma {:induction false} StreakGoesOn(before: seq<set<nat>>, more: seq<set<nat>>)
    requires forall k: nat | k < |more| :: more[k] != {}
    ensures Streak(before + more) == Streak(before) + |more|
  {
    if more == [] {
      assert before + more == before;
    } else {
      var k := |more| - 1;
      StreakGoesOn(before, more[..k]);
      assert (before + more)[..|before + more| - 1] == before + more[..k];
      assert (before + more)[|before + more| - 1] == more[k];
    }
  }

  lemma Wheel(s: nat, k: nat)
    requires k <= RETRIES
    ensures (s + k) % (RETRIES + 1) == RETRIES <==> s % (RETRIES + 1) == RETRIES - k
  {
  }

  /** Counting failing runs from any one of them. */
  lemma GivesUpWhen(before: seq<set<nat>>, more: seq<set<nat>>, failed: set<nat>)
    requires failed != {} && |more| <= RETRIES && forall k: nat | k < |more| :: more[k] != {}
    ensures GivesUp(before + more, failed) <==> Streak(before) % (RETRIES + 1) == RETRIES - |more|
  {
    StreakGoesOn(before, more);
    RetriesFollowTheStreak(before + more);
    Wheel(Streak(before), |more|);
  }

  /** A failed save gets its three retries exactly when the failing runs before
      it, of any setting, were a multiple of four: the run after three more
      gives up, and none before. */
  lemma RetriesAreShared(before: seq<set<nat>>, more: seq<set<nat>>, failed: set<nat>)
    requires failed != {} && |more| == RETRIES && forall k: nat | k < |more| :: more[k] != {}
    ensures (&& GivesUp(before + more, failed)
             && forall k: nat | k < RETRIES :: !GivesUp(before + more[..k], more[k]))
            <==> Streak(before) % (RETRIES + 1) == 0
  {
    GivesUpWhen(before, more, failed);
    forall k: nat | k < RETRIES
      ensures GivesUp(before + more[..k], more[k]) <==> Streak(before) % (RETRIES + 1) == RETRIES - k
    {
      GivesUpWhen(before, more[..k], more[k]);
    }
    var s := Streak(before) % (RETRIES + 1);
    assert s > 0 ==> GivesUp(before + more[..RETRIES - s], more[RETRIES - s]);
  }

  /** Setting 1 fails once, after setting 0 failed three times, and is given up
      without a retry. */
  lemma GivenUpWithoutRetry()
    ensures GivesUp([{0}, {0}, {0}], {0, 1})
  {
    assert Retries([{0}]) == 1;
    assert [{0}, {0}][..1] == [{0}] && [{0}, {0}, {0}][..2] == [{0}, {0}];
    assert 0 in {0, 1};
  }

  // ---------------------------------------------------------------------
  // What is covered
  // ---------------------------------------------------------------------

  /** A reboot restores value i, or it is marked as still to be saved. */
  ghost predicate Covered(ds: seq<Def>, vs: seq<Value>, es: Entries, marks: set<nat>, i: nat)
    requires i < |ds| == |vs|
  {
    ds[i].proxy || i in marks || vs[i] == Restored(ds[i], es)
  }

  ghost predicate AllCovered(ds: seq<Def>, vs: seq<Value>, es: Entries, marks: set<nat>) {
    |ds| == |vs| && forall i: nat {:trigger Covered(ds, vs, es, marks, i)} | i < |ds| :: Covered(ds, vs, es, marks, i)
  }

  /** Setting i has an entry that holds its default. */
  ghost predicate HoldsDefault(ds: seq<Def>, es: Entries, i: nat)
    requires i < |ds|
  {
    ds[i].key in es && Restored(ds[i], es) == DefaultOf(ds[i])
  }

  ghost predicate LateAt(ds: seq<Def>, es: Entries, late: set<nat>, i: nat)
    requires i < |ds|
  {
    ds[i].proxy || (HoldsDefault(ds, es, i) <==> i in late)
  }

  ghost predicate AllLate(ds: seq<Def>, es: Entries, late: set<nat>) {
    forall i: nat {:trigger LateAt(ds, es, late, i)} | i < |ds| :: LateAt(ds, es, late, i)
  }

  ghost predicate NamedAt(ds: seq<Def>, i: nat)
    requires i < |ds|
  {
    ds[i].proxy || WellNamed(ds[i])
  }

  ghost predicate AllNamed(ds: seq<Def>) {
    forall i: nat {:trigger NamedAt(ds, i)} | i < |ds| :: NamedAt(ds, i)
  }

  lemma MoreMarks(ds: seq<Def>, vs: seq<Value>, es: Entries, marks: set<nat>,
                  vs': seq<Value>, marks': set<nat>)
    requires AllCovered(ds, vs, es, marks) && |vs'| == |vs|
    requires forall j: nat | j < |ds| && j in marks && !ds[j].proxy :: j in marks'
    requires forall j: nat | j < |vs| && j !in marks' :: vs'[j] == vs[j]
    ensures AllCovered(ds, vs', es, marks')
  {
    forall i: nat | i < |ds|
      ensures Covered(ds, vs', es, marks', i)
    {
      assert Covered(ds, vs, es, marks, i);
    }
  }

  /** Writing or deleting the entry of setting i takes its mark away when the
      value saved is the one it has. */
  lemma SavingKeeps(ds: seq<Def>, slots: nat, vs: seq<Value>, es: Entries, marks: set<nat>, i: nat,
                    v: Value, es': Entries, marks': set<nat>)
    requires ValidTable(ds, slots) && AllNamed(ds) && AllCovered(ds, vs, es, marks)
    requires i < |ds| && !ds[i].proxy && Checked(ds[i], v) == Ok(v)
    requires || (Encoded(ds[i], v, BUF).Ok? && es' == es[ds[i].key := Encoded(ds[i], v, BUF).value])
             || (v == DefaultOf(ds[i]) && es' == es - {ds[i].key})
    requires marks - {i} <= marks' && (i in marks' || vs[i] == v)
    ensures AllCovered(ds, vs, es', marks')
  {
    assert NamedAt(ds, i);
    SavedIsRestored(ds[i], v, es);
    TableEntry(ds, slots, i);
    forall j: nat | j < |ds|
      ensures Covered(ds, vs, es', marks', j)
    {
      assert Covered(ds, vs, es, marks, j);
      TableEntry(ds, slots, j);
      if j != i {
        assert ds[j].key != ds[i].key;
      }
    }
  }

  /** The entry of the key is there now, and no other has changed. */
  predicate Stored(was: Entries, now: Entries, key: Bytes) {
    key in now && now == was[key := now[key]]
  }

  /** And it has an entry with its default afterwards exactly when that was
      written. */
  lemma SavingMovesLate(ds: seq<Def>, slots: nat, es: Entries, late: set<nat>, i: nat, v: Value, es': Entries, late': set<nat>)
    requires ValidTable(ds, slots) && AllNamed(ds) && AllLate(ds, es, late)
    requires i < |ds| && !ds[i].proxy && Checked(ds[i], v) == Ok(v)
    requires || (Encoded(ds[i], v, BUF).Ok? && es' == es[ds[i].key := Encoded(ds[i], v, BUF).value]
                 && late' == if v == DefaultOf(ds[i]) then late + {i} else late - {i})
             || (es' == es - {ds[i].key} && late' == late - {i})
    ensures AllLate(ds, es', late')
  {
    assert NamedAt(ds, i);
    SavedIsRestored(ds[i], v, es);
    TableEntry(ds, slots, i);
    forall j: nat | j < |ds|
      ensures LateAt(ds, es', late', j)
    {
      assert LateAt(ds, es, late, j);
      TableEntry(ds, slots, j);
      if j != i {
        assert ds[j].key != ds[i].key;
      }
    }
  }

  // ---------------------------------------------------------------------
  // The store
  // ---------------------------------------------------------------------

  /** How far the handler of a set is: the value is in place, or also marked. */
  datatype Phase = Idle | Placed(i: nat) | Marked(i: nat)

  /** Value i fits an entry. */
  ghost predicate StorableAt(ds: seq<Def>, vs: seq<Value>, i: nat) {
    i < |ds| && i < |vs| && Checked(ds[i], vs[i]) == Ok(vs[i]) && StoredSize(ds[i], vs[i]) <= BUF
  }

  ghost predicate AllStorable(ds: seq<Def>, vs: seq<Value>, marked: set<nat>) {
    forall i {:trigger StorableAt(ds, vs, i)} | i in marked :: StorableAt(ds, vs, i)
  }

  datatype Moment = Moment(values: seq<Value>, dirty: set<nat>, phase: Phase, givenUp: set<nat>, scheduled: bool)

  class Keeper {
    const reg: Registry
    const works: bool           // the flash never fails
    const quiet: bool           // no handler runs beside a save
    var entries: Entries
    var retries: nat
    var scheduled: bool
    var phase: Phase
    var handling: bool          // a handler has yet to ask for the save
    ghost var runs: seq<set<nat>>
    ghost var givenUp: set<nat>
    ghost var late: set<nat>    // written last with their default

    /** Settings somebody will save: dirty, or about to be. */
    ghost function Touched(): set<nat>
      reads this, reg
    {
      reg.dirty + if phase.Placed? then {phase.i} else {}
    }

    ghost predicate Whole()
      reads this, reg, reg.vals, reg.lists
    {
      && reg.Stored() && AllNamed(reg.defs)
      && (if phase.Idle? then reg.ToldBut(-1) else phase.i < |reg.defs| && handling && reg.ToldBut(phase.i))
      && retries == Retries(runs)
      && (reg.dirty != {} ==> scheduled || handling)
    }

    /** Settings that live in the registry. */
    ghost predicate LiveHere(batch: set<nat>)
      reads reg`defs
    {
      forall i | i in batch :: i < |reg.defs| && !reg.defs[i].proxy
    }

    /** Nothing is lost: `batch` is what the run in progress has to save. */
    ghost predicate Inv(batch: set<nat>)
      reads this, reg, reg.vals, reg.lists
    {
      && Whole() && AllLate(reg.defs, entries, late)
      && AllCovered(reg.defs, reg.values, entries, Touched() + batch + givenUp)
    }

    constructor (r: Registry, works: bool, quiet: bool)
      requires r.Valid() && AllNamed(r.defs) && r.dirty == {} && r.values == Defaults(r.defs)
      ensures Inv({}) && reg == r && entries == map[] && runs == [] && givenUp == {} && late == {}
      ensures this.works == works && this.quiet == quiet && !scheduled && phase == Idle
    {
      reg, this.works, this.quiet := r, works, quiet;
      entries, retries, scheduled, phase, handling := map[], 0, false, Idle, false;
      runs, givenUp, late := [], {}, {};
      new;
      forall i: nat | i < |reg.defs|
        ensures Covered(reg.defs, reg.values, entries, Touched() + {} + givenUp, i) && LateAt(reg.defs, entries, late, i)
      {
      }
    }

    // The steps of a handler on the other thread.

    method Place(i: nat, v: Value, ghost batch: set<nat>)
      requires Inv(batch) && phase.Idle? && SetRc(reg.defs, i, v).None?
      modifies this`phase, this`handling, reg`owner, reg`values, reg.vals, reg.lists
      ensures Inv(batch) && phase == Placed(i)
      ensures |reg.values| == |old(reg.values)| && forall j: nat | j < |reg.values| && j != i :: reg.values[j] == old(reg.values[j])
      ensures !reg.defs[i].proxy ==> reg.values[i] == Checked(reg.defs[i], v).value
    {
      var c := Check(reg.defs[i], v);
      CheckIsIdempotent(reg.defs[i], v);
      reg.Change(i, c.value);
      phase, handling := Placed(i), true;
      MoreMarks(reg.defs, old(reg.values), entries, old(Touched() + batch + givenUp),
                reg.values, Touched() + batch + givenUp);
    }

    method Mark(ghost batch: set<nat>)
      requires Inv(batch) && phase.Placed?
      modifies this`phase, this`givenUp, reg`rev, reg`dirty
      ensures Inv(batch) && phase == Marked(old(phase).i)
      ensures reg.dirty == old(reg.dirty) + if reg.defs[old(phase).i].proxy then {} else {old(phase).i}
      ensures givenUp == old(givenUp) - {old(phase).i}
    {
      var i := phase.i;
      reg.Publish(i);
      phase, givenUp := Marked(i), givenUp - {i};
      MoreMarks(reg.defs, reg.values, entries, old(Touched() + batch + givenUp),
                reg.values, Touched() + batch + givenUp);
    }

    method Report(ghost batch: set<nat>)
      requires Inv(batch) && phase.Marked?
      modifies this`phase, reg`told
      ensures Inv(batch) && phase.Idle?
    {
      reg.Notify(phase.i);
      phase := Idle;
    }

    method RequestSave(ghost batch: set<nat>)
      requires Inv(batch) && phase.Idle?
      modifies this`scheduled, this`handling
      ensures Inv(batch) && scheduled && !handling
    {
      scheduled, handling := true, false;
    }

    /** Other threads run for a while. */
    method Preempt(ghost batch: set<nat>)
      requires Inv(batch)
      modifies this`phase, this`handling, this`scheduled, this`givenUp
      modifies reg`owner, reg`values, reg`rev, reg`dirty, reg`told, reg.vals, reg.lists
      ensures Inv(batch)
      ensures |reg.values| == |old(reg.values)|
      ensures forall j: nat | j < |reg.values| && !reg.defs[j].proxy :: reg.values[j] == old(reg.values[j]) || j in Touched()
      ensures forall j: nat | j < |reg.values| && !reg.defs[j].proxy && j in old(Touched()) :: j in Touched()
      ensures old(reg.dirty) <= reg.dirty && givenUp <= old(givenUp)
      ensures old(scheduled) ==> scheduled
      ensures quiet ==> Now() == old(Now())
    {
      if quiet {
        return;
      }
      var steps: nat :| true;
      while steps > 0
        invariant Inv(batch)
        invariant |reg.values| == |old(reg.values)|
        invariant forall j: nat | j < |reg.values| && !reg.defs[j].proxy ::
                    reg.values[j] == old(reg.values[j]) || j in Touched()
        invariant forall j: nat | j < |reg.values| && !reg.defs[j].proxy && j in old(Touched()) :: j in Touched()
        invariant old(reg.dirty) <= reg.dirty && givenUp <= old(givenUp)
        invariant old(scheduled) ==> scheduled
      {
        Step(batch);
        steps := steps - 1;
      }
    }

    /** One step of a handler. */
    method Step(ghost batch: set<nat>)
      requires Inv(batch)
      modifies this`phase, this`handling, this`scheduled, this`givenUp
      modifies reg`owner, reg`values, reg`rev, reg`dirty, reg`told, reg.vals, reg.lists
      ensures Inv(batch)
      ensures |reg.values| == |old(reg.values)|
      ensures forall j: nat | j < |reg.values| && !reg.defs[j].proxy :: reg.values[j] == old(reg.values[j]) || j in Touched()
      ensures forall j: nat | j < |reg.values| && !reg.defs[j].proxy && j in old(Touched()) :: j in Touched()
      ensures old(reg.dirty) <= reg.dirty && givenUp <= old(givenUp)
      ensures old(scheduled) ==> scheduled
    {
      match phase {
        case Placed(_) => Mark(batch);
        case Marked(_) => Report(batch);
        case Idle =>
          if * {
            RequestSave(batch);
          } else {
            var i: nat, v: Value :| true;
            if SetRc(reg.defs, i, v).None? {
              Place(i, v, batch);
            }
          }
      }
    }

    /** What only handlers change. */
    ghost function Now(): Moment
      reads this, reg
    {
      Moment(reg.values, reg.dirty, phase, givenUp, scheduled)
    }

    /** Write the entry of setting i, or delete it when it holds the default.
        Any step of a handler may come in between, and the flash may fail. */
    method SaveOne(i: nat, ghost batch: set<nat>) returns (ok: bool, ghost read: Value)
      requires Inv(batch) && i in batch && i < |reg.defs| && !reg.defs[i].proxy
      modifies this`entries, this`phase, this`handling, this`scheduled, this`givenUp, this`late
      modifies reg`owner, reg`values, reg`rev, reg`dirty, reg`told, reg.vals, reg.lists
      ensures Inv(if ok then batch - {i} else batch)
      ensures givenUp <= old(givenUp)
      ensures !ok ==> entries == old(entries)
      ensures ok ==> if old(reg.values[i]) == DefaultOf(reg.defs[i]) then entries == old(entries) - {reg.defs[i].key}
                     else Stored(old(entries), entries, reg.defs[i].key)
                          && Encoded(reg.defs[i], read, BUF) == Ok(entries[reg.defs[i].key])
      ensures late == if !ok then old(late)
                      else if old(reg.values[i]) != DefaultOf(reg.defs[i]) && read == DefaultOf(reg.defs[i]) then old(late) + {i}
                      else old(late) - {i}
      ensures works && quiet && StorableAt(reg.defs, old(reg.values), i) ==> ok
      ensures quiet ==> Now() == old(Now())
    {
      var isDefault := reg.IsDefault(i);
      if isDefault {
        read := DefaultOf(reg.defs[i]);
        ok := Delete(i, batch);
      } else {
        ok, read := Write(i, batch);
      }
    }

    method Delete(i: nat, ghost batch: set<nat>) returns (ok: bool)
      requires Inv(batch) && i in batch && i < |reg.defs| && !reg.defs[i].proxy && reg.values[i] == DefaultOf(reg.defs[i])
      modifies this`entries, this`phase, this`handling, this`scheduled, this`givenUp, this`late
      modifies reg`owner, reg`values, reg`rev, reg`dirty, reg`told, reg.vals, reg.lists
      ensures Inv(if ok then batch - {i} else batch)
      ensures givenUp <= old(givenUp)
      ensures entries == if ok then old(entries) - {reg.defs[i].key} else old(entries)
      ensures late == if ok then old(late) - {i} else old(late)
      ensures (works ==> ok) && (quiet ==> Now() == old(Now()))
    {
      Preempt(batch);
      var fails: bool := *;
      if fails && !works {
        return false;
      }
      DropEntry(i, batch);
      return true;
    }

    /** The deletion itself, of the entry of a value that may have changed
        meanwhile. */
    method DropEntry(i: nat, ghost batch: set<nat>)
      requires Inv(batch) && i < |reg.defs| && !reg.defs[i].proxy
      requires reg.values[i] == DefaultOf(reg.defs[i]) || i in Touched()
      modifies this`entries, this`late
      ensures Inv(batch - {i}) && entries == old(entries) - {reg.defs[i].key} && late == old(late) - {i}
    {
      var without := entries - {reg.defs[i].key};
      DefaultIsThere(i);
      SavingKeeps(reg.defs, reg.lists.Length, reg.values, entries, Touched() + batch + givenUp, i,
                  DefaultOf(reg.defs[i]), without, Touched() + (batch - {i}) + givenUp);
      SavingMovesLate(reg.defs, reg.lists.Length, entries, late, i, DefaultOf(reg.defs[i]), without, late - {i});
      entries, late := without, late - {i};
    }

    lemma DefaultIsThere(i: nat)
      requires Whole() && i < |reg.defs|
      ensures Checked(reg.defs[i], DefaultOf(reg.defs[i])) == Ok(DefaultOf(reg.defs[i]))
    {
      TableEntry(reg.defs, reg.lists.Length, i);
      DefaultIsChecked(reg.defs[i]);
    }

    /** The value of setting i as it is now, in its stored form. */
    method Snapshot(i: nat) returns (v: Value, b: Option<Bytes>)
      requires Whole() && i < |reg.defs| && !reg.defs[i].proxy
      ensures v == reg.values[i] && Checked(reg.defs[i], v) == Ok(v)
      ensures b.Some? <==> Encoded(reg.defs[i], v, BUF).Ok?
      ensures b.Some? ==> b.value == Encoded(reg.defs[i], v, BUF).value
    {
      v := reg.Get(i);
      assert Fits(reg.defs, reg.values, i);
      var buf := new byte[BUF];
      var n := Encode(reg.defs[i], v, buf);
      b := if n.Err? then None else Some(buf[..n.value]);
    }

    method Write(i: nat, ghost batch: set<nat>) returns (ok: bool, ghost read: Value)
      requires Inv(batch) && i in batch && i < |reg.defs| && !reg.defs[i].proxy
      modifies this`entries, this`phase, this`handling, this`scheduled, this`givenUp, this`late
      modifies reg`owner, reg`values, reg`rev, reg`dirty, reg`told, reg.vals, reg.lists
      ensures Inv(if ok then batch - {i} else batch)
      ensures givenUp <= old(givenUp)
      ensures if ok then Stored(old(entries), entries, reg.defs[i].key) else entries == old(entries)
      ensures ok ==> Encoded(reg.defs[i], read, BUF) == Ok(entries[reg.defs[i].key])
      ensures late == if !ok then old(late)
                      else if read == DefaultOf(reg.defs[i]) then old(late) + {i} else old(late) - {i}
      ensures works && quiet && StorableAt(reg.defs, old(reg.values), i) ==> ok
      ensures quiet ==> Now() == old(Now()) && read == reg.values[i]
    {
      Preempt(batch);
      var v, b := Snapshot(i);
      StoredIfItFits(reg.defs[i], v, BUF);
      read := v;
      if b.None? {
        return false, v;
      }
      ok := WriteEntry(i, v, b.value, batch);
    }

    method WriteEntry(i: nat, v: Value, b: Bytes, ghost batch: set<nat>) returns (ok: bool)
      requires Inv(batch) && i in batch && i < |reg.defs| && !reg.defs[i].proxy
      requires v == reg.values[i] && Checked(reg.defs[i], v) == Ok(v)
      requires Encoded(reg.defs[i], v, BUF) == Ok(b)
      modifies this`entries, this`phase, this`handling, this`scheduled, this`givenUp, this`late
      modifies reg`owner, reg`values, reg`rev, reg`dirty, reg`told, reg.vals, reg.lists
      ensures Inv(if ok then batch - {i} else batch)
      ensures givenUp <= old(givenUp)
      ensures entries == if ok then old(entries)[reg.defs[i].key := b] else old(entries)
      ensures late == if !ok then old(late)
                      else if v == DefaultOf(reg.defs[i]) then old(late) + {i} else old(late) - {i}
      ensures (works ==> ok) && (quiet ==> Now() == old(Now()))
    {
      Preempt(batch);
      var fails: bool := *;
      if fails && !works {
        return false;
      }
      PutEntry(i, v, b, batch);
      return true;
    }

    /** The write itself, of a value that may have changed meanwhile. */
    method PutEntry(i: nat, v: Value, b: Bytes, ghost batch: set<nat>)
      requires Inv(batch) && i < |reg.defs| && !reg.defs[i].proxy
      requires Checked(reg.defs[i], v) == Ok(v) && Encoded(reg.defs[i], v, BUF) == Ok(b)
      requires v == reg.values[i] || i in Touched()
      modifies this`entries, this`late
      ensures Inv(batch - {i})
      ensures entries == old(entries)[reg.defs[i].key := b]
      ensures late == if v == DefaultOf(reg.defs[i]) then old(late) + {i} else old(late) - {i}
    {
      var with := entries[reg.defs[i].key := b];
      ghost var late' := if v == DefaultOf(reg.defs[i]) then late + {i} else late - {i};
      SavingKeeps(reg.defs, reg.lists.Length, reg.values, entries, Touched() + batch + givenUp, i,
                  v, with, Touched() + (batch - {i}) + givenUp);
      SavingMovesLate(reg.defs, reg.lists.Length, entries, late, i, v, with, late');
      entries, late := with, late';
    }

    /** One run of the delayed save: nothing is lost, what failed is tried again
        or given up by the counter's rule, and whatever is dirty afterwards has
        a save on its way. */
    method SaveWork() returns (failed: set<nat>)
      requires Inv({})
      modifies this, reg`owner, reg`values, reg`rev, reg`dirty, reg`told, reg.vals, reg.lists
      ensures Inv({})
      ensures runs == old(runs) + [failed] && failed <= old(reg.dirty)
      ensures !GivesUp(old(runs), failed) ==> failed <= reg.dirty && givenUp <= old(givenUp) && (failed != {} ==> scheduled)
      ensures GivesUp(old(runs), failed) ==> failed <= reg.dirty + givenUp && givenUp <= old(givenUp) + failed
      ensures works && quiet && AllStorable(reg.defs, old(reg.values), old(reg.dirty)) ==>
                failed == {} && reg.dirty == {} && reg.values == old(reg.values) && phase == old(phase)
                && givenUp == old(givenUp) && !scheduled
    {
      var dirty := Take();
      failed := SaveAll(dirty);
      Conclude(failed);
    }

    method Take() returns (dirty: set<nat>)
      requires Inv({})
      modifies this`scheduled, reg`dirty
      ensures Inv(dirty) && dirty == old(reg.dirty) && reg.dirty == {} && !scheduled
      ensures LiveHere(dirty)
    {
      dirty := reg.TakeDirty();
      scheduled := false;
      assert Touched() + dirty + givenUp == old(Touched() + {} + givenUp);
    }

    method SaveAll(dirty: set<nat>) returns (failed: set<nat>)
      requires Inv(dirty) && LiveHere(dirty)
      modifies this`entries, this`phase, this`handling, this`scheduled, this`givenUp, this`late
      modifies reg`owner, reg`values, reg`rev, reg`dirty, reg`told, reg.vals, reg.lists
      ensures Inv(failed) && failed <= dirty && givenUp <= old(givenUp)
      ensures quiet ==> Now() == old(Now())
      ensures works && quiet && AllStorable(reg.defs, old(reg.values), dirty) ==> failed == {}
    {
      failed := SaveSome(dirty, |reg.defs|);
      assert Left(dirty, |reg.defs|, failed) == failed;
    }

    /** The first n settings of a run. */
    method SaveSome(dirty: set<nat>, n: nat) returns (failed: set<nat>)
      requires Inv(dirty) && n <= |reg.defs| && LiveHere(dirty)
      modifies this`entries, this`phase, this`handling, this`scheduled, this`givenUp, this`late
      modifies reg`owner, reg`values, reg`rev, reg`dirty, reg`told, reg.vals, reg.lists
      ensures Inv(Left(dirty, n, failed)) && failed <= dirty && givenUp <= old(givenUp)
      ensures quiet ==> Now() == old(Now())
      ensures works && quiet && AllStorable(reg.defs, old(reg.values), dirty) ==> failed == {}
    {
      ghost var was := Now();
      failed := {};
      var i := 0;
      assert Left(dirty, 0, {}) == dirty;
      assert Saving(dirty, i, failed, was);
      while i < n
        invariant 0 <= i <= n <= |reg.defs|
        invariant Saving(dirty, i, failed, was)
      {
        failed := SaveIfDirty(i, dirty, failed, was);
        i := i + 1;
      }
    }

    /** What a run has to save before setting i: what failed, and what it has
        not yet come to. */
    static ghost function Left(dirty: set<nat>, i: nat, failed: set<nat>): set<nat> {
      set j | j in dirty && (j >= i || j in failed)
    }

    static lemma LeftGoesOn(dirty: set<nat>, i: nat, failed: set<nat>)
      requires i !in failed
      ensures i !in dirty ==> Left(dirty, i, failed) == Left(dirty, i + 1, failed)
      ensures i in dirty ==> Left(dirty, i, failed) == Left(dirty, i + 1, failed + {i})
      ensures i in dirty ==> Left(dirty, i, failed) - {i} == Left(dirty, i + 1, failed)
    {
    }

    /** A run that has come to setting i, and began when things were as in `was`. */
    ghost predicate Saving(dirty: set<nat>, i: nat, failed: set<nat>, was: Moment)
      reads this, reg, reg.vals, reg.lists
    {
      && Inv(Left(dirty, i, failed)) && LiveHere(dirty) && failed <= dirty && (forall j | j in failed :: j < i)
      && givenUp <= was.givenUp && (quiet ==> Now() == was)
      && (works && quiet && AllStorable(reg.defs, was.values, dirty) ==> failed == {})
    }

    method SaveIfDirty(i: nat, dirty: set<nat>, failed: set<nat>, ghost was: Moment) returns (failed': set<nat>)
      requires Saving(dirty, i, failed, was) && i < |reg.defs|
      modifies this`entries, this`phase, this`handling, this`scheduled, this`givenUp, this`late
      modifies reg`owner, reg`values, reg`rev, reg`dirty, reg`told, reg.vals, reg.lists
      ensures Saving(dirty, i + 1, failed', was)
      ensures failed <= failed' <= failed + {i}
    {
      LeftGoesOn(dirty, i, failed);
      if i !in dirty {
        return failed;
      }
      ghost var read;
      var ok;
      ok, read := SaveOne(i, Left(dirty, i, failed));
      return if ok then failed else failed + {i};
    }

    method Conclude(failed: set<nat>)
      requires Inv(failed) && LiveHere(failed)
      modifies this`retries, this`scheduled, this`runs, this`givenUp, reg`dirty
      ensures Inv({})
      ensures runs == old(runs) + [failed]
      ensures !GivesUp(old(runs), failed) ==> failed <= reg.dirty && givenUp == old(givenUp) && (failed != {} ==> scheduled)
      ensures GivesUp(old(runs), failed) ==> failed <= reg.dirty + givenUp && givenUp <= old(givenUp) + failed
      ensures failed == {} ==> reg.dirty == old(reg.dirty) && givenUp == old(givenUp) && scheduled == old(scheduled)
    {
      assert (runs + [failed])[..|runs|] == runs;
      if failed == {} {
        Count(0, failed);
      } else if retries < RETRIES {
        Retry(failed);
        Count(retries + 1, failed);
      } else {
        GiveUp(failed);
        Count(0, failed);
      }
    }

    method Count(r: nat, failed: set<nat>)
      requires Inv({}) && r == Retries(runs + [failed])
      modifies this`retries, this`runs
      ensures Inv({}) && runs == old(runs) + [failed] && retries == r
    {
      retries, runs := r, runs + [failed];
    }

    method Retry(failed: set<nat>)
      requires Inv(failed) && LiveHere(failed)
      modifies this`scheduled, reg`dirty
      ensures Inv({}) && reg.dirty == old(reg.dirty) + failed && scheduled
    {
      reg.MarkDirty(failed);
      scheduled := true;
      assert Touched() + {} + givenUp == old(Touched() + failed + givenUp);
    }

    method GiveUp(failed: set<nat>)
      requires Inv(failed)
      modifies this`givenUp
      ensures Inv({}) && givenUp == old(givenUp) + (failed - reg.dirty)
    {
      givenUp := givenUp + (failed - reg.dirty);
      assert Touched() + {} + givenUp == old(Touched() + failed + givenUp);
    }

    // ---- Boot ----

    /** One stored entry; what is unknown, too long or invalid is ignored. */
    method LoadEntry(name: Bytes, b: Bytes)
      requires reg.Valid()
      modifies reg`owner, reg`told, reg`values, reg.vals, reg.lists
      ensures reg.Valid()
      ensures var i := KeyIndex(reg.defs, name);
              reg.values == if i.Some? && Accepted(reg.defs[i.value], b)
                            then old(reg.values)[i.value := Loaded(reg.defs[i.value], b)]
                            else old(reg.values)
    {
      var i := FindKey(reg.defs, name);
      if i.None? || |b| > BUF {
        return;
      }
      var v := Decode(reg.defs[i.value], b);
      if v.Ok? {
        var rc := reg.Load(i.value, v.value);
      }
    }

    method LoadAll()
      requires reg.Valid() && reg.values == Defaults(reg.defs)
      modifies reg`owner, reg`told, reg`values, reg.vals, reg.lists
      ensures reg.Valid() && AllLoaded(reg.defs, reg.values, entries, {})
    {
      var rest := entries.Keys;
      NothingLoaded(reg.defs, entries);
      while rest != {}
        invariant reg.Valid() && rest <= entries.Keys
        invariant AllLoaded(reg.defs, reg.values, entries, rest)
        decreases |rest|
      {
        var name :| name in rest;
        ghost var before := reg.values;
        LoadEntry(name, entries[name]);
        LoadingKeeps(reg.defs, reg.lists.Length, before, entries, rest, name, reg.values);
        rest := rest - {name};
      }
    }

    method Restart(ds: seq<Def>, v: array<U32>, l: array<seq<U8>>)
      requires |ds| <= v.Length && ValidTable(ds, l.Length)
      modifies reg, v, l
      ensures reg.Valid() && reg.defs == ds && reg.dirty == {} && reg.vals == v && reg.lists == l
      ensures AllLoaded(ds, reg.values, entries, {})
    {
      var rc := reg.Init(ds, v, l);
      LoadAll();
    }

    /** Power comes back: everything starts at its default, then the entries
        are loaded in some order.  What was saved comes back as it was. */
    method Reboot(ds: seq<Def>, v: array<U32>, l: array<seq<U8>>, ghost batch: set<nat>)
      requires Inv(batch) && ds == reg.defs && |ds| <= v.Length && ValidTable(ds, l.Length)
      modifies this, reg, v, l
      ensures Inv({}) && Touched() == {} && givenUp == {} && reg.defs == ds && reg.vals == v && reg.lists == l
      ensures forall i: nat | i < |ds| && !ds[i].proxy :: reg.values[i] == Restored(ds[i], entries)
      ensures entries == old(entries) && late == old(late)
      ensures forall i: nat | i < |ds| && !ds[i].proxy && i !in old(Touched() + batch + givenUp) ::
                reg.values[i] == old(reg.values[i])
    {
      PowerGoes();
      Restart(ds, v, l);
      BootRestores(ds, old(reg.values), entries, old(Touched() + batch + givenUp), reg.values);
      assert Touched() + {} + givenUp == {};
    }

    /** Nothing is remembered but the entries. */
    method PowerGoes()
      modifies this`retries, this`scheduled, this`phase, this`handling, this`runs, this`givenUp
      ensures retries == 0 && !scheduled && phase == Idle && !handling && runs == [] && givenUp == {}
    {
      retries, scheduled, phase, handling, runs, givenUp := 0, false, Idle, false, [], {};
    }

    /** The power goes in the middle of a run, and comes back. */
    method Interrupted(v: array<U32>, l: array<seq<U8>>)
      requires Inv({}) && |reg.defs| <= v.Length && ValidTable(reg.defs, l.Length)
      modifies this, reg, reg.vals, reg.lists, v, l
      ensures Inv({}) && reg.defs == old(reg.defs) && reg.vals == v && reg.lists == l
    {
      var dirty := Take();
      var n: nat :| n <= |reg.defs|;
      var failed := SaveSome(dirty, n);
      Reboot(reg.defs, v, l, Left(dirty, n, failed));
    }

    /** With nothing left to save, for any setting that has another value than
        its default: it is set, the save finds that it is not at its default, it
        is set back before the save has read it, and the power goes.  It is at
        its default and has an entry. */
    method LateEntry(i: nat, other: Value, v: array<U32>, l: array<seq<U8>>)
      requires Inv({}) && phase.Idle? && reg.dirty == {} && |reg.defs| <= v.Length && ValidTable(reg.defs, l.Length)
      requires Settable(i, other)
      modifies this, reg, reg.vals, reg.lists, v, l
      ensures Inv({}) && Touched() == {} && givenUp == {} && reg.defs == old(reg.defs)
      ensures reg.values[i] == DefaultOf(reg.defs[i]) && reg.defs[i].key in entries && i in late
    {
      SetTo(i, other, {});
      var dirty := Take();
      assert dirty == {i};
      SetBack(i);
      Reboot(reg.defs, v, l, {});
      HasItsEntry();
    }

    /** When the flash works and nobody is in between, one save is enough: no
        value that fits is left, and after a reboot every setting is what it
        was. */
    method SavedForGood(v: array<U32>, l: array<seq<U8>>)
      requires Inv({}) && works && quiet && phase.Idle? && givenUp == {}
      requires AllStorable(reg.defs, reg.values, reg.dirty)
      requires |reg.defs| <= v.Length && ValidTable(reg.defs, l.Length)
      modifies this, reg, reg.vals, reg.lists, v, l
      ensures Inv({}) && reg.defs == old(reg.defs) && reg.dirty == {}
      ensures forall i: nat | i < |reg.defs| && !reg.defs[i].proxy :: reg.values[i] == old(reg.values[i])
    {
      var failed := SaveWork();
      Reboot(reg.defs, v, l, {});
    }

    /** Setting i can be set to another value than its default, and its default
        can be stored. */
    ghost predicate Settable(i: nat, other: Value)
      reads reg`defs
    {
      && i < |reg.defs| && !reg.defs[i].proxy && SetRc(reg.defs, i, other).None?
      && Checked(reg.defs[i], other).value != DefaultOf(reg.defs[i])
      && Encoded(reg.defs[i], DefaultOf(reg.defs[i]), BUF).Ok?
    }

    /** A save of setting i alone, with a handler between its two looks at the
        value. */
    method SetBack(i: nat)
      requires Inv({i}) && phase.Idle? && i < |reg.defs| && !reg.defs[i].proxy && !reg.defs[i].readOnly
      requires reg.values[i] != DefaultOf(reg.defs[i]) && Encoded(reg.defs[i], DefaultOf(reg.defs[i]), BUF).Ok?
      modifies this`entries, this`phase, this`handling, this`scheduled, this`givenUp, this`late
      modifies reg`owner, reg`values, reg`rev, reg`dirty, reg`told, reg.vals, reg.lists
      ensures Inv({}) && i in late
    {
      var isDefault := reg.IsDefault(i);
      assert !isDefault;
      DefaultIsThere(i);
      SetTo(i, DefaultOf(reg.defs[i]), {i});
      var v, b := Snapshot(i);
      PutEntry(i, v, b.value, {i});
      assert {i} - {i} == {};
    }

    /** The steps of a handler that sets one setting. */
    method SetTo(i: nat, v: Value, ghost batch: set<nat>)
      requires Inv(batch) && phase.Idle? && i < |reg.defs| && !reg.defs[i].proxy && SetRc(reg.defs, i, v).None?
      modifies this`phase, this`handling, this`scheduled, this`givenUp
      modifies reg`owner, reg`values, reg`rev, reg`dirty, reg`told, reg.vals, reg.lists
      ensures Inv(batch) && phase.Idle? && scheduled && reg.dirty == old(reg.dirty) + {i}
      ensures reg.values[i] == Checked(reg.defs[i], v).value
    {
      Place(i, v, batch);
      Mark(batch);
      Report(batch);
      RequestSave(batch);
    }

    /** Any number of anything: a reboot would restore every setting that is
        not marked, about to be marked, or given up; and such a setting has an
        entry exactly when it is not at its default, or its default was what
        the last save wrote. */
    method AnyRun(steps: nat)
      requires Inv({})
      modifies this, reg, reg.vals, reg.lists
      ensures Inv({})
      ensures forall i: nat | i < |reg.defs| && !reg.defs[i].proxy :: HoldsDefault(reg.defs, entries, i) <==> i in late
      ensures forall i: nat | i < |reg.defs| && !reg.defs[i].proxy && i !in Touched() && i !in givenUp ::
                && reg.values[i] == Restored(reg.defs[i], entries)
                && (reg.defs[i].key in entries <==> reg.values[i] != DefaultOf(reg.defs[i]) || i in late)
    {
      for k := 0 to steps
        invariant Inv({})
        invariant (reg.vals == old(reg.vals) || fresh(reg.vals)) && (reg.lists == old(reg.lists) || fresh(reg.lists))
      {
        AnyStep();
      }
      HasItsEntry();
    }

    lemma HasItsEntry()
      requires Inv({})
      ensures forall i: nat | i < |reg.defs| && !reg.defs[i].proxy :: HoldsDefault(reg.defs, entries, i) <==> i in late
      ensures forall i: nat | i < |reg.defs| && !reg.defs[i].proxy && i !in Touched() && i !in givenUp ::
                && reg.values[i] == Restored(reg.defs[i], entries)
                && (reg.defs[i].key in entries <==> reg.values[i] != DefaultOf(reg.defs[i]) || i in late)
    {
      forall i: nat | i < |reg.defs| && !reg.defs[i].proxy
        ensures HoldsDefault(reg.defs, entries, i) <==> i in late
        ensures i in Touched() || i in givenUp || reg.values[i] == Restored(reg.defs[i], entries)
      {
        assert LateAt(reg.defs, entries, late, i) && Covered(reg.defs, reg.values, entries, Touched() + {} + givenUp, i);
      }
    }

    method AnyStep()
      requires Inv({})
      modifies this, reg, reg.vals, reg.lists
      ensures Inv({})
      ensures (reg.vals == old(reg.vals) || fresh(reg.vals)) && (reg.lists == old(reg.lists) || fresh(reg.lists))
    {
      var what: nat :| true;
      match what {
        case 0 => Step({});
        case 1 => var _ := SaveWork();
        case 2 => PowerCut(true);
        case _ => PowerCut(false);
      }
    }

    /** The power goes, with a save running or not; the memory of the next boot is
        new. */
    method PowerCut(saving: bool)
      requires Inv({})
      modifies this, reg, reg.vals, reg.lists
      ensures Inv({}) && fresh(reg.vals) && fresh(reg.lists)
    {
      var v, l := new U32[|reg.defs|], new seq<U8>[reg.lists.Length];
      if saving {
        Interrupted(v, l);
      } else {
        Reboot(reg.defs, v, l, {});
      }
    }
  }

  /** Whether a boot takes the entry. */
  predicate Accepted(d: Def, b: Bytes) {
    && |b| <= BUF && Decoded(d, b).Ok? && Checked(d, Decoded(d, b).value).Ok?
    && !d.readOnly && !d.proxy
  }

  /** Value i while the entries in `rest` are still to be loaded. */
  ghost predicate LoadedAt(ds: seq<Def>, vs: seq<Value>, es: Entries, rest: set<Bytes>, i: nat)
    requires i < |ds| == |vs|
  {
    ds[i].proxy || vs[i] == if ds[i].key in rest then DefaultOf(ds[i]) else Restored(ds[i], es)
  }

  ghost predicate AllLoaded(ds: seq<Def>, vs: seq<Value>, es: Entries, rest: set<Bytes>) {
    |ds| == |vs| && forall i: nat {:trigger LoadedAt(ds, vs, es, rest, i)} | i < |ds| :: LoadedAt(ds, vs, es, rest, i)
  }

  lemma NothingLoaded(ds: seq<Def>, es: Entries)
    ensures AllLoaded(ds, Defaults(ds), es, es.Keys)
  {
  }

  lemma LoadingKeeps(ds: seq<Def>, slots: nat, vs: seq<Value>, es: Entries, rest: set<Bytes>, name: Bytes,
                     vs': seq<Value>)
    requires ValidTable(ds, slots) && AllLoaded(ds, vs, es, rest) && name in es
    requires var i := KeyIndex(ds, name);
             vs' == if i.Some? && Accepted(ds[i.value], es[name]) then vs[i.value := Loaded(ds[i.value], es[name])] else vs
    ensures AllLoaded(ds, vs', es, rest - {name})
  {
    forall j: nat | j < |ds|
      ensures LoadedAt(ds, vs', es, rest - {name}, j)
    {
      assert LoadedAt(ds, vs, es, rest, j);
      TableEntry(ds, slots, j);
    }
  }

  lemma BootRestores(ds: seq<Def>, vs: seq<Value>, es: Entries, marks: set<nat>,
                     vs': seq<Value>)
    requires AllCovered(ds, vs, es, marks) && AllLoaded(ds, vs', es, {})
    ensures AllCovered(ds, vs', es, {})
    ensures forall i: nat | i < |ds| && !ds[i].proxy :: vs'[i] == Restored(ds[i], es)
    ensures forall i: nat | i < |ds| && !ds[i].proxy && i !in marks :: vs'[i] == vs[i]
  {
    forall i: nat | i < |ds|
      ensures Covered(ds, vs', es, {}, i)
      ensures !ds[i].proxy ==> vs'[i] == Restored(ds[i], es) && (i !in marks ==> vs'[i] == vs[i])
    {
      assert LoadedAt(ds, vs', es, {}, i) && Covered(ds, vs, es, marks, i);
    }
  }
}
