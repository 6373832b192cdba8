# Keyboard firmware and host tools: verified model

A Dafny 4.11 model of the hardest parts of the keyboard firmware and its host
tools, with proofs of what they promise. `dafny verify dfyconfig.toml` verifies
the whole project.

## What is modelled

**The radio schedule.** `Ticks` says when the 32-bit tick comparisons agree with
unbounded ticks. `Arbiter` is the event arbiter as a state machine: requests,
yields, cancellations, alarms, overruns and callbacks, and what every run of
them keeps. `EventArbiter` is the arbiter as it changes its slot array in place;
its ghost history is a run of that state machine, so whatever holds of every run
holds of it. `Priorities` says what a request comes to: whom it meets in time on
the air, and who wins. `Controller` adds the dispatch loop and the advertising client.
Links are owners that ask for anything at any time, and a finite number of times
inside one dispatch; clock, radio, random delay and the flash window are the
environment's. `Fairness` is the round robin between requesters.

**Host and keyboard.** `Upload` is the pipelined firmware upload: the client, two
first-in first-out channels that lose what they carry, and the keyboard.
`LateReplies` is the same as a state machine without faults, begun while answers
of an earlier upload are still to come. `Flash`
and `Restore` are the staged restore: raw flash commands over an array in which
erasing sets 0xFF and programming clears bits, the trampoline, and the host's
loop over them. `Cbor`, `Base64` and `Framing` are the formats on the wire (RFC
8949, section 4 of RFC 4648, the serial framing and its incremental reader).
`Checksum` is the checksum of a frame, as the remainder of a division of
polynomials (`Gf2`); `Crc` has the two forms of another one.

**The settings.** `Registry` is the table of settings with its values, list
slots, dirty mask and revision. `Codec` is their stored form. `Store` is the
delayed and retried save, with any step of a set in between any two steps of a
save, and the reboot. `Replies` are the bytes of the replies to a list and a get
and what a client reads in them, `Paging` the page protocol, both programs
together.

Classes stand where the source updates state in place; their methods are tied to
the functions and predicates of which the lemmas speak, and `AnyRun` in
`Controller`, `Registry` and `Store` says what any sequence of calls keeps.
`Wrappers` and `Bytes` hold the stock types.

## What came out

- Requests need their alarm no later than their open and a reserved length of at
  least the clipping reserve (800 us): `Arbiter.ValidReq`. Advertising always
  satisfies both, and zmk/drivers/bluetooth/openll/ll_conn.h:320 gives the
  floor for links.
- The advertiser writes `req_tick` and `req_chans` after its request returns
  (ll_adv.c:250-255), when a nested callback may have placed something else. The
  fields are right whenever the request displaces nobody or is made inside a
  dispatch (`Controller.AdvRequest`); for any other accepted request the links
  can make them wrong (`Staleness.FieldsCanBeWrong`). While they are right, what
  is sent fills the span reserved exactly; when they are wrong three channels can
  go out in a span reserved for one. The invariants speak of the arbiter's slot.
- The branch that disables a stuck advertiser (ll_adv.c:321-330) and the branch
  for a negative distance (ll_arb.c:118-120) are dead.
- Round robin is a matter of flags kept per requester, not per pair. A requester
  that lost to another in a tie does not lose to it again until a step spends
  what is owed: the loser displaces somebody, somebody gives up an event the
  loser refused, or the winner loses to anybody (`Fairness.Spends`). This is
  exact, step by step, for any number of requesters. So two that meet only each
  other never lose twice in a row; with a third they can. A running event
  refuses everybody, and an overrun (ll_arb.c:172-182) marks only the loser.
- The upload drops the replies that have arrived (rainy75_dfu.py:242-243) and takes
  any that comes later for a confirmation. It works if and only if each of those
  says at most the first chunk and less than the image, and none is a refusal
  (`LateReplies.WorksIff`). One further on makes the client skip what the keyboard
  still needs, and the two repeat themselves for ever (`LateReplies.HeldUp`); one
  from the end of the image on, or a refusal, ends the upload
  (`LateReplies.EndsTooSoon`).
- An event in progress goes from channel to channel and is over after as many
  radio events as it has channels, whatever links and alarms do in between
  (`Controller.EventEnds`); a scan request that is answered is the one radio
  event that leaves it where it is.
- Advertising that starves is placed at once under links that ask below its
  priority, so of such links it loses at most two events in a row, and one more
  after a bump (`Controller.PlanEvent`).
- The commit handler does not check that the staging offset is sector aligned,
  while the erase loop goes by whole sectors. It is right for every flash content
  exactly when the offset is aligned, and the host's always is.
- The cleanup phase of the trampoline (flash_mgmt.c:167-174) ends where the
  host's staging area begins, so it never erases a staged copy, contrary to its
  comment.
- `save_retries` (cfg_store.c:88) is one counter for all settings. The three
  retries of cfg_store.c:10-11 are given to a failing save exactly when the
  failing runs before it were a multiple of four.
- A setting at its default has no entry, as cfg_store.c:7-9 promises, once nothing
  of it is left to save: if it is not dirty or about to be, and was not given up.
  There is exactly one exception: the last save of it wrote its default.
  `Store.Keeper.LateEntry` is such a run, for any setting that has another
  value: it is set back between the look at cfg_store.c:80 and the reading at
  line 83, and the power goes before the next save. The entry then hides the
  new default of a later firmware (`Store.OldDefaultStays`). A setting that was
  given up keeps whatever entry it had.
- A valid value can be stored if and only if its stored form fits the buffer
  (`Codec.StoredIfItFits`), and with flash that works and no handler in between
  one save is enough for everything that fits (`Store.Keeper.SavedForGood`).
- The stored form is empty for an empty name, although cfg_codec.h:27 says at
  least one byte. The round trip holds exactly for the values `Codec.Faithful`
  describes; durability is proved for tables whose names are distinct, not empty
  and free of commas.

## Model

| member | source | states |
|---|---|---|
| `Ticks.SignedDifference` | zmk/drivers/bluetooth/openll/ll_arb.c:7-8 | the signed difference of two 32-bit ticks is the real difference if and only if that lies within half the range |
| `Ticks.UnsignedDifference` | zmk/drivers/bluetooth/openll/ll_adv.c:233-238 | the unsigned difference of two ticks is the real one if and only if that is not negative and less than the whole range |
| `Ticks.OverlapAgrees` | zmk/drivers/bluetooth/openll/ll_arb.c:58-62 | inside a half-range window the driver's wrapped overlap test is the interval test on unbounded ticks |
| `Ticks.OverlapNeedsWindow` | zmk/drivers/bluetooth/openll/ll_arb.c:58-62 | outside the window it is not: a pair of equal spans the test calls disjoint |
| `Arbiter.RunIsSafe` | zmk/drivers/bluetooth/openll/ll_arb.c:217-291 | safety over whole runs: in every state of every run at most one request runs, accepted requests that wait have pairwise disjoint spans, each opens at or after the end of the running one or lies wholly before it, displaced owners hold nothing, and the alarm stands for the earliest waiting request |
| `Arbiter.StepKeepsSafe` | zmk/drivers/bluetooth/openll/ll_arb.c:217-319 | every single step (request, yield, cancel, fire, overrun, callback) keeps that invariant |
| `Arbiter.StepKeepsSlotsSafe` | zmk/drivers/bluetooth/openll/ll_arb.c:217-319 | its part about spans, one step at a time |
| `Arbiter.StepKeepsPendingIdle` | zmk/drivers/bluetooth/openll/ll_arb.c:276-290 | a displaced owner holds no request until it is called back |
| `Arbiter.StepKeepsAlarm` | zmk/drivers/bluetooth/openll/ll_arb.c:293-309 | a yield and a callback, which do not arm, leave the alarm right |
| `Arbiter.AlarmOfIsRight` | zmk/drivers/bluetooth/openll/ll_arb.c:80-91 | an alarm stands for the earliest waiting request if and only if it is the one arming sets |
| `Arbiter.EarliestIsFound` | zmk/drivers/bluetooth/openll/ll_arb.c:64-78 | the search finds a waiting request with the earliest alarm, or says that none waits |
| `Arbiter.OneIsEarliest` | zmk/drivers/bluetooth/openll/ll_arb.c:64-78 | there is but one earliest request, with the lowest id among equals |
| `Arbiter.RequestKeepsSafe` | zmk/drivers/bluetooth/openll/ll_arb.c:232-288 | an accepted or refused request leaves the spans disjoint and clear of the running one |
| `Arbiter.FireKeepsSafe` | zmk/drivers/bluetooth/openll/ll_arb.c:178-190 | starting a request, with its clipped length, keeps every waiting request clear of it |
| `Arbiter.CapClears` | zmk/drivers/bluetooth/openll/ll_arb.c:103-128 | when a request starts no other waiting request opens before it (the negative-distance branch is dead), and its length plus the clipping reserve ends by each of their opens |
| `Arbiter.DroppingKeepsSafe` | zmk/drivers/bluetooth/openll/ll_arb.c:293-319 | taking requests away never breaks the invariant |
| `Arbiter.AlarmUnmoved` | zmk/drivers/bluetooth/openll/ll_arb.c:293-309 | a change of fairness flags alone leaves the alarm right, so a yield need not arm |
| `Arbiter.ReachedIsSafe` | zmk/drivers/bluetooth/openll/ll_arb.c:217-291 | whatever a run reaches is safe |
| `Arbiter.ReachedExtends` | zmk/drivers/bluetooth/openll/ll_arb.c:217-291 | a run and one more step is a run |
| `Arbiter.EachDisplacementAnswered` | zmk/drivers/bluetooth/openll/ll_arb.c:130-154 | for every owner and every run the number of times it was displaced is the number of times it was called back, plus one if a callback is still due |
| `Arbiter.StepAnswers` | zmk/drivers/bluetooth/openll/ll_arb.c:168-182 | one step: a displacement makes a callback due that was not due, a callback answers one that was, nothing else moves it |
| `Arbiter.RequestDetermined` | zmk/drivers/bluetooth/openll/ll_arb.c:232-288 | outcome and slots after a request are determined by the slots before and the request |
| `Arbiter.GapRequestAccepted` | zmk/drivers/bluetooth/openll/ll_arb.c:333-352 | a request without lead placed in a gap is accepted and displaces nobody |
| `Arbiter.OthersKeptOrDisplaced` | zmk/drivers/bluetooth/openll/ll_arb.c:276-286 | a request changes another slot only by displacing it, never a running one, and never when it is refused |
| `Arbiter.GapIsUnique` | zmk/drivers/bluetooth/openll/ll_arb.c:333-352 | there is one earliest gap |
| `Arbiter.GapGrows` | zmk/drivers/bluetooth/openll/ll_arb.c:333-352 | the earliest gap of a longer span is not before that of a shorter one, so the unsigned difference at ll_adv.c:283 does not wrap |
| `EventArbiter.EventArbiter.constructor` | zmk/drivers/bluetooth/openll/ll_arb.c:199-215 | the initial state: nothing accepted, nothing pending, alarm off |
| `EventArbiter.EventArbiter.Earliest` | zmk/drivers/bluetooth/openll/ll_arb.c:64-78 | the waiting request with the earliest alarm, the lowest id among equals, or none if none waits |
| `EventArbiter.EventArbiter.Arm` | zmk/drivers/bluetooth/openll/ll_arb.c:80-91 | afterwards the alarm stands for the earliest waiting request, or is off if none waits: it is the one the state machine prescribes |
| `EventArbiter.EventArbiter.RunningOther` | zmk/drivers/bluetooth/openll/ll_arb.c:93-101 | finds another running request if and only if there is one |
| `EventArbiter.EventArbiter.ClipCap` | zmk/drivers/bluetooth/openll/ll_arb.c:103-128 | the largest length within the request's own maximum and the room before every waiting request that opens after it |
| `EventArbiter.EventArbiter.Gap` | zmk/drivers/bluetooth/openll/ll_arb.c:333-352 | the search ends, and with the earliest tick from the given one whose span meets no accepted span |
| `EventArbiter.EventArbiter.Examine` | zmk/drivers/bluetooth/openll/ll_arb.c:239-275 | the first slot that refuses the request; or none, and then exactly the colliding slots as victims: what that means is in Priorities |
| `EventArbiter.EventArbiter.Displace` | zmk/drivers/bluetooth/openll/ll_arb.c:282-286 | exactly the victims lose their requests and are marked as having yielded |
| `EventArbiter.EventArbiter.Request` | zmk/drivers/bluetooth/openll/ll_arb.c:217-291 | the slots and the pending callbacks are those of the specification, which Priorities says the meaning of; the class state stays the end of a run of it |
| `EventArbiter.EventArbiter.Yield` | zmk/drivers/bluetooth/openll/ll_arb.c:293-309 | the owner is marked as having yielded, the one that refused it as not; the refusal is used up |
| `EventArbiter.EventArbiter.Cancel` | zmk/drivers/bluetooth/openll/ll_arb.c:311-319 | an accepted request is gone, anything else is untouched, the alarm is right again |
| `EventArbiter.EventArbiter.TakePending` | zmk/drivers/bluetooth/openll/ll_arb.c:130-154 | the lowest pending id is taken, and it holds no request |
| `EventArbiter.EventArbiter.AlarmFired` | zmk/drivers/bluetooth/openll/ll_arb.c:157-197 | nothing waits; or the earliest waiting request is bumped because another runs; or it starts with its clipped length and run end |
| `EventArbiter.EventArbiter.StartEvent` | zmk/drivers/bluetooth/openll/ll_arb.c:178-196 | the request starts with the largest length that keeps the reserve before every other waiting one, and its span ends at the longer of that and the minimum |
| `EventArbiter.EventArbiter.Record` | zmk/drivers/bluetooth/openll/ll_arb.c:217-291 | the class history grows by exactly the step made |
| `Priorities.MeetsWhen` | zmk/drivers/bluetooth/openll/ll_arb.c:232-288 | two requests meet if and only if there is a tick that both want: a waiting one from its alarm to the end of what it reserves, a running one to its run end, and against that the lead of the new one does not count |
| `Priorities.AirIsReserved` | zmk/drivers/bluetooth/openll/ll_arb.c:217-291 | accepted requests that wait have the air to themselves from their open on, and before it but for an event that is running |
| `Priorities.FreeWhen` | zmk/drivers/bluetooth/openll/ll_arb.c:333-352 | a span is free if and only if no tick of it is in an accepted span |
| `Priorities.AskAgain` | zmk/drivers/bluetooth/openll/ll_arb.c:239-255 | a request can be asked again as it is, also while another event runs: it meets nobody |
| `Priorities.HigherStays` | zmk/drivers/bluetooth/openll/ll_arb.c:257-271 | whoever runs or has the higher priority stays as it is, and refuses a request that meets it |
| `Priorities.LowerGivesWay` | zmk/drivers/bluetooth/openll/ll_arb.c:256-285 | a waiting request of lower priority never refuses, and is displaced exactly when it is met and the request is accepted |
| `Priorities.EqualsDecide` | zmk/drivers/bluetooth/openll/ll_arb.c:256-285 | between equals the requester wins if and only if it gave way last and the other did not |
| `Priorities.AcceptedWhen` | zmk/drivers/bluetooth/openll/ll_arb.c:232-288 | accepted if and only if everything it meets waits and has a lower priority, or the same and was favoured last; a refused requester holds nothing |
| `Priorities.OutranksAll` | zmk/drivers/bluetooth/openll/ll_arb.c:217-319 | over whole runs: while all others ask below its priority, and its owner and the alarm leave it alone, a request is never displaced |
| `Priorities.InferiorKeeps` | zmk/drivers/bluetooth/openll/ll_arb.c:217-319 | one step of that |
| `Priorities.CapIsLargest` | zmk/drivers/bluetooth/openll/ll_arb.c:103-128 | the clipped length is the largest: one microsecond more is beyond the maximum, or nearer to another open than the reserve |
| `Priorities.RunEndIsExact` | zmk/drivers/bluetooth/openll/ll_arb.c:186-191 | a started event keeps the air for what it reserved, or for its cap and the reserve if that is longer |
| `Fairness.TwoLossesSpend` | zmk/drivers/bluetooth/openll/ll_arb.c:256-285 | round robin for any number of requesters: in any run in which two requesters meet in ties, between two losses of the one to the other some step spent what the winner owed: the loser displaced somebody, somebody gave up an event the loser refused, or the winner lost to anybody |
| `Fairness.OwedUnlessSpent` | zmk/drivers/bluetooth/openll/ll_arb.c:256-309 | one step: what is owed is gone if and only if the step spends it, whatever the others do, and until then there is no loss |
| `Fairness.OwedLasts` | zmk/drivers/bluetooth/openll/ll_arb.c:256-309 | the same over runs: owed throughout if and only if never spent |
| `Fairness.StepByStep` | zmk/drivers/bluetooth/openll/ll_arb.c:256-309 | from steps to runs |
| `Fairness.RequestUnlessSpent` | zmk/drivers/bluetooth/openll/ll_arb.c:256-285 | a request of anybody |
| `Fairness.LosingIsOwed` | zmk/drivers/bluetooth/openll/ll_arb.c:282-309 | after any loss the loser is marked, the winner is not, and no refusal by it is left over |
| `Fairness.NeverTwiceInARow` | zmk/drivers/bluetooth/openll/ll_arb.c:256-285 | so of two that meet only each other, and yield only what the other refused, neither loses twice in a row to the other, in either order |
| `Fairness.AloneSpendsByLosing` | zmk/drivers/bluetooth/openll/ll_arb.c:256-309 | for those two the only step that spends is a loss of the other |
| `Fairness.TieDecided` | zmk/drivers/bluetooth/openll/ll_arb.c:256-271 | why the flags decide: at equal priority a request is refused if and only if the other runs or the requester is not favoured |
| `Fairness.EqualsMeetInTies` | zmk/drivers/bluetooth/openll/ll_arb.c:256-264 | two that always ask at one priority meet in ties, but for a request against a running event |
| `Fairness.RunKeepsRefusals` | zmk/drivers/bluetooth/openll/ll_arb.c:276-281 | an accepted request never carries an old refusal, and nobody refuses itself |
| `Fairness.StepKeepsRefusals` | zmk/drivers/bluetooth/openll/ll_arb.c:217-309 | the same for one step |
| `Fairness.OverrunTie` | zmk/drivers/bluetooth/openll/ll_arb.c:172-182 | a loss at the alarm marks only the loser: it wins the next tie if and only if the winner had not yielded before |
| `Fairness.ThirdRequesterBreaksIt` | zmk/drivers/bluetooth/openll/ll_arb.c:256-285 | an instance of spending: a run from a safe state in which 0 loses twice in a row to 1 after displacing 2 |
| `Fairness.ThreeRun` | zmk/drivers/bluetooth/openll/ll_arb.c:256-309 | that run is one of the arbiter |
| `Controller.Controller.AnyRun` | zmk/drivers/bluetooth/openll/ll_adv.c:300-462 | advertising never goes silent: after any sequence of enables, disables, parameters, alarms, radio events and link activity, an enabled advertiser is on air or holds an accepted placement: inside an event one channel within the PDU spacing, else not before its event tick; with the higher priority when it starves unless it is the last resort; what it has sent and will send fills the span reserved, unless its fields are stale; a disabled one holds nothing; and the arbiter is safe |
| `Controller.Controller.EventEnds` | zmk/drivers/bluetooth/openll/ll_adv.c:377-405 | an event in progress ends, whatever links and alarms do in between: it is over after as many ordinary radio events as there are channels |
| `Controller.Controller.EventStep` | zmk/drivers/bluetooth/openll/ll_adv.c:611-661 | each of them leaves fewer channels ahead, or ends the event |
| `Controller.Controller.constructor` | zmk/drivers/bluetooth/openll/ll_adv.c:190-202 | the initial state: disabled, nothing placed, the default parameters with all channels |
| `Controller.Controller.DispatchBumps` | zmk/drivers/bluetooth/openll/ll_arb.c:130-154 | the loop ends with nothing pending for every finite number of link re-plans; called while it runs it changes nothing; an advertiser that was not called back still holds its request |
| `Controller.Controller.CallNext` | zmk/drivers/bluetooth/openll/ll_arb.c:139-152 | the owner with the lowest id is called back, and nobody else, never inside another callback; each brings the loop closer to its end |
| `Controller.Controller.CallAdv` | zmk/drivers/bluetooth/openll/ll_arb.c:146-152 | advertising is called back once, at depth one, and nothing but it holds its place afterwards; no pending callback gets lost |
| `Controller.Controller.CallLink` | zmk/drivers/bluetooth/openll/ll_arb.c:146-152 | the link is called back once, at depth one, and advertising keeps what it holds unless it is displaced and due itself |
| `Controller.Controller.LinkBumped` | zmk/drivers/bluetooth/openll/ll_arb.c:130-138 | a displaced link asks for other events within its budget; each try costs budget, and no pending callback gets lost |
| `Controller.Controller.LinkTries` | zmk/drivers/bluetooth/openll/ll_arb.c:130-138 | one try costs one of the budget; a refused link may give up, and no pending callback gets lost |
| `Controller.Controller.LinkRequest` | zmk/drivers/bluetooth/openll/ll_arb.c:217-291 | a request of a link at any time keeps advertising live; inside a dispatch it only adds pending callbacks |
| `Controller.Controller.LinkYield` | zmk/drivers/bluetooth/openll/ll_arb.c:293-309 | a yield of a link moves no request |
| `Controller.Controller.FirstPrio` | zmk/drivers/bluetooth/openll/ll_adv.c:230-238 | the priority at this tick: the higher one if and only if two events in a row were dropped or cut, or the last full event is longer ago than two intervals with their delays, by an age that wraps after 2^32 ticks |
| `Controller.Controller.AdvRequest` | zmk/drivers/bluetooth/openll/ll_adv.c:240-257 | accepted if and only if nobody refuses; a refused one holds nothing and touches no other slot; one in a gap touches no other slot either, is always accepted and held; the two fields written last describe the placement whenever the request displaces nobody or is made inside a dispatch |
| `Controller.Controller.Granted` | zmk/drivers/bluetooth/openll/ll_adv.c:250-255 | an accepted request calls its victims back before it writes the two fields: they can be stale only if it had victims and was not made inside a dispatch |
| `Controller.Controller.AdvanceEvent` | zmk/drivers/bluetooth/openll/ll_adv.c:259-262 | the next event is an interval later and at most 10 ms more |
| `Controller.Controller.PlaceFirst` | zmk/drivers/bluetooth/openll/ll_adv.c:264-296 | exactly where the event goes, and with which priority: planned afresh the whole of it, or else its first channel, at its tick if the arbiter accepts that, and otherwise where the earliest gaps say; nothing only when no tick of the interval has room for a channel; a starving advertiser that plans afresh is placed at once under links that are not on air and ask below its priority; after a bump nobody is displaced |
| `Controller.Controller.PlaceAtOnce` | zmk/drivers/bluetooth/openll/ll_adv.c:277-282 | the whole event if that is accepted at the event tick, its first channel if only that is, otherwise nothing |
| `Controller.Controller.PlaceInGap` | zmk/drivers/bluetooth/openll/ll_adv.c:283-295 | exactly which placement: the whole event in its first gap if that comes before the next interval and at most 10 ms after the first gap for a channel, else one channel in that, else none; nobody is displaced |
| `Controller.Controller.Place` | zmk/drivers/bluetooth/openll/ll_adv.c:264-296 | the two of them: at the tick if that is allowed and accepted, else by the gaps between what the others hold |
| `Controller.Controller.TakeGap` | zmk/drivers/bluetooth/openll/ll_adv.c:284-294 | a request in a gap is always accepted and displaces nobody |
| `Controller.RefusedGoesByGaps` | zmk/drivers/bluetooth/openll/ll_adv.c:276-283 | a refused advertiser looks at the gaps it would have found without asking |
| `Controller.Controller.DropEvent` | zmk/drivers/bluetooth/openll/ll_adv.c:306-313 | a dropped event counts toward starvation (up to 255), is a yield of advertising, and the next one is an interval and at most 10 ms later |
| `Controller.Controller.LastResort` | zmk/drivers/bluetooth/openll/ll_adv.c:315-330 | one channel in the earliest gap, never refused, so the branch that disables advertising is dead; nobody is displaced |
| `Controller.Controller.PlanEvent` | zmk/drivers/bluetooth/openll/ll_adv.c:298-331 | always ends with a placement, at the first try exactly where the event goes by its tick and the gaps, and later only when there is no room in its interval; under links that are not on air and ask below the priority of a starving advertiser, no more events are dropped in a row than it takes to starve (two, with those dropped before), plus one after a bump; with the air free the whole event is placed at its tick; after a bump nobody is displaced when the interval has room |
| `Controller.Controller.EndEvent` | zmk/drivers/bluetooth/openll/ll_adv.c:338-340 | the event is over and holds nothing |
| `Controller.Controller.NextTick` | zmk/drivers/bluetooth/openll/ll_adv.c:343-348 | the next event tick is an interval after the last one at least, at most 10 ms more unless that is past, and not in the past |
| `Controller.Controller.ScheduleNextEvent` | zmk/drivers/bluetooth/openll/ll_adv.c:333-350 | the same, with the event placed: events are at least an interval apart and none starts before its tick; with nobody else on the air the whole event is at its tick, at most 10 ms late |
| `Controller.Controller.PlaceNextChannel` | zmk/drivers/bluetooth/openll/ll_adv.c:352-375 | the event goes on, displacing nobody, in the first gap and with the priority of that moment, if and only if that gap keeps the PDU spacing; otherwise it counts as cut and the next one is placed |
| `Controller.Controller.NextGap` | zmk/drivers/bluetooth/openll/ll_adv.c:355-362 | the first gap for a channel once the channel before has given the air back |
| `Controller.Controller.CutShort` | zmk/drivers/bluetooth/openll/ll_adv.c:369-374 | an event that ends early counts toward starvation, by one |
| `Controller.Controller.ArbBumped` | zmk/drivers/bluetooth/openll/ll_adv.c:450-462 | a displaced advertiser is placed again, inside the callback: a channel in the first gap from its last placement on, a new event where nobody is displaced if its interval has room |
| `Controller.Controller.NextChannel` | zmk/drivers/bluetooth/openll/ll_adv.c:377-405 | the next enabled channel, at once if one is left of those asked for; advertising counts as served when all channels were sent and only then; an event that ends before counts as cut; unless the fields of the request were stale no more goes out than was reserved |
| `Controller.Controller.SendOrPlace` | zmk/drivers/bluetooth/openll/ll_adv.c:383-397 | the next channel goes out at once if and only if one is left of those asked for, otherwise it is placed in the first gap from a lead after now on |
| `Controller.Controller.AllSent` | zmk/drivers/bluetooth/openll/ll_adv.c:401-405 | served now, and the next event is placed; with nobody else on the air no drop is counted any more |
| `Controller.Controller.ArbStart` | zmk/drivers/bluetooth/openll/ll_adv.c:407-448 | on air unless disabled or flash is busy, on the lowest enabled channel for a new event; unless the fields are stale it will send exactly as many channels as were reserved; a continuation whose callback runs within the slack starts at most 10 ms after the PDU before (section 4.4.2.3 of Bluetooth Core Specification Vol 6 Part B) |
| `Controller.Controller.TxCurrent` | zmk/drivers/bluetooth/openll/ll_adv.c:211-218 | on air, with the time of the PDU on record |
| `Controller.Controller.SetParams` | zmk/drivers/bluetooth/openll/ll_adv.c:539-561 | the three refusals and their conditions; a refusal changes nothing |
| `Controller.Controller.Enable` | zmk/drivers/bluetooth/openll/ll_adv.c:483-524 | the three results and their conditions; enabled afterwards exactly as asked unless refused, and then live; with nobody else on the air the whole first event is placed a start lead from now; nothing changes when it is on or off already; the mark that links used the radio goes when none is left |
| `Controller.Controller.TurnOn` | zmk/drivers/bluetooth/openll/ll_adv.c:507-513 | the first event is placed a start lead away, the whole of it exactly then when nobody else is on the air |
| `Controller.Controller.Begin` | zmk/drivers/bluetooth/openll/ll_adv.c:507-512 | enabled, with nothing counted against it, and the first event a start lead from now |
| `Controller.Controller.AlarmFired` | zmk/drivers/bluetooth/openll/ll_arb.c:157-197 | the alarm never silences advertising, whoever it was for; its own alarm puts it on air unless a flash operation is active, on the lowest channel for a new event |
| `Controller.Controller.RadioEvt` | zmk/drivers/bluetooth/openll/ll_adv.c:611-661 | progress: an ordinary radio event brings the next enabled channel, or ends the event, which then counts as served if all channels went out; a scan request that is answered leaves channel and event alone; advertising stops on a connection that was accepted and on nothing else; a refused one goes on with the next event |
| `Controller.Controller.Connecting` | zmk/drivers/bluetooth/openll/ll_adv.c:631-658 | a connection request ends the event, and advertising exactly if it is accepted, whatever the new link does to the schedule |
| `Controller.Controller.LinkActs` | zmk/drivers/bluetooth/openll/ll_arb.c:217-319 | any number of link requests, yields and cancels keep advertising live, on its channel unless its event ends |
| `Controller.ChannelCount` | zmk/drivers/bluetooth/openll/ll_adv.c:204-209 | valid parameters have one to three channels |
| `Controller.ParamsMean` | zmk/drivers/bluetooth/openll/ll_adv.c:539-561 | which parameters are in range and which are valid, in times and types; which types can be scanned or connected to |
| `Controller.PriorityMeans` | zmk/drivers/bluetooth/openll/ll_adv.c:230-238 | the higher priority after two drops in a row, and when the last full event is more than two intervals and 20 ms ago, by an age that starts over after 2^32 ticks |
| `Controller.GapsMean` | zmk/drivers/bluetooth/openll/ll_adv.c:282-295 | in terms of free ticks: the whole event goes where it fits first, if no channel fitted more than 10 ms earlier; one channel where it fits first, if the whole event does not fit within 10 ms; nothing if no channel fits in the interval |
| `Controller.SpacingMeans` | zmk/drivers/bluetooth/openll/ll_adv.c:364-366 | a callback at the end of its slack still starts the PDU within 10 ms of the one before |
| `Controller.NextOrNone` | zmk/drivers/bluetooth/openll/ll_adv.c:387-400 | there is a next channel unless none comes after, and none lies between |
| `Staleness.FieldsCanBeWrong` | zmk/drivers/bluetooth/openll/ll_adv.c:240-257 | some behaviour of the links in the dispatch makes the two fields wrong if and only if the accepted request has a victim |
| `Staleness.LinksCanDoIt` | zmk/drivers/bluetooth/openll/ll_adv.c:250-255 | with any victim: it takes the span at the next priority, all are called back, and advertising is placed in the first gap elsewhere |
| `Staleness.VictimComesBack` | zmk/drivers/bluetooth/openll/ll_arb.c:239-288 | a victim that asks for the same span at the next priority is accepted and displaces the requester and nobody else |
| `Staleness.PlaceAgain` | zmk/drivers/bluetooth/openll/ll_adv.c:450-462 | advertising, called back last, finds a gap, and not where it asked before |
| `Staleness.NothingDue` | zmk/drivers/bluetooth/openll/ll_arb.c:130-154 | without a victim the dispatch is over at once |
| `Staleness.BeginsWithCallBack` | zmk/drivers/bluetooth/openll/ll_arb.c:130-154 | a dispatch begins with a callback |
| `Staleness.Drain` | zmk/drivers/bluetooth/openll/ll_arb.c:139-152 | a dispatch in which nobody asks again ends, lowest id first and advertising last |
| `Staleness.Extend` | zmk/drivers/bluetooth/openll/ll_arb.c:139-152 | one more allowed step |
| `Staleness.GapExists` | zmk/drivers/bluetooth/openll/ll_arb.c:333-352 | there is always an earliest gap |
| `Staleness.CallerIsToldMore` | zmk/drivers/bluetooth/openll/ll_adv.c:250-255 | also the number of channels can be wrong: a run with three links at 7.5 ms in which the caller was granted three channels and the arbiter holds one, because no gap for three comes within the wait for it |
| `Staleness.StaysARun` | zmk/drivers/bluetooth/openll/ll_adv.c:250-255 | that run is one of the arbiter, callbacks included |
| `Upload.UploadImage` | reverse/tools/rainy75_dfu.py:236-292 | for every finite number of losses, refusals and early timeouts the upload ends; done means the keyboard holds the image; it always holds a prefix of it or was not reached; giving up takes more faults than the allowed silences; without faults it is done, also when requests and replies of an earlier upload are on their way, as long as what is answered late says at most the first chunk and less than the image |
| `LateReplies.WorksIff` | reverse/tools/rainy75_dfu.py:236-292 | a fault-free upload ends with the image on the keyboard in every interleaving if and only if every late answer of an earlier upload says at most the first chunk and less than the image and none is a refusal, whatever the keyboard holds; for fresh sequence numbers and an image that is not already there |
| `LateReplies.HarmlessWork` | reverse/tools/rainy75_dfu.py:236-292 | one direction: then no run goes on for ever, and the last state of every run that cannot go on has the image |
| `LateReplies.HeldUp` | reverse/tools/rainy75_dfu.py:236-292 | a furthest late answer beyond the first chunk and short of the end: no run ever ends the upload, and one goes on for ever |
| `LateReplies.EndsTooSoon` | reverse/tools/rainy75_dfu.py:273-278 | a late refusal, or a late answer from the end of the image on: a run that ends with the image not on the keyboard |
| `LateReplies.ReplyTooFar` | reverse/tools/rainy75_dfu.py:236-292 | for instance four bytes in single-byte chunks with a late answer 2 |
| `LateReplies.BehindStays` | reverse/tools/rainy75_dfu.py:250-287 | a client that takes the keyboard to be further than it is, with no chunk the keyboard would take on its way, stays so in every send, handling, reply and timeout |
| `LateReplies.MishapsDoNotHelp` | reverse/tools/rainy75_dfu.py:262-287 | and in every loss, refusal and early timeout |
| `LateReplies.LossAfterLateReply` | reverse/tools/rainy75_dfu.py:236-292 | with a loss even a harmless late answer brings the client there, because it takes the lost first chunk for confirmed |
| `LateReplies.HeldStays` | reverse/tools/rainy75_dfu.py:250-287 | without faults it does not even time out, so it never gives up |
| `LateReplies.MisledReceive` | reverse/tools/rainy75_dfu.py:273-281 | a late answer changes nothing but the confirmed offset while the client waits for its first chunk |
| `LateReplies.MisledGoesOn` | reverse/tools/rainy75_dfu.py:273-287 | with the answer to its first chunk the client goes on from where the furthest late answer said |
| `LateReplies.HandleSome` | reverse/tools/rainy75_dfu.py:237-241 | the keyboard may handle any number of requests in a row |
| `LateReplies.ReceiveSome` | reverse/tools/rainy75_dfu.py:273-281 | the first refusal, or answer from the end of the image on, ends the upload whatever the keyboard holds |
| `LateReplies.NextWell` | reverse/tools/rainy75_dfu.py:236-292 | with harmless late answers every step keeps client, channels and keyboard consistent and lowers a rank |
| `LateReplies.ReceiveTakes` | reverse/tools/rainy75_dfu.py:272-287 | the state machine takes a reply exactly as the client does |
| `LateReplies.GivesUpAtSix` | reverse/tools/rainy75_dfu.py:264-277 | the sixth silence in a row gives up; until then the client begins again at what is confirmed, and a reply ends the count |
| `LateReplies.NumbersFollow` | reverse/tools/rainy75_dfu.py:243-262 | chunks sent one after the other have sequence numbers and offsets one after the other |
| `LateReplies.NotForEver` | reverse/tools/rainy75_dfu.py:250-287 | so there is no run without end |
| `LateReplies.NeverInVain` | reverse/tools/rainy75_dfu.py:251-264 | a client that waits has something to wait for |
| `LateReplies.SendWell` | reverse/tools/rainy75_dfu.py:251-261 | sending keeps everything consistent |
| `LateReplies.ReceiveWell` | reverse/tools/rainy75_dfu.py:272-287 | so does a reply, and without progress the client is about to resend or has not moved |
| `LateReplies.HandleWell` | reverse/tools/rainy75_dfu.py:237-241 | so does handling a request, which lowers the rank |
| `Upload.Client.constructor` | reverse/tools/rainy75_dfu.py:242-249 | nothing confirmed, nothing in flight; everything to come is late |
| `Upload.Client.FillWindow` | reverse/tools/rainy75_dfu.py:250-261 | the window is full or the image ends, never more is in flight than allowed, no answer to come is lost, and the client never waits with nothing in flight |
| `Upload.Client.SendNext` | reverse/tools/rainy75_dfu.py:252-261 | one more chunk in flight under the next sequence number, with its answer to come |
| `Upload.Client.SendChunk` | reverse/tools/rainy75_dfu.py:253-259 | a chunk sent takes no answer to come away, and its own is to come |
| `Upload.Client.PutInFlight` | reverse/tools/rainy75_dfu.py:260-261 | the chunk sent is in flight and the next offset is its end |
| `Upload.Client.Take` | reverse/tools/rainy75_dfu.py:272-287 | what one reply does to confirmed offset, next offset and window, for matching, short and outdated replies |
| `Upload.Client.HandleReply` | reverse/tools/rainy75_dfu.py:272-287 | confirmed is the maximum of what was reported; without progress the client is about to resend from there, or has not moved |
| `Upload.Client.TimedOut` | reverse/tools/rainy75_dfu.py:265-271 | the sixth silence in a row gives up and no earlier one does; otherwise all is sent again |
| `Upload.Client.Hear` | reverse/tools/rainy75_dfu.py:262-264 | what arrives is what the keyboard answered, in order, late answers first; without a fault the wait never ends while progress is still to come |
| `Upload.Client.Listen` | reverse/tools/rainy75_dfu.py:262-271 | so a reply says where the keyboard is in this upload, or something harmless about an earlier one, and never answers a chunk in flight then |
| `Upload.Client.WaitOnce` | reverse/tools/rainy75_dfu.py:262-287 | without a fault each wait confirms more or brings the next progress closer |
| `Upload.Client.Round` | reverse/tools/rainy75_dfu.py:250-287 | each round spends a fault, confirms more, or decreases the measure of what is left |
| `Upload.Client.Rounds` | reverse/tools/rainy75_dfu.py:250-287 | the loop ends for every finite number of faults, with everything confirmed or one of the two failures |
| `Upload.Keyboard.Handle` | reverse/tools/rainy75_dfu.py:237-241 | an offset 0 starts over, the expected offset appends, any other is skipped; the answer is the offset reached |
| `Upload.Keyboard.Send` | reverse/tools/rainy75_dfu.py:218-230 | a request joins the end of the queue and its answer the end of those to come |
| `Upload.Keyboard.Receive` | reverse/tools/rainy75_dfu.py:262-264 | answers come in order |
| `Upload.Keyboard.HandleOne` | reverse/tools/rainy75_dfu.py:237-241 | handling keeps the channels in order and moves no answer |
| `Upload.Keyboard.TakeOne` | reverse/tools/rainy75_dfu.py:262-264 | receiving does, and says what an answer of this upload or a late one can be |
| `Upload.Keyboard.Await` | reverse/tools/rainy75_dfu.py:262-271 | any interleaving of handling, losses, refusals and early timeouts keeps the channels in order; without a fault nothing of what is to come is lost |
| `Upload.Keyboard.Fault` | reverse/tools/rainy75_dfu.py:262-271 | a loss, a refusal or an early timeout keeps the channels in order |
| `Upload.HandleKeeps` | reverse/tools/rainy75_dfu.py:237-241 | handling a request keeps the content a prefix of the image and beyond every confirmation |
| `Upload.HandleOwn` | reverse/tools/rainy75_dfu.py:237-241 | the same with late answers still to arrive |
| `Upload.HandleLate` | reverse/tools/rainy75_dfu.py:237-241 | handling a request of an earlier upload touches nothing of this one |
| `Upload.LosingKeeps` | reverse/tools/rainy75_dfu.py:237-241 | losing any request or reply keeps the channels in order |
| `Upload.LosingCarries` | reverse/tools/rainy75_dfu.py:237-241 | the same with the record of late answers, of which there are none when something can get lost |
| `Upload.SendKeeps` | reverse/tools/rainy75_dfu.py:252-261 | so does sending the next chunk |
| `Upload.SendCarries` | reverse/tools/rainy75_dfu.py:252-261 | also behind requests of an earlier upload |
| `Upload.AckKeeps` | reverse/tools/rainy75_dfu.py:277-278 | so does raising the confirmed offset to what a reply of this upload or a harmless late one reports |
| `Upload.AckCarries` | reverse/tools/rainy75_dfu.py:277-278 | the same with late answers still to arrive |
| `Upload.ReceiveCarries` | reverse/tools/rainy75_dfu.py:263-264 | so does receiving; an answer of this upload says where the keyboard was, a late one is harmless |
| `Upload.NeverBehind` | reverse/tools/rainy75_dfu.py:237-241 | once it has handled everything on its way the keyboard is not behind what the client was told, also across re-sent first chunks and requests of an earlier upload |
| `Upload.SendAdvances` | reverse/tools/rainy75_dfu.py:252-261 | so a chunk sent from the confirmed offset will take the keyboard further |
| `Upload.AfterAllSplits` | reverse/tools/rainy75_dfu.py:237-241 | handling requests in two portions comes to the same offset |
| `Upload.SendingKeepsWindow` | reverse/tools/rainy75_dfu.py:252-261 | the next offset stays within the confirmed offset and what is in flight |
| `Upload.TakingKeepsWindow` | reverse/tools/rainy75_dfu.py:272-287 | a reply keeps that, and without progress the client stands at the confirmed offset with nothing in flight or where it was |
| `Upload.SendingHelps` | reverse/tools/rainy75_dfu.py:252-261 | an answer with progress is still to come after a chunk more, and a chunk from the confirmed offset brings one |
| `Upload.AnswersAppend` | reverse/tools/rainy75_dfu.py:237-241 | one more request adds one answer at the end |
| `Upload.HandlingAnswers` | reverse/tools/rainy75_dfu.py:237-241 | handling a request moves its answer from expected to arriving and changes none |
| `Upload.ReceivingAnswers` | reverse/tools/rainy75_dfu.py:262-264 | receiving takes the first answer and no other |
| `Upload.FirstArrives` | reverse/tools/rainy75_dfu.py:272-287 | the first answer away, every other chunk in flight is still answered, and without progress the next one is one nearer |
| `Upload.GoalOfTail` | reverse/tools/rainy75_dfu.py:272-287 | an answer without progress brings the next progress one nearer |
| `Upload.GoalOfPrefix` | reverse/tools/rainy75_dfu.py:252-261 | later answers do not move the next progress away |
| `Flash.RestoresStaged` | zmk/src/flash_mgmt.c:141-174 | the trampoline reproduces the staged bytes if and only if those below the next sector boundary are 0xFF |
| `Flash.AlignmentMatters` | zmk/src/flash_mgmt.c:363-378 | so the commit handler, which does not check it, is right for every flash content if and only if the staging offset is sector aligned |
| `Flash.FilledRestores` | zmk/src/flash_mgmt.c:141-174 | one direction of that, byte by byte |
| `Flash.ProtectedStays` | zmk/src/flash_mgmt.c:141-174 | no commit that is allowed changes a byte from 0xFE000 up |
| `Flash.ErasableRanges` | zmk/src/flash_mgmt.c:222-233 | an erase is accepted if and only if it is of whole sectors below the protected region |
| `Flash.CommittableRanges` | zmk/src/flash_mgmt.c:363-378 | a commit is accepted if and only if something is staged below the protected region, and none of it in a sector that the image goes to |
| `Flash.PhasesMakeRestored` | zmk/src/flash_mgmt.c:141-174 | the three loops one after the other make the flash that is specified in one piece |
| `Flash.Chip.Trampoline` | zmk/src/flash_mgmt.c:111-186 | the loops in place on the flash array do that |
| `Flash.Chip.EraseFrom` | zmk/src/flash_mgmt.c:143-145 | an erase loop from any offset erases whole sectors, from the one that holds the offset |
| `Flash.Chip.CopyDown` | zmk/src/flash_mgmt.c:156-165 | the page-wise copy through the buffer equals the staged bytes below the length and leaves the rest |
| `Flash.Chip.EraseSector` | zmk/src/flash_mgmt.c:143-145 | one whole sector becomes 0xFF |
| `Flash.Chip.ProgramPage` | zmk/src/flash_mgmt.c:156-165 | programming only clears bits, and only those of the page part |
| `Flash.Chip.DriverErase` | zmk/src/flash_mgmt.c:233-240 | an unreliable driver changes at most the sector it was asked for |
| `Flash.Chip.DriverProgram` | zmk/src/flash_mgmt.c:281-284 | an unreliable driver changes at most the bytes it was asked for |
| `Flash.Chip.Erase` | zmk/src/flash_mgmt.c:203-249 | the two refusals and their codes with nothing changed; otherwise success exactly when no call of the driver failed; nothing outside the range and nothing protected changes even when the driver fails midway; a reliable driver erases exactly the range |
| `Flash.Chip.Write` | zmk/src/flash_mgmt.c:251-288 | the same for a write |
| `Flash.Chip.Read` | zmk/src/flash_mgmt.c:290-330 | a successful read returns exactly the bytes, only below the protected region; it succeeds exactly when it may and the driver did not fail |
| `Flash.Chip.Commit` | zmk/src/flash_mgmt.c:346-397 | accepted if and only if non-empty, below the protected region and clear of the target; then, and only then, scheduled with these parameters |
| `Flash.Chip.constructor` | zmk/src/flash_mgmt.c:100-101 | nothing scheduled |
| `Restore.RestoreAndReset` | reverse/tools/restore_original.py:500-595 | end to end: after a restore that reported success, and was verified or had reliable flash, the flash starts with the image, is erased up to 0x80000, and is unchanged from 0xFE000; with reliable flash it succeeds if and only if the image is non-empty and fits |
| `Restore.RestoreFirmware` | reverse/tools/restore_original.py:500-595 | success if and only if the image is not empty and fits, no command failed, and, when asked to verify, the image is staged; then it is committed with these parameters; nothing protected was touched on any path |
| `Restore.AcceptedPassesTheDevice` | reverse/tools/restore_original.py:511-524 | every image the host accepts is staged at one sector-aligned offset and passes every check of the keyboard |
| `Restore.HostAcceptsWhat` | reverse/tools/restore_original.py:521-524 | the host accepts an image if and only if it is at most 0x7E000 bytes long |
| `Restore.FlashErase` | reverse/tools/restore_original.py:392-405 | an erase repeated after a lost reply does what one erase does |
| `Restore.FlashWrite` | reverse/tools/restore_original.py:407-414 | a write repeated after a lost reply does what one write does |
| `Restore.ErasedTwice` | reverse/tools/restore_original.py:392-405 | erasing is idempotent |
| `Restore.ProgrammedTwice` | reverse/tools/restore_original.py:407-414 | programming the same bytes is idempotent |
| `Restore.WriteStaging` | reverse/tools/restore_original.py:540-557 | it goes on to the end if and only if no write failed; chunk by chunk the staging area holds the image, on reliable flash |
| `Restore.ProgrammingFills` | reverse/tools/restore_original.py:540-557 | one more chunk into erased flash extends what is staged |
| `Restore.VerifyStaging` | reverse/tools/restore_original.py:559-582 | it passes if and only if no read failed and the staged bytes are the image, whatever the flash did |
| `Restore.SameChunk` | reverse/tools/restore_original.py:562-577 | one chunk of that |
| `Restore.StagedCopyStays` | zmk/src/flash_mgmt.c:167-174 | for every host restore the cleanup phase erases nothing, contrary to its comment: the staged copy is still there |
| `Registry.Registry.AnyRun` | zmk/src/config/cfg_registry.c:204-377 | after any sequence of inits, sets, resets, loads and takes, every value that lives in the registry passes its own checks unchanged, and its owner was told exactly it |
| `Registry.Registry.constructor` | zmk/src/config/cfg_registry.c:19-35 | an empty table |
| `Registry.Registry.Init` | zmk/src/config/cfg_registry.c:204-252 | accepted if and only if the table is valid; refused, nothing changes, the arrays included; accepted, all that lives here is at its default and nobody else's value moved |
| `Registry.Registry.Take` | zmk/src/config/cfg_registry.c:227-251 | the accepting part of that |
| `Registry.Registry.Adopt` | zmk/src/config/cfg_registry.c:227-238 | the table is taken and every list has a slot of its own |
| `Registry.Registry.AssignSlots` | zmk/src/config/cfg_registry.c:234-238 | distinct list settings get distinct slots |
| `Registry.Registry.PutDefaults` | zmk/src/config/cfg_registry.c:239-247 | every setting that lives here is at its default, no other is touched |
| `Registry.Registry.PutDefault` | zmk/src/config/cfg_registry.c:239-247 | one setting is at its default, no other is touched |
| `Registry.Registry.NotifyAll` | zmk/src/config/cfg_registry.c:248-250 | every owner was told the value its setting has |
| `Registry.Registry.Put` | zmk/src/config/cfg_registry.c:146-163 | exactly this setting changes: no other setting, no shared slot |
| `Registry.Registry.Tell` | zmk/src/config/cfg_registry.c:197-202 | an owner of a setting that lives here reads the current value; nobody else is told |
| `Registry.Registry.Notify` | zmk/src/config/cfg_registry.c:197-202 | with it every owner is up to date |
| `Registry.Registry.Get` | zmk/src/config/cfg_registry.c:254-272 | the current value, or zero for an unknown index |
| `Registry.Registry.Set` | zmk/src/config/cfg_registry.c:281-305 | the result code and, on success, the normal form in this setting only, one more revision, and the dirty bit unless it is proxied; a refusal changes nothing at all |
| `Registry.Registry.Apply` | zmk/src/config/cfg_registry.c:295-300 | the steps of an accepted set in their order |
| `Registry.Registry.Change` | zmk/src/config/cfg_registry.c:295 | the value is in place and everything else as it was |
| `Registry.Registry.Publish` | zmk/src/config/cfg_registry.c:296-298 | revision and dirty bit |
| `Registry.Registry.Reset` | zmk/src/config/cfg_registry.c:307-315 | never refused for the value: the default is in place, with the effects of a set |
| `Registry.Registry.Load` | zmk/src/config/cfg_registry.c:317-333 | the result code; a stored value moves neither revision nor dirty mask nor any proxied owner |
| `Registry.Registry.IsDefault` | zmk/src/config/cfg_registry.c:335-347 | true if and only if the setting exists and has its default |
| `Registry.Registry.CycleNext` | zmk/src/config/cfg_registry.c:349-367 | always one of the setting's names, by the cyclic order |
| `Registry.Registry.TakeDirty` | zmk/src/config/cfg_registry.c:373-375 | the mask is handed over and cleared |
| `Registry.Registry.MarkDirty` | zmk/src/config/cfg_registry.c:377 | the given settings are dirty again |
| `Registry.Registry.NoteChange` | zmk/src/config/cfg_registry.c:371 | one more revision |
| `Registry.Check` | zmk/src/config/cfg_registry.c:93-144 | the loop form computes the specified normal form or refusal |
| `Registry.CheckList` | zmk/src/config/cfg_registry.c:117-138 | the nested duplicate search keeps the first of equal entries |
| `Registry.CheckIsIdempotent` | zmk/src/config/cfg_registry.c:93-144 | a value that passed the checks passes them again, unchanged |
| `Registry.CheckedIsValid` | zmk/src/config/cfg_registry.c:93-144 | what a passed value satisfies, by type: range, length, no duplicates, the same entries |
| `Registry.AcceptsExactly` | zmk/src/config/cfg_registry.c:94-144 | exactly which values each type takes |
| `Registry.ValidWhen` | zmk/src/config/cfg_registry.c:166-195 | exactly which definitions a table may have |
| `Registry.TableWhen` | zmk/src/config/cfg_registry.c:204-252 | exactly which tables are valid: at most 32 valid settings with different keys, and a slot for each list |
| `Registry.ListsAreCounted` | zmk/src/config/cfg_registry.c:204-252 | the lists among the first settings are counted |
| `Registry.RefusedWhen` | zmk/src/config/cfg_registry.c:281-333 | which error a set or a load gets, and when it gets none |
| `Registry.DefaultIs` | zmk/src/config/cfg_registry.c:74-91 | the default of a list is all its names in order, of anything else the number in the table |
| `Registry.DedupKeepsAll` | zmk/src/config/cfg_registry.c:123-136 | dropping duplicates loses and adds no entry |
| `Registry.DedupKeepsTheFirst` | zmk/src/config/cfg_registry.c:123-136 | and keeps the order of first occurrences |
| `Registry.DedupOfDistinct` | zmk/src/config/cfg_registry.c:123-136 | a list without duplicates is its own normal form |
| `Registry.Acceptable` | zmk/src/config/cfg_registry.c:208-226 | the checks of an init accept exactly the valid tables |
| `Registry.NewKey` | zmk/src/config/cfg_registry.c:215-219 | true if and only if no setting before has the key |
| `Registry.TableEntry` | zmk/src/config/cfg_registry.c:43-50 | every setting of a valid table is found by its key, at its own index |
| `Registry.FindKey` | zmk/src/config/cfg_registry.c:43-50 | the first setting with the key, none if and only if there is none |
| `Registry.NameFind` | zmk/src/config/cfg_registry.c:64-73 | the first of the findable names equal to the text, none if and only if there is none |
| `Registry.SlotsApart` | zmk/src/config/cfg_registry.c:234-238 | an earlier list setting has a lower slot |
| `Registry.DefaultIsChecked` | zmk/src/config/cfg_registry.c:193-194 | the default of a valid definition is in normal form |
| `Registry.DefaultsFit` | zmk/src/config/cfg_registry.c:239-247 | so is a whole table of defaults |
| `Registry.FitsStill` | zmk/src/config/cfg_registry.c:295 | replacing one value by a checked one keeps a fitting table fitting |
| `Registry.NextInList` | zmk/src/config/cfg_registry.c:358-366 | the loop form computes the successor, within the names |
| `Registry.StepsWalkTheList` | zmk/src/config/cfg_registry.c:349-367 | k steps from a listed entry are k places further round the list |
| `Registry.CycleVisitsAll` | zmk/src/config/cfg_registry.c:349-367 | from a listed entry every entry comes up within one round, and the round ends where it began |
| `Registry.CycleVisitsOnce` | zmk/src/config/cfg_registry.c:349-367 | and no entry comes up twice in a round |
| `Registry.AfterUnlisted` | zmk/src/config/cfg_registry.c:349-367 | from a name that is not listed, and from the last entry, the first entry is next |
| `Registry.EmptyListWalksTheNames` | zmk/src/config/cfg_registry.c:358-360 | with an empty list all names come up in order |
| `Codec.RoundTrip` | zmk/src/config/cfg_codec.c:29-125 | a value in normal form comes back from its stored form if and only if it is a number, a name that leads to its own index, a list of such names without commas, or an empty list in a table without an empty name |
| `Codec.StoredIfItFits` | zmk/src/config/cfg_codec.c:69-125 | a valid value can be stored if and only if its stored form fits (four bytes, the name, the joined names, or one byte), and takes exactly that; in the buffer of the store every number can |
| `Codec.JoinSize` | zmk/src/config/cfg_codec.c:93-121 | the joined names take their lengths and a comma between each two |
| `Codec.WellNamedIsFaithful` | zmk/src/config/cfg_codec.h:6-12 | distinct, non-empty, comma-free names meet that for every value |
| `Codec.OnlyFaithfulListsComeBack` | zmk/src/config/cfg_codec.c:49-63 | one half of that for lists, for any stored bytes |
| `Codec.EmptyListComesBack` | zmk/src/config/cfg_codec.h:7-10 | the single comma decodes to the empty list if and only if no name is empty |
| `Codec.NeverEmpty` | zmk/src/config/cfg_codec.c:69-125 | the stored form is empty, which a store takes for a deletion, if and only if the value is one empty name: cfg_codec.h:27 promises at least one byte |
| `Codec.DecodedNames` | zmk/src/config/cfg_codec.c:49-63 | whatever bytes are stored, a list decodes to exactly the known names among its parts, in order, cut at 16 |
| `Codec.MigratedNames` | zmk/src/config/cfg_codec.h:10-12 | a list of comma-free names stored under one table and decoded under any other is exactly the names both know, in order |
| `Codec.Migration` | zmk/src/config/cfg_codec.h:10-12 | and the checks accept it unchanged when its names are distinct |
| `Codec.WellNamedMigrates` | zmk/src/config/cfg_codec.h:6-12 | with well-formed names in both tables every value meets the conditions |
| `Codec.StoredNames` | zmk/src/config/cfg_codec.c:93-121 | the parts of a stored list are its names |
| `Codec.KeptIsNoLonger` | zmk/src/config/cfg_codec.c:49-63 | keeping the known names makes a list no longer and no less distinct |
| `Codec.Decode` | zmk/src/config/cfg_codec.c:29-67 | the loops compute the specified decoding, error cases included |
| `Codec.DecodeList` | zmk/src/config/cfg_codec.c:49-63 | one pass over the bytes finds the parts between the commas |
| `Codec.Encode` | zmk/src/config/cfg_codec.c:69-125 | the bytes written, their number, or the error; StoredIfItFits says when there is one |
| `Codec.EncodeList` | zmk/src/config/cfg_codec.c:93-121 | the same for a list, into the buffer in place |
| `Codec.EncodedListIsJoin` | zmk/src/config/cfg_codec.c:93-121 | a list is stored as its names joined with commas, or refused when that is longer than the buffer |
| `Codec.PiecesOfJoin` | zmk/src/config/cfg_codec.c:49-63 | splitting at commas undoes joining comma-free names |
| `Codec.IndexesOfNames` | zmk/src/config/cfg_codec.c:49-63 | looking the names up again gives the indexes back |
| `Codec.Le32RoundTrip` | zmk/src/config/cfg_codec.c:13-27 | four little-endian bytes give the number back |
| `Codec.LowByteFirst` | zmk/src/config/cfg_codec.c:13-27 | the lowest byte stands first |
| `Store.Keeper.AnyRun` | zmk/src/config/cfg_store.c:35-124 | durability: after any interleaving of sets, saves and power cuts, also in the middle of a save, a reboot would restore every setting, except those that are dirty, about to be marked dirty, or given up; and such a setting has an entry if and only if it is not at its default or the last save wrote its default; of any setting, it has an entry that holds its default if and only if the last save wrote it |
| `Store.Keeper.LateEntry` | zmk/src/config/cfg_store.c:68-86 | from any state with nothing to save, for any setting with another valid value: the run after which it is at its default and has an entry |
| `Store.Keeper.SetBack` | zmk/src/config/cfg_store.c:80-85 | its save, with a set between the look at the value and the reading of it |
| `Store.Keeper.SetTo` | zmk/src/config/cfg_registry.c:281-305 | the steps of a set and its request for a save |
| `Store.Keeper.SaveWork` | zmk/src/config/cfg_store.c:93-120 | a save with sets in between loses nothing; what failed is dirty again with a save on its way, or given up exactly when the retry counter says so; with flash that works and nobody in between, a save of values that fit fails nothing and leaves nothing dirty |
| `Store.Keeper.SaveAll` | zmk/src/config/cfg_store.c:98-110 | only what failed is left to save; nothing is when the flash works, nobody is in between and the values fit |
| `Store.Keeper.SavedForGood` | zmk/src/config/cfg_store.c:35-120 | with flash that works and nobody in between, one save of values that fit is enough: nothing stays dirty, and a reboot restores every setting |
| `Store.Keeper.SaveSome` | zmk/src/config/cfg_store.c:98-110 | after any number of settings, what failed and what is still to come is left to save |
| `Store.Keeper.Interrupted` | zmk/src/config/cfg_store.c:93-110 | a power cut after any number of settings of a save loses only what was still to be saved |
| `Store.Keeper.PowerCut` | zmk/src/config/cfg_store.c:93-110 | a power cut at any time, with a save running or not, keeps the invariant across the reboot |
| `Store.Keeper.PowerGoes` | zmk/src/config/cfg_store.c:88-91 | nothing but the entries survives a power cut |
| `Store.Keeper.HasItsEntry` | zmk/src/config/cfg_store.c:5-9 | what the invariant says of each setting, its entry included |
| `Store.Keeper.SaveIfDirty` | zmk/src/config/cfg_store.c:98-110 | one setting of the batch is saved or counted as failed |
| `Store.Keeper.SaveOne` | zmk/src/config/cfg_store.c:68-86 | whatever handler step comes between looking and writing, a saved setting is stored as it is now or is dirty again; a default loses its entry, any other value gets one that holds the value as it was read, and no other entry moves; the setting becomes an exception (a default with an entry) exactly if it was not at its default at the look and was at the reading; with flash that works and nobody in between a value that fits is saved |
| `Store.Keeper.Delete` | zmk/src/config/cfg_store.c:80-82 | deleting the entry of a default is right even when a set comes in between, and ends the exception |
| `Store.Keeper.DropEntry` | zmk/src/config/cfg_store.c:80-82 | the deletion itself, of the entry of a value that may have changed meanwhile |
| `Store.Keeper.Write` | zmk/src/config/cfg_store.c:83-85 | writing an entry is right even when a set comes in between; the entry holds the value as it was read, and the setting is an exception exactly if that was its default |
| `Store.Keeper.Snapshot` | zmk/src/config/cfg_store.c:83-84 | the value and its stored form are of one moment |
| `Store.Keeper.WriteEntry` | zmk/src/config/cfg_store.c:85 | so is the write itself, or nothing is written; it makes the setting an exception exactly if it writes the default |
| `Store.Keeper.PutEntry` | zmk/src/config/cfg_store.c:85 | writing a value that may have changed meanwhile takes its mark away, and leaves a default with an entry if and only if it is one |
| `Store.Keeper.Take` | zmk/src/config/cfg_store.c:94 | the batch takes over what was dirty, and no save is scheduled any more |
| `Store.Keeper.Conclude` | zmk/src/config/cfg_store.c:111-119 | the three outcomes of a run; without failures nothing is dirty or scheduled that was not |
| `Store.Keeper.Retry` | zmk/src/config/cfg_store.c:113-116 | what failed is dirty again and a save is scheduled |
| `Store.Keeper.GiveUp` | zmk/src/config/cfg_store.c:117-119 | only what failed and was not set again is given up |
| `Store.Keeper.Place` | zmk/src/config/cfg_registry.c:295 | a handler puts its value in place without losing another |
| `Store.Keeper.Mark` | zmk/src/config/cfg_registry.c:296-299 | the setting is marked after its value is in place, which also takes it back from the given-up |
| `Store.Keeper.Report` | zmk/src/config/cfg_registry.c:299 | the owner is told |
| `Store.Keeper.RequestSave` | zmk/src/config/cfg_store.c:122-124 | a save is on its way |
| `Store.Keeper.Preempt` | zmk/src/config/cfg_store.c:93-110 | any number of handler steps: a value that changes is a value somebody will save |
| `Store.Keeper.Step` | zmk/src/config/cfg_registry.c:281-305 | one handler step |
| `Store.Keeper.LoadEntry` | zmk/src/config/cfg_store.c:35-58 | an entry that is unknown, too long or invalid changes nothing, a good one exactly its setting |
| `Store.Keeper.LoadAll` | zmk/src/config/cfg_store.c:35-58 | in whatever order the entries come, every setting is restored from its own |
| `Store.Keeper.Restart` | zmk/src/config/cfg_store.c:35-58 | defaults first, then the entries |
| `Store.Keeper.Reboot` | zmk/src/config/cfg_store.c:35-58 | every setting that was not dirty, about to be, in the batch or given up comes back exactly as it was |
| `Store.Keeper.constructor` | zmk/src/config/cfg_store.c:5-15 | an empty store and all defaults: nothing to save |
| `Store.SavedIsRestored` | zmk/src/config/cfg_store.c:5-15 | what a save writes or deletes is what a reboot restores |
| `Store.OldDefaultStays` | zmk/src/config/cfg_store.c:7-9 | an entry that holds a default hides a later firmware's new default if and only if the two differ, for every type; without an entry the new default applies |
| `Store.OldListStays` | zmk/src/config/cfg_store.c:7-9 | for a list, whose default is all its names: if and only if the new table has a name the old one had not, or another order |
| `Store.OldValueStays` | zmk/src/config/cfg_store.c:7-9 | for the others the old value comes back |
| `Store.SavingKeeps` | zmk/src/config/cfg_store.c:68-86 | saving one setting takes away its own mark only, and uncovers no other |
| `Store.SavingMovesLate` | zmk/src/config/cfg_store.c:68-86 | after a save a setting has an entry with its default if and only if the default was written |
| `Store.MoreMarks` | zmk/src/config/cfg_store.c:5-15 | values may change where marks are added |
| `Store.LoadingKeeps` | zmk/src/config/cfg_store.c:35-58 | loading one entry restores its setting and disturbs no other |
| `Store.BootRestores` | zmk/src/config/cfg_store.c:35-58 | after all entries every covered setting is as it was |
| `Store.RetriesAreShared` | zmk/src/config/cfg_store.c:88-120 | the three retries that line 10 promises are given to a failing save if and only if the failing runs before it, of whatever setting, are a multiple of four |
| `Store.GivesUpWhen` | zmk/src/config/cfg_store.c:111-119 | after how many further failures a run gives up |
| `Store.GivenUpWithoutRetry` | zmk/src/config/cfg_store.c:88-120 | a setting that fails once and is given up without a retry |
| `Store.RetriesFollowTheStreak` | zmk/src/config/cfg_store.c:111-119 | the counter is the length of the failing streak modulo four |
| `Store.StreakGoesOn` | zmk/src/config/cfg_store.c:111-119 | failing runs lengthen the streak |
| `Cbor.FieldsRoundTrip` | reverse/tools/restore_original.py:94-103 | a map of request fields (bools, unsigned numbers, texts, byte strings, lists of texts) under distinct keys, wherever it stands and whatever follows, decodes to exactly those keys and values and to its end, with a length in front or in the indefinite form of section 3.2.2 of RFC 8949 |
| `Cbor.RoundTrip` | reverse/tools/rainy75_cfg.py:51-68 | the same for every nested bool, unsigned number, text, byte string or list |
| `Cbor.MapRoundTrip` | reverse/tools/rainy75_rgb.py:177-191 | a map decodes to its entries in both forms, the later of equal keys counting |
| `Cbor.EntriesOfDistinct` | reverse/tools/rainy75_rgb.py:177-191 | with distinct keys no entry is lost or added |
| `Cbor.HeadRoundTrip` | reverse/tools/restore_original.py:37-46 | the shortest head of an item reads back as its major type and argument |
| `Cbor.BigEndianRoundTrip` | reverse/tools/restore_original.py:106-118 | big-endian arguments read back |
| `Cbor.TextRoundTrip` | reverse/tools/restore_original.py:82-91 | a text reads back |
| `Cbor.BlobRoundTrip` | reverse/tools/restore_original.py:69-79 | a byte string reads back |
| `Cbor.IntRoundTrip` | reverse/tools/restore_original.py:37-46 | an unsigned number reads back |
| `Cbor.BoolRoundTrip` | reverse/tools/rainy75_cfg.py:53-54 | a bool reads back |
| `Cbor.NullRoundTrip` | reverse/tools/rainy75_rgb.py:190-196 | null reads back |
| `Cbor.NegativeRoundTrip` | reverse/tools/rainy75_rgb.py:156-158 | a negative number reads as -1 less its argument |
| `Cbor.CutText` | reverse/tools/rainy75_rgb.py:159-162 | a text that is cut off is what there is of it, and ends beyond the data |
| `Cbor.RefusedHeads` | reverse/tools/rainy75_rgb.py:138-197 | what the decoder refuses at the first byte: longer arguments, other indefinite forms, tags and other simple values |
| `Cbor.NumberExamples` | reverse/tools/restore_original.py:37-46 | heads of numbers as in appendix A of RFC 8949 |
| `Cbor.NegativeExamples` | reverse/tools/rainy75_rgb.py:156-158 | negative numbers as in appendix A of RFC 8949 |
| `Cbor.OtherExamples` | reverse/tools/restore_original.py:49-103 | bools, null, a text, a byte string and empty lists and maps as in appendix A of RFC 8949 |
| `Cbor.Decode` | reverse/tools/rainy75_rgb.py:138-197 | the recursive decoder with its loops computes the grammar, cut-off and malformed data included |
| `Cbor.DecodeList` | reverse/tools/rainy75_rgb.py:163-176 | lists in both forms |
| `Cbor.DecodeUntil` | reverse/tools/rainy75_rgb.py:165-169 | up to the break or the end of the data |
| `Cbor.DecodeMany` | reverse/tools/rainy75_rgb.py:170-176 | a counted list |
| `Cbor.DecodeDict` | reverse/tools/rainy75_rgb.py:177-191 | maps in both forms |
| `Cbor.DecodePairs` | reverse/tools/rainy75_rgb.py:177-191 | the pairs of a map |
| `Replies.ValueReadsBack` | zmk/src/config/cfg_mgmt.c:70-90 | the key and the value that are put into a reply read back, in both forms of lists, wherever they stand and whatever follows, and end there |
| `Replies.ItemIs` | zmk/src/config/cfg_mgmt.c:70-90 | what is read is the bool, the number, the name or the list of names that the value is |
| `Replies.ValueIsItem` | zmk/src/config/cfg_mgmt.c:70-90 | the bytes put are the key and the encoding of that item |
| `Replies.EntryReadsBack` | zmk/src/config/cfg_mgmt.c:257-270 | the entry of a setting reads back, wherever it stands and whatever follows, and ends there |
| `Replies.EntryIs` | zmk/src/config/cfg_mgmt.c:257-270 | what is read is key, type character, minimum before maximum or the names, and flags |
| `Replies.EntryIsItem` | zmk/src/config/cfg_mgmt.c:257-270 | the bytes put are the encoding of that item |
| `Replies.ReplyReads` | zmk/src/config/cfg_mgmt.c:347-370 | a client reads in a reply what it carries under its name, and where to go on |
| `Replies.GetReplyReads` | zmk/src/config/cfg_mgmt.c:321-371 | in the reply to a get it reads the answers under their keys |
| `Replies.ListReplyReads` | zmk/src/config/cfg_mgmt.c:272-302 | in the reply to a list it reads the settings in order |
| `Replies.ReplyExamples` | zmk/src/config/cfg_mgmt.c:272-371 | two replies byte by byte |
| `Replies.ReadReply` | reverse/tools/rainy75_cfg.py:134-155 | the client's reading, by the decoder |
| `Replies.GatheredConcat` | reverse/tools/rainy75_cfg.py:152 | the answers of two pages, one after the other, are those of both |
| `Paging.FetchValues` | reverse/tools/rainy75_cfg.py:144-155 | across both programs, with values changing in between: the loop ends, every setting asked for is answered once and in the order asked, and what the client reads under its key in the bytes of a reply is a value it had meanwhile; it fails only for a bad request or when a value did not fit a reply |
| `Paging.FetchedKeys` | reverse/tools/rainy75_cfg.py:144-155 | the keys of the result are exactly those asked for, or all |
| `Paging.FetchList` | reverse/tools/rainy75_cfg.py:134-141 | across both programs the client reads the list of settings complete, in order and without repeats; it gets it whenever each entry fits a reply |
| `Paging.ListPage` | zmk/src/config/cfg_mgmt.c:272-302 | one page in bytes: whole entries from the start, at least one, beyond the budget only if it is a single one, and ended only by an entry that would not fit |
| `Paging.ListPageFits` | zmk/src/config/cfg_mgmt.c:287-300 | a page of several entries has at most 360 bytes of them |
| `Paging.FlatIsSum` | zmk/src/config/cfg_mgmt.c:287-295 | what its entries are written as takes the sum of their lengths |
| `Paging.ListPageEnds` | zmk/src/config/cfg_mgmt.c:287-300 | one that is not the last ends because the estimate of the next entry passes 360 |
| `Paging.GetPage` | zmk/src/config/cfg_mgmt.c:321-371 | the same for values, and the error of a request that names too many or unknown keys |
| `Paging.GetPageMeans` | zmk/src/config/cfg_mgmt.c:304-369 | a page of several values has at most 360 bytes of them, and one that is not the last ends because the estimate of the next value passes that |
| `Paging.PageOf` | zmk/src/config/cfg_mgmt.c:284-300 | the page by its sizes |
| `Paging.FillPage` | zmk/src/config/cfg_mgmt.c:284-300 | the loop, by estimates and real lengths |
| `Paging.FillValues` | zmk/src/config/cfg_mgmt.c:347-366 | the loop over the ids, skipping repeated ones |
| `Paging.ValuesPage` | zmk/src/config/cfg_mgmt.c:347-371 | the page of values by its sizes |
| `Paging.Repeated` | zmk/src/config/cfg_mgmt.c:352-357 | true if and only if the id stands earlier in the request |
| `Paging.Resolve` | zmk/src/config/cfg_mgmt.c:336-345 | the ids asked for, or the first reason to refuse |
| `Paging.EntryEstimate` | zmk/src/config/cfg_mgmt.c:102-113 | the estimate of an entry bounds its encoding, in either list form, but for the longer heads of texts of more than 255 bytes, which are counted |
| `Paging.ValueEstimate` | zmk/src/config/cfg_mgmt.c:115-130 | the estimate of a value bounds its encoding, in either list form, with the same addition |
| `Paging.EntryIsTight` | zmk/src/config/cfg_mgmt.c:92-113 | the estimate of an entry has one byte to spare when every text and number takes the most bytes it may |
| `Paging.ValueIsTight` | zmk/src/config/cfg_mgmt.c:115-130 | that of a value has none, and four for a bool |
| `Paging.FirstOnesAreDedup` | zmk/src/config/cfg_mgmt.c:352-357 | answering first occurrences only is dropping duplicates |
| `Paging.FirstOnesConcat` | zmk/src/config/cfg_mgmt.c:347-366 | what two pages in a row answer is what one long page would |
| `Paging.Request` | reverse/tools/rainy75_cfg.py:150-155 | one request some time after the one before: what the client reads in the reply is what the page answers |
| `Paging.GatheredKeys` | reverse/tools/rainy75_cfg.py:152 | the result has exactly the keys of the answers |
| `Paging.GatheredValue` | reverse/tools/rainy75_cfg.py:152 | under each key stands what was written of its own answer |
| `Paging.FoundMeaning` | zmk/src/config/cfg_mgmt.c:336-345 | the ids asked for are those of the keys |
| `Paging.AskedWhen` | zmk/src/config/cfg_mgmt.c:337-346 | a request is good if and only if it names at most 32 keys, all of them known |
| `Paging.FoundWhen` | zmk/src/config/cfg_mgmt.c:338-345 | the keys are found if and only if all are known |
| `Paging.Device.constructor` | zmk/src/config/cfg_mgmt.c:307-319 | the keyboard and its values |
| `Paging.Device.Elapse` | zmk/src/config/cfg_mgmt.c:313 | values change between requests |
| `Base64.RoundTrip` | reverse/tools/restore_original.py:207-255 | decoding base64 (section 4 of RFC 4648) gives every byte string back |
| `Base64.PrefixEncodes` | reverse/tools/restore_original.py:216-228 | a prefix of the text that is whole quads is the encoding of a prefix of the bytes |
| `Base64.OnlyLetters` | reverse/tools/restore_original.py:216-228 | the text has only letters and padding, so no line break |
| `Base64.QuadIsNumber` | reverse/tools/restore_original.py:216-228 | four letters and the three bytes they stand for are the same number |
| `Base64.ValueIsOfLetter` | reverse/tools/restore_original.py:216-228 | nothing but the letters has a value |
| `Base64.Padding` | reverse/tools/restore_original.py:325-331 | what is missing its padding is not decoded |
| `Base64.Skipping` | reverse/tools/restore_original.py:325-331 | padding elsewhere, and anything that is no letter, is skipped |
| `Base64.TestVectors` | reverse/tools/restore_original.py:216-228 | test vectors of section 10 of RFC 4648 |
| `Checksum.CrcIsRemainder` | reverse/tools/restore_original.py:165-169 | the checksum is the remainder, and the only one, of the packet followed by sixteen zero bits when divided by x^16 + x^12 + x^5 + 1 over the two-element field |
| `Gf2.RemainderIsUnique` | reverse/tools/restore_original.py:165-169 | division over the two-element field leaves one remainder |
| `Checksum.CheckedLeavesNothing` | reverse/tools/restore_original.py:165-169 | a packet with its checksum behind it has checksum zero |
| `Checksum.OneByteCounts` | reverse/tools/restore_original.py:165-169 | packets that differ in one byte have different checksums |
| `Checksum.OfOne` | reverse/tools/restore_original.py:165-169 | the checksum of the packet of the single byte 1 is 0x1021 |
| `Checksum.Crc16` | reverse/tools/rainy75_rgb.py:200-207 | the nested loops compute that checksum |
| `Framing.ReaderFindsThePacket` | reverse/tools/restore_original.py:310-348 | for every packet of at most 65533 bytes, any log lines without a frame marker in between, and any lines before that make no packet of their own, cut-off frames included: the reader returns exactly the packet, at the last frame line and not before |
| `Framing.CutOffMakesNone` | reverse/tools/restore_original.py:310-348 | log output and the frames of a packet that was cut off make no packet |
| `Framing.StartsOver` | reverse/tools/restore_original.py:319-320 | a first frame starts over, whatever frames were there |
| `Framing.ReadsPast` | reverse/tools/restore_original.py:310-341 | lines that make no packet are read past |
| `Framing.ReadsOn` | reverse/tools/restore_original.py:310-348 | the same from any frame on |
| `Framing.CompleteAtTheEnd` | reverse/tools/restore_original.py:325-341 | no proper prefix of the frames is complete; all of them are, with the packet |
| `Framing.FramesCarry` | reverse/tools/restore_original.py:216-228 | the first frames carry the first letters |
| `Framing.FullOpens` | reverse/tools/restore_original.py:207-214 | length and checksum are found right in a whole packet |
| `Framing.DamageIsSeen` | reverse/tools/restore_original.py:233-255 | a packet that comes with one wrong byte is not taken for one |
| `Framing.FullOfOne` | reverse/tools/restore_original.py:207-214 | the bytes that go out for the packet of the single byte 1 |
| `Framing.TextOfOne` | reverse/tools/restore_original.py:213-216 | their letters |
| `Framing.FrameOfOne` | reverse/tools/restore_original.py:216-228 | and the frame they go out in |
| `Framing.Encode` | reverse/tools/restore_original.py:207-230 | refused if and only if longer than the length field allows; otherwise the frames of the packet with its checksum, which Checksum says the value of |
| `Framing.FramesAreLines` | reverse/tools/restore_original.py:216-228 | each frame is one line: its only newline ends it |
| `Framing.FrameLooks` | reverse/tools/restore_original.py:216-228 | a frame has its mark in front and at most 127 bytes; a carriage return before the newline does no harm |
| `Framing.TakesWhen` | reverse/tools/restore_original.py:319-324 | which lines are taken for frames, and what they do to those collected |
| `Framing.NothingNewAtTheEnd` | reverse/tools/restore_original.py:343-348 | the last try at the deadline finds nothing that was not found before |
| `Framing.Port.constructor` | reverse/tools/restore_original.py:262-267 | an empty receive buffer |
| `Framing.Port.ReadLine` | reverse/tools/restore_original.py:289-308 | the first line of the stream, however it arrives in pieces, with nothing lost behind it; none only if there is no newline |
| `Framing.Port.ReadResponse` | reverse/tools/restore_original.py:310-348 | the reader on the port makes of the stream what the reader makes of its lines, and consumes no line more |
| `Framing.FirstLineIsUnique` | reverse/tools/restore_original.py:289-308 | a stream splits into its first line and the rest in one way |
| `Crc.Crc16Modbus` | reverse/tools/mem_reader.py:94-100 | the table-driven checksum is the bitwise one for every byte string and length; a length beyond the data is an error |
| `Crc.Crc16Telink` | reverse/tools/ota_flasher.py:41-49 | the nested loops compute the bitwise checksum |
| `Crc.OfTwo` | reverse/tools/ota_flasher.py:41-49 | the example of the specification of MODBUS over serial lines |
| `Crc.TableIsRight` | reverse/tools/mem_reader.py:58-91 | each of the 256 entries is eight register steps of its index |
| `Crc.ByteStep` | reverse/tools/mem_reader.py:97-99 | eight bits at once: the high byte moves down and the low byte with the data takes its table entry |
| `Crc.DataFirst` | reverse/tools/ota_flasher.py:45-48 | the register is linear: the data bits may meet it at once, and then only move out |
| `Crc.HighPartMoves` | reverse/tools/ota_flasher.py:45-48 | bits that have not reached the low end only move |
| `Crc.BitsAreLinear` | reverse/tools/ota_flasher.py:45-48 | the operations on 16-bit words satisfy the laws this needs |
| `Crc.TableEntry` | reverse/tools/mem_reader.py:97-99 | one table step is eight bit steps, for every register and byte |
| `Crc.TableStep` | reverse/tools/mem_reader.py:97-99 | one step by the table is eight steps by bits |
| `Crc.EightBits` | reverse/tools/ota_flasher.py:45-48 | the inner loop |

## Left out

- Ticks modulo 2^32 in the arbiter and the advertiser: the proofs use unbounded ticks, and the lemmas of `Ticks` say in which window that is the same. Other C integer widths are modelled where they matter (revision, 8-bit names, stored numbers, length fields).
- Arbiter.RunIsSafe: requests with an alarm after their open or a length below the clipping reserve are outside, because no owner makes them; ids beyond the table (-EINVAL) are outside too.
- Fairness.TwoLossesSpend: for two requesters that meet in ties, the loser not meeting a running event of the other; at other priorities, or against a running event, the priority decides and nothing is owed.
- Fairness.NeverTwiceInARow: for two that meet nobody else; Fairness.TwoLossesSpend says what holds with others.
- Controller.Controller.ArbStart: the 10 ms hold for a start callback within the slack the source assumes; channels sent back to back inside one span have no time bound here, because the radio's turnaround is not modelled.
- Staleness.FieldsCanBeWrong: a link may ask at any higher priority; the source has four.
- Controller.Controller.DispatchBumps: the links' own re-plan bound (latency window, yields) is a finite budget, because ll_conn is modelled only as an abstract owner.
- Controller.Controller.RadioEvt: whether a packet is a scan or connect request for this device is decided outside.
- Upload.UploadImage: answers of an earlier upload that come late must be harmless, and then nothing else may go wrong: LateReplies.WorksIff shows that the first is needed and LateReplies.LossAfterLateReply what a loss does with it. Sequence numbers are modulo 256; a late answer that has the number of the first chunk, 256 requests before it, is left out, as are a reply without an offset and a client that is cancelled. The keyboard's upload handler is modelled from what rainy75_dfu.py:237-241 says of it, because its source is a library's.
- LateReplies.WorksIff: for an image that late requests do not by chance leave on the keyboard (LateReplies.NotThereYet), and a first sequence number that no late answer has; the state machine has no faults, those are in Upload.UploadImage.
- Upload.Keyboard.Await: waiting times are not modelled: a wait ends early as one of the finitely many faults, or when nothing is left to come.
- Restore.FlashErase: the last try is answered; a command that is never answered ends the host's program with an exception and leaves the flash as it was then.
- Restore.FlashWrite: likewise; and replies are taken to belong to the command that was sent last.
- Restore.RestoreFirmware: the check of the firmware header, progress output and timing are left out.
- Flash.Chip.Trampoline: interrupts, write protection, watchdog and reset are not modelled, and its flash routines are taken to work.
- Registry.Registry.Put: a list is replaced in one step, because the source does so under a lock; owners of proxied settings are a map from their argument to what they hold.
- Registry.Registry.Tell: a notification records what its owner reads; what the owner does with it is left out.
- Store.Keeper.AnyRun: only for tables with well-formed names, because the stored form of other values does not come back; delays appear only as a save being scheduled.
- Store.Keeper.WriteEntry: a failed write leaves the entry as it was.
- Store.Keeper.SavedForGood: asks for flash that works and for no handler beside the save (two constants of the class); without them Store.Keeper.AnyRun is what holds.
- Store.Keeper.LoadEntry: a read error during load and an entry without a name are left out.
- Cbor.FieldsRoundTrip: negative numbers are decoded (Cbor.NegativeRoundTrip) but not encoded; the encoder packs their longest form as a signed number.
- Cbor.DecodeDict: only text keys, as in Cbor.Decode.
- Cbor.DecodePairs: only text keys, as in Cbor.Decode.
- Cbor.Decode: a map key that is not text is an error in the model, where the source takes any hashable key; text is its bytes, whether or not they are valid UTF-8. The decoder of restore_original.py, which has no lists and takes 8-byte arguments, is left out, and so are the short forms `_cbor_tstr` and `_cbor_map` of rainy75_rgb.py.
- Paging.FetchValues: transport failures are left out; the reply buffer is a number of bytes for the entries, at most 65535, and framing is not part of it; a request with an empty key list, which the client never sends, stands for one without.
- Replies.ReplyReads: the encoder of the keyboard is a library; its bytes are those of RFC 8949 with the shortest heads, and lists and maps in either form. The requests themselves are Cbor.FieldsRoundTrip.
- Replies.ReadReply: an error code in a reply is one result without a value.
- Framing.Port.ReadResponse: the bytes that arrive before the deadline are a finite list of pieces; read errors and the clock are left out.
- Checksum.Crc16: the loops are those of rainy75_rgb.py; restore_original.py takes the same checksum from a library, which is not part of this model.
- Base64.TestVectors: encoder and decoder of base64 stand for the library the tools take them from.
- Crc.Crc16Modbus: an index beyond the data is a result without a value.
- The settings commands other than list and get, the text forms of values on the command line, the dongle protocol beyond its checksums.
- Link layer, encryption, channel selection, the USB and LED drivers, lighting effects, behaviours, boot diagnostics, statistics counters and logging: hardware, or easy members only.
