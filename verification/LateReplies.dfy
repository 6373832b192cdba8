/** Which replies of an earlier upload a fault-free upload survives. */
module LateReplies {
  import opened Bytes
  import opened Upload

  /** The client, the two channels and the keyboard.  `started` and `late` are
      only for the record: the keyboard has taken this upload's first chunk, and
      how many of the answers to come are of an earlier upload. */
  datatype Net = Net(content: Bytes, requests: seq<Chunk>, replies: seq<Reply>, seqNo: nat, acked: nat, nxt: nat,
                     inflight: map<nat, nat>, first: bool, silent: nat, failed: bool, started: bool, late: nat) {

    function Due(): seq<Answer> {
      Upload.Due(content, requests, replies)
    }
  }

  /** The client begins: the keyboard and the channels may be in any state. */
  ghost predicate Starts(s: Net) {
    && s.acked == 0 && s.nxt == 0 && s.inflight == map[] && s.first && s.silent == 0 && !s.failed
    && !s.started && s.late == |s.replies| + |s.requests|
  }

  /** The upload is not over. */
  predicate Open(image: Bytes, s: Net) {
    !s.failed && s.acked < |image|
  }

  predicate Waits(image: Bytes, s: Net) {
    |s.inflight| >= (if s.first then 1 else WINDOW) || s.nxt >= |image|
  }

  // ---------------------------------------------------------------------
  // The steps, when nothing goes wrong any more
  // ---------------------------------------------------------------------

  function Handle(s: Net): Net
    requires s.requests != []
  {
    var content := Handled(s.content, s.requests[0]);
    s.(content := content, requests := s.requests[1..],
       replies := s.replies + [Reached(s.requests[0].seqNo, |content|)],
       started := s.started || s.late <= |s.replies|)
  }

  function Send(image: Bytes, chunk: nat, s: Net): Net
    requires s.nxt < |image|
  {
    var key, end := s.seqNo % 256, Min(s.nxt + chunk, |image|);
    s.(requests := s.requests + [Chunk(key, s.nxt, ChunkAt(image, chunk, s.nxt))],
       seqNo := s.seqNo + 1, inflight := s.inflight[key := end], nxt := end)
  }

  function Receive(s: Net): Net
    requires s.replies != []
  {
    var t := s.(replies := s.replies[1..], late := Max(s.late, 1) - 1, silent := 0);
    match s.replies[0]
    case Refused(_) => t.(failed := true)
    case Reached(key, off) =>
      var acked := Max(s.acked, off);
      if key !in s.inflight then t.(acked := acked)
      else
        var left := if off == s.inflight[key] then s.inflight - {key} else map[];
        var nxt := if off != s.inflight[key] then acked else if left == map[] then Max(s.nxt, acked) else s.nxt;
        t.(acked := acked, inflight := left, first := false, nxt := nxt)
  }

  function TimeOut(s: Net): Net {
    if s.silent >= RETRIES then s.(silent := s.silent + 1, failed := true)
    else s.(silent := s.silent + 1, inflight := map[], nxt := s.acked)
  }

  /** The client takes a reply here as it does in `Upload.Client.Take`. */
  lemma ReceiveTakes(s: Net)
    requires s.replies != [] && s.replies[0].Reached?
    ensures var t := Receive(s);
            Taken(s.acked, s.nxt, s.inflight, s.first, s.replies[0].seqNo, s.replies[0].off,
                  t.acked, t.nxt, t.inflight, t.first)
  {
  }

  function Silences(s: Net, n: nat): Net {
    if n == 0 then s else TimeOut(Silences(s, n - 1))
  }

  /** The client gives up at the sixth silence in a row, and until then begins
      again at what is confirmed. */
  lemma GivesUpAtSix(s: Net)
    requires s.silent == 0 && !s.failed
    ensures !Silences(s, 5).failed && Silences(s, 5).inflight == map[] && Silences(s, 5).nxt == s.acked
    ensures Silences(s, 6).failed
    ensures s.replies != [] ==> Receive(s).silent == 0
  {
    assert Silences(s, 1).silent == 1 && Silences(s, 2).silent == 2 && Silences(s, 3).silent == 3;
    assert Silences(s, 4).silent == 4 && Silences(s, 5).silent == 5;
  }

  /** Chunks sent one after the other have sequence numbers one after the other,
      to the base 256. */
  lemma NumbersFollow(image: Bytes, chunk: nat, s: Net)
    requires chunk > 0 && s.nxt + chunk < |image|
    ensures var r := Send(image, chunk, Send(image, chunk, s)).requests;
            |r| == |s.requests| + 2 && r[|r| - 1].seqNo == (r[|r| - 2].seqNo + 1) % 256
            && r[|r| - 1].off == r[|r| - 2].off + chunk
  {
  }

  /** A wait ends without a reply only when nothing is left to arrive. */
  predicate Next(image: Bytes, chunk: nat, s: Net, t: Net) {
    && Open(image, s)
    && (|| (s.requests != [] && t == Handle(s))
        || (!Waits(image, s) && t == Send(image, chunk, s))
        || (Waits(image, s) && s.replies != [] && t == Receive(s))
        || (Waits(image, s) && s.requests == [] && s.replies == [] && t == TimeOut(s)))
  }

  ghost predicate Run(image: Bytes, chunk: nat, run: seq<Net>) {
    run != [] && forall i | 0 < i < |run| :: Next(image, chunk, run[i - 1], run[i])
  }

  /** The upload always comes to an end, and then the keyboard has the image. */
  ghost predicate Works(image: Bytes, chunk: nat, s: Net) {
    && (forall run: seq<Net> {:trigger Run(image, chunk, run)} | Run(image, chunk, run) && run[0] == s ::
          var t := run[|run| - 1]; !Open(image, t) ==> !t.failed && t.content == image)
    && (forall f: nat -> Net {:trigger Endless(image, chunk, f)} | f(0) == s :: !Endless(image, chunk, f))
  }

  ghost predicate Endless(image: Bytes, chunk: nat, f: nat -> Net) {
    forall i: nat :: GoesOn(image, chunk, f, i)
  }

  ghost predicate GoesOn(image: Bytes, chunk: nat, f: nat -> Net, i: nat) {
    Next(image, chunk, f(i), f(i + 1))
  }

  /** What every step keeps holds at the end of a run. */
  lemma {:induction false} RunKeeps(image: Bytes, chunk: nat, run: seq<Net>, inv: Net -> bool)
    requires Run(image, chunk, run) && inv(run[0])
    requires forall s, t {:trigger Next(image, chunk, s, t)} | inv(s) && Next(image, chunk, s, t) :: inv(t)
    ensures inv(run[|run| - 1])
  {
    if |run| > 1 {
      var init := run[..|run| - 1];
      assert forall i | 0 <= i < |init| :: init[i] == run[i];
      RunKeeps(image, chunk, init, inv);
      assert Next(image, chunk, run[|run| - 2], run[|run| - 1]);
    }
  }

  // ---------------------------------------------------------------------
  // Harmless replies: the upload works
  // ---------------------------------------------------------------------

  ghost predicate AllComing(s: Net) {
    forall k | k in s.inflight :: Coming(s.Due(), k)
  }

  ghost predicate Waiting(s: Net, key0: nat)
    requires s.late <= |s.replies| + |s.requests|
  {
    && s.first && NotAmong(s.Due(), s.late, key0)
    && if s.nxt == 0 then s.inflight == map[] && s.seqNo % 256 == key0
       else s.inflight.Keys == {key0} && (s.started || Early(Own(s.requests, s.replies, s.late)))
  }

  ghost predicate Well(image: Bytes, chunk: nat, key0: nat, s: Net) {
    && Carried(image, chunk, s.acked, true, s.content, s.started, s.requests, s.replies, s.late)
    && WindowOk(|image|, s.acked, s.nxt, s.inflight, s.first)
    && !s.failed && AllComing(s)
    && (forall r | r in s.replies :: r.Reached?)
    && (s.late > 0 ==> Waiting(s, key0))
  }

  ghost predicate Ready(s: Net) {
    s.inflight == map[] && s.nxt == s.acked
  }

  ghost function Mode(s: Net): nat {
    if HasGoal(s.Due(), s.acked) || Ready(s) then 0 else 1
  }

  /** What every step makes smaller, compared from the left. */
  ghost function Rank(image: Bytes, s: Net): (r: seq<nat>)
    requires s.acked <= |image| && s.nxt <= |image|
    ensures |r| == 6
  {
    [|image| - s.acked, Mode(s), if Mode(s) == 0 then 0 else |image| - s.nxt, Goal(s.Due(), s.acked),
     |image| - s.nxt, |s.requests|]
  }

  predicate Below(a: seq<nat>, b: seq<nat>)
    requires |a| == |b| == 6
  {
    || a[0] < b[0]
    || (a[0] == b[0] && (|| a[1] < b[1]
    || (a[1] == b[1] && (|| a[2] < b[2]
    || (a[2] == b[2] && (|| a[3] < b[3]
    || (a[3] == b[3] && (|| a[4] < b[4]
    || (a[4] == b[4] && a[5] < b[5])))))))))
  }

  lemma HandleWell(image: Bytes, chunk: nat, key0: nat, s: Net)
    requires Well(image, chunk, key0, s) && s.requests != []
    ensures Well(image, chunk, key0, Handle(s)) && Below(Rank(image, Handle(s)), Rank(image, s))
  {
    HandlingAnswers(s.content, s.requests, s.replies);
    assert Handle(s).Due() == s.Due();
    if s.late <= |s.replies| {
      HandleOwn(image, chunk, s.acked, true, s.content, s.started, s.requests, s.replies, s.late);
    } else {
      HandleLate(image, chunk, s.acked, true, s.content, s.started, s.requests, s.replies, s.late);
    }
  }

  lemma SendComing(image: Bytes, chunk: nat, key0: nat, s: Net)
    requires Well(image, chunk, key0, s) && Open(image, s) && !Waits(image, s)
    ensures var t := Send(image, chunk, s);
            && AllComing(t) && (s.late > 0 ==> NotAmong(t.Due(), s.late, key0))
            && (HasGoal(s.Due(), s.acked) || s.nxt == s.acked ==>
                  HasGoal(t.Due(), s.acked) && Goal(t.Due(), s.acked) == Goal(s.Due(), s.acked))
  {
    var c := Chunk(s.seqNo % 256, s.nxt, ChunkAt(image, chunk, s.nxt));
    var a := Answer(c.seqNo, After(AfterAll(|s.content|, s.requests), c));
    SendingAnswers(s.content, s.requests, s.replies, c);
    if s.nxt == s.acked {
      SendAdvances(image, chunk, s.acked, true, s.content, s.started, s.requests, s.replies, s.late, c);
    }
    SendingHelps(s.Due(), s.acked, a);
  }

  lemma SendWell(image: Bytes, chunk: nat, key0: nat, s: Net)
    requires Well(image, chunk, key0, s) && Open(image, s) && !Waits(image, s)
    ensures Well(image, chunk, key0, Send(image, chunk, s))
  {
    var c, t := Chunk(s.seqNo % 256, s.nxt, ChunkAt(image, chunk, s.nxt)), Send(image, chunk, s);
    assert WindowOk(|image|, s.acked, t.nxt, t.inflight, s.first) && (s.nxt == 0 <==> s.acked == 0) by {
      SendingKeepsWindow(|image|, s.acked, s.nxt, s.inflight, s.first, c.seqNo, t.nxt);
    }
    SendCarries(image, chunk, s.acked, true, s.content, s.started, s.requests, s.replies, s.late, c);
    SendComing(image, chunk, key0, s);
    if s.late > 0 {
      assert s.inflight == map[] && s.nxt == 0;
      assert t.inflight.Keys == {key0};
    }
  }

  lemma SendRanks(image: Bytes, s: Net, t: Net)
    requires s.acked == t.acked <= |image| && s.nxt < t.nxt <= |image|
    requires HasGoal(s.Due(), s.acked) || s.nxt == s.acked ==>
               HasGoal(t.Due(), s.acked) && Goal(t.Due(), s.acked) == Goal(s.Due(), s.acked)
    ensures Below(Rank(image, t), Rank(image, s))
  {
  }

  lemma ReceiveComing(image: Bytes, chunk: nat, key0: nat, s: Net)
    requires Well(image, chunk, key0, s) && s.replies != []
    ensures var t := Receive(s);
            && AllComing(t)
            && (s.late > 0 ==> NotAmong(t.Due(), t.late, key0) && s.replies[0].seqNo != key0)
            && (t.acked == s.acked ==> Goal(t.Due(), s.acked) == Goal(s.Due(), s.acked) - 1
                                       && (HasGoal(s.Due(), s.acked) <==> HasGoal(t.Due(), s.acked)))
  {
    var t := Receive(s);
    ReceivingAnswers(s.content, s.requests, s.replies);
    FirstArrives(s.Due(), s.inflight, s.acked, s.late, key0);
    assert t.Due() == s.Due()[1..];
  }

  lemma ReceiveCarried(image: Bytes, chunk: nat, s: Net)
    requires Carried(image, chunk, s.acked, true, s.content, s.started, s.requests, s.replies, s.late)
    requires s.replies != [] && s.replies[0].Reached?
    requires s.late > 0 ==> s.started || Early(Own(s.requests, s.replies, s.late))
    ensures var t := Receive(s);
            && Carried(image, chunk, t.acked, true, t.content, t.started, t.requests, t.replies, t.late)
            && s.replies[0].off <= |image|
            && (s.late == 0 ==> s.replies[0].off > 0)
            && (s.late > 0 ==> Own(t.requests, t.replies, t.late) == Own(s.requests, s.replies, s.late))
  {
    var t := Receive(s);
    ReceiveCarries(image, chunk, s.acked, true, s.content, s.started, s.requests, s.replies, s.late);
    AckCarries(image, chunk, s.acked, true, s.content, s.started, s.requests, t.replies, t.late, s.replies[0].off);
  }

  lemma ReceiveWell(image: Bytes, chunk: nat, key0: nat, s: Net)
    requires Well(image, chunk, key0, s) && Open(image, s) && Waits(image, s) && s.replies != []
    ensures Well(image, chunk, key0, Receive(s))
    ensures Receive(s).acked == s.acked ==> Ready(Receive(s)) || Receive(s).nxt == s.nxt
  {
    var a, t := s.replies[0], Receive(s);
    ReceiveComing(image, chunk, key0, s);
    ReceiveCarried(image, chunk, s);
    ReceiveTakes(s);
    TakingKeepsWindow(|image|, s.acked, s.nxt, s.inflight, s.first, a.seqNo, a.off, t.acked, t.nxt, t.inflight, t.first);
  }

  lemma ReceiveRanks(image: Bytes, s: Net, t: Net)
    requires s.acked <= t.acked <= |image| && s.nxt <= |image| && t.nxt <= |image| && !Ready(s)
    requires t.acked == s.acked ==>
               && (Ready(t) || t.nxt == s.nxt) && Goal(t.Due(), s.acked) == Goal(s.Due(), s.acked) - 1
               && (HasGoal(s.Due(), s.acked) <==> HasGoal(t.Due(), s.acked))
    ensures Below(Rank(image, t), Rank(image, s))
  {
  }

  lemma SendStep(image: Bytes, chunk: nat, key0: nat, s: Net)
    requires Well(image, chunk, key0, s) && Open(image, s) && !Waits(image, s)
    ensures var t := Send(image, chunk, s); Well(image, chunk, key0, t) && Below(Rank(image, t), Rank(image, s))
  {
    SendWell(image, chunk, key0, s);
    SendComing(image, chunk, key0, s);
    SendRanks(image, s, Send(image, chunk, s));
  }

  lemma ReceiveStep(image: Bytes, chunk: nat, key0: nat, s: Net)
    requires Well(image, chunk, key0, s) && Open(image, s) && Waits(image, s) && s.replies != []
    ensures Well(image, chunk, key0, Receive(s)) && Below(Rank(image, Receive(s)), Rank(image, s))
  {
    ReceiveWell(image, chunk, key0, s);
    ReceiveComing(image, chunk, key0, s);
    ReceiveRanks(image, s, Receive(s));
  }

  /** Whoever waits has a chunk in flight, whose answer is to come. */
  lemma NeverInVain(image: Bytes, s: Net)
    requires WindowOk(|image|, s.acked, s.nxt, s.inflight, s.first) && AllComing(s)
    requires Open(image, s) && Waits(image, s)
    ensures s.requests != [] || s.replies != []
  {
    var k :| k in s.inflight;
    assert Coming(s.Due(), k);
  }

  /** Every step keeps everything well and comes nearer to the end; nobody ever
      waits in vain. */
  lemma NextWell(image: Bytes, chunk: nat, key0: nat, s: Net, t: Net)
    requires Well(image, chunk, key0, s) && Next(image, chunk, s, t)
    ensures Well(image, chunk, key0, t) && Below(Rank(image, t), Rank(image, s))
  {
    if s.requests != [] && t == Handle(s) {
      HandleWell(image, chunk, key0, s);
    } else if !Waits(image, s) {
      SendStep(image, chunk, key0, s);
    } else if s.replies != [] {
      ReceiveStep(image, chunk, key0, s);
    } else {
      NeverInVain(image, s);
    }
  }

  lemma StartsWell(image: Bytes, chunk: nat, s: Net)
    requires chunk > 0 && Starts(s) && HarmlessFor(image, chunk, s.seqNo % 256, s.Due(), s.replies)
    ensures Well(image, chunk, s.seqNo % 256, s)
  {
    assert Own(s.requests, s.replies, s.late) == [] && OwnReplies(s.replies, s.late) == [];
  }

  lemma {:induction false} NotForEver(image: Bytes, chunk: nat, key0: nat, f: nat -> Net, i: nat, rank: seq<nat>)
    requires Well(image, chunk, key0, f(i)) && rank == Rank(image, f(i))
    ensures !Endless(image, chunk, f)
    decreases rank[0], rank[1], rank[2], rank[3], rank[4], rank[5]
  {
    if Endless(image, chunk, f) {
      assert GoesOn(image, chunk, f, i);
      NextWell(image, chunk, key0, f(i), f(i + 1));
      NotForEver(image, chunk, key0, f, i + 1, Rank(image, f(i + 1)));
    }
  }

  lemma HarmlessWork(image: Bytes, chunk: nat, s: Net)
    requires chunk > 0 && image != [] && Starts(s) && HarmlessFor(image, chunk, s.seqNo % 256, s.Due(), s.replies)
    ensures Works(image, chunk, s)
  {
    var key0 := s.seqNo % 256;
    StartsWell(image, chunk, s);
    forall t, u {:trigger Next(image, chunk, t, u)} | Well(image, chunk, key0, t) && Next(image, chunk, t, u)
      ensures Well(image, chunk, key0, u)
    {
      NextWell(image, chunk, key0, t, u);
    }
    forall run: seq<Net> | Run(image, chunk, run) && run[0] == s && !Open(image, run[|run| - 1])
      ensures !run[|run| - 1].failed && run[|run| - 1].content == image
    {
      RunKeeps(image, chunk, run, t => Well(image, chunk, key0, t));
      var t := run[|run| - 1];
      HoldsPrefix(image, chunk, t.acked, true, t.content, t.started, t.requests, t.replies, t.late);
    }
    forall f: nat -> Net {:trigger Endless(image, chunk, f)} | f(0) == s
      ensures !Endless(image, chunk, f)
    {
      NotForEver(image, chunk, key0, f, 0, Rank(image, s));
    }
  }

  // ---------------------------------------------------------------------
  // A reply beyond the first chunk: the upload never ends
  // ---------------------------------------------------------------------

  /** The client takes the keyboard to be further than it is, and no chunk the
      keyboard would take is on its way. */
  ghost predicate Behind(image: Bytes, s: Net) {
    && |s.content| < s.acked < |image| && s.nxt >= s.acked
    && (forall c | c in s.requests :: c.off > |s.content|)
    && (forall r | r in s.replies && r.Reached? :: r.off <= s.acked)
  }

  /** What may go wrong. */
  datatype Mishap = RequestLost(i: nat) | ReplyLost(i: nat) | RequestRefused | WaitCutShort

  predicate CanHappen(s: Net, m: Mishap) {
    match m
    case RequestLost(i) => i < |s.requests|
    case ReplyLost(i) => i < |s.replies|
    case RequestRefused => s.requests != []
    case WaitCutShort => true
  }

  function Happens(s: Net, m: Mishap): Net
    requires CanHappen(s, m)
  {
    match m
    case RequestLost(i) => s.(requests := s.requests[..i] + s.requests[i + 1..])
    case ReplyLost(i) => s.(replies := s.replies[..i] + s.replies[i + 1..])
    case RequestRefused => s.(requests := s.requests[1..], replies := s.replies + [Refused(s.requests[0].seqNo)])
    case WaitCutShort => TimeOut(s)
  }

  /** Nothing that happens, right or wrong, brings such a client to the end of
      the image. */
  lemma BehindStays(image: Bytes, chunk: nat, s: Net, t: Net)
    requires Behind(image, s) && Next(image, chunk, s, t)
    ensures Behind(image, t) && t.acked == s.acked
  {
    if s.requests != [] && t == Handle(s) {
      assert s.requests[0] in s.requests;
      assert t.content == s.content;
    } else if !Waits(image, s) {
      assert t.requests == s.requests + [Chunk(s.seqNo % 256, s.nxt, ChunkAt(image, chunk, s.nxt))];
    } else if s.replies != [] {
      assert s.replies[0] in s.replies;
      assert t.acked == s.acked && t.nxt >= t.acked;
    } else {
    }
  }

  lemma MishapsDoNotHelp(image: Bytes, s: Net, m: Mishap)
    requires Behind(image, s) && CanHappen(s, m)
    ensures Behind(image, Happens(s, m)) && Happens(s, m).acked == s.acked
  {
  }

  /** A harmless late reply does harm as soon as the first chunk gets lost: the
      client takes it for confirmed and never sends it again. */
  lemma LossAfterLateReply(image: Bytes, chunk: nat, s: Net, key: nat, off: nat)
    requires Starts(s) && s.content == [] && s.requests == [] && s.replies == [Reached(key, off)]
    requires key != s.seqNo % 256 && 0 < off <= chunk && off < |image|
    ensures var sent := Send(image, chunk, s);
            var told := Receive(sent);
            && Next(image, chunk, s, sent) && Next(image, chunk, sent, told)
            && CanHappen(told, RequestLost(0)) && Behind(image, Happens(told, RequestLost(0)))
  {
    var key0 := s.seqNo % 256;
    assert Send(image, chunk, s).inflight.Keys == {key0};
  }

  /** When nothing goes wrong, it does not even give up. */
  ghost predicate Held(image: Bytes, s: Net) {
    && Behind(image, s) && !s.failed && s.content != []
    && WindowOk(|image|, s.acked, s.nxt, s.inflight, s.first) && AllComing(s)
    && forall r | r in s.replies :: r.Reached? && r.off > 0
  }

  lemma HeldHandle(image: Bytes, s: Net)
    requires Held(image, s) && s.requests != []
    ensures AllComing(Handle(s)) && forall r | r in Handle(s).replies :: r.Reached? && r.off > 0
  {
    HandlingAnswers(s.content, s.requests, s.replies);
    assert s.requests[0] in s.requests;
  }

  lemma HeldSend(image: Bytes, chunk: nat, s: Net)
    requires Held(image, s) && !Waits(image, s) && chunk > 0
    ensures var t := Send(image, chunk, s);
            WindowOk(|image|, t.acked, t.nxt, t.inflight, t.first) && AllComing(t)
  {
    var c, t := Chunk(s.seqNo % 256, s.nxt, ChunkAt(image, chunk, s.nxt)), Send(image, chunk, s);
    assert WindowOk(|image|, t.acked, t.nxt, t.inflight, t.first) by {
      SendingKeepsWindow(|image|, s.acked, s.nxt, s.inflight, s.first, c.seqNo, t.nxt);
    }
    assert AllComing(t) by {
      SendingAnswers(s.content, s.requests, s.replies, c);
      SendingHelps(s.Due(), s.acked, Answer(c.seqNo, After(AfterAll(|s.content|, s.requests), c)));
    }
  }

  lemma HeldReceive(image: Bytes, s: Net)
    requires Held(image, s) && s.replies != []
    ensures var t := Receive(s);
            !t.failed && WindowOk(|image|, t.acked, t.nxt, t.inflight, t.first) && AllComing(t)
  {
    var a, t := s.replies[0], Receive(s);
    assert a in s.replies;
    ReceivingAnswers(s.content, s.requests, s.replies);
    FirstArrives(s.Due(), s.inflight, s.acked, 0, 0);
    ReceiveTakes(s);
    TakingKeepsWindow(|image|, s.acked, s.nxt, s.inflight, s.first, a.seqNo, a.off, t.acked, t.nxt, t.inflight, t.first);
  }

  lemma HeldStays(image: Bytes, chunk: nat, s: Net, t: Net)
    requires Held(image, s) && Next(image, chunk, s, t) && chunk > 0
    ensures Held(image, t)
  {
    BehindStays(image, chunk, s, t);
    if s.requests != [] && t == Handle(s) {
      HeldHandle(image, s);
    } else if !Waits(image, s) {
      HeldSend(image, chunk, s);
    } else if s.replies != [] {
      HeldReceive(image, s);
    } else {
      NeverInVain(image, s);
    }
  }

  /** Until the client has the answer to its first chunk: the furthest of the
      late replies says `m`. */
  ghost predicate Misled(image: Bytes, chunk: nat, key0: nat, m: nat, s: Net) {
    && 0 < chunk < m < |image| && !s.failed && s.first && s.acked <= m
    && (forall r | r in s.replies :: r.Reached?)
    && s.late <= |s.Due()| && NotAmong(s.Due(), s.late, key0)
    && AtMost(s.Due(), s.late, m) && (s.acked == m || Says(s.Due(), s.late, m))
    && if s.nxt == 0 then s.acked == 0 && s.inflight == map[] && s.seqNo % 256 == key0 && s.late == |s.Due()|
       else s.nxt == chunk && s.inflight == map[key0 := chunk] && FirstChunkOn(s, chunk, key0)
  }

  ghost predicate AtMost(out: seq<Answer>, late: nat, m: nat)
    requires late <= |out|
  {
    forall i: nat | i < late :: out[i].off <= m
  }

  ghost predicate Says(out: seq<Answer>, late: nat, m: nat)
    requires late <= |out|
  {
    exists i: nat | i < late :: out[i].off == m
  }

  /** The first chunk is on its way, or its answer is; nothing comes after it. */
  ghost predicate FirstChunkOn(s: Net, chunk: nat, key0: nat) {
    && |s.Due()| == s.late + 1 && s.Due()[s.late] == Answer(key0, chunk)
    && if s.requests == [] then |s.content| == chunk
       else var c := s.requests[|s.requests| - 1]; c.off == 0 && |c.data| == chunk
  }

  lemma MisledHandle(image: Bytes, chunk: nat, key0: nat, m: nat, s: Net)
    requires Misled(image, chunk, key0, m, s) && s.requests != []
    ensures Misled(image, chunk, key0, m, Handle(s))
  {
    HandlingAnswers(s.content, s.requests, s.replies);
  }

  lemma MisledSend(image: Bytes, chunk: nat, key0: nat, m: nat, s: Net)
    requires Misled(image, chunk, key0, m, s) && !Waits(image, s)
    ensures Misled(image, chunk, key0, m, Send(image, chunk, s))
  {
    var c, t := Chunk(key0, 0, ChunkAt(image, chunk, 0)), Send(image, chunk, s);
    SendingAnswers(s.content, s.requests, s.replies, c);
    assert t.Due() == s.Due() + [Answer(key0, chunk)];
    assert t.requests[|t.requests| - 1] == c;
    if s.acked < m {
      var i: nat :| i < s.late && s.Due()[i].off == m;
      assert t.Due()[i].off == m;
    }
  }

  /** The furthest that was said, once the first answer has arrived. */
  lemma SaysStill(out: seq<Answer>, late: nat, key0: nat, acked: nat, m: nat)
    requires 0 < late <= |out| && NotAmong(out, late, key0)
    requires acked <= m && AtMost(out, late, m) && (acked == m || Says(out, late, m))
    ensures out[0].key != key0 && NotAmong(out[1..], late - 1, key0) && AtMost(out[1..], late - 1, m)
    ensures Max(acked, out[0].off) <= m
    ensures Max(acked, out[0].off) == m || Says(out[1..], late - 1, m)
  {
    if acked < m && out[0].off < m {
      var i: nat :| i < late && out[i].off == m;
      assert out[1..][i - 1].off == m;
    }
  }

  lemma MisledReceive(image: Bytes, chunk: nat, key0: nat, m: nat, s: Net)
    requires Misled(image, chunk, key0, m, s) && Waits(image, s) && s.replies != [] && s.late > 0
    ensures Misled(image, chunk, key0, m, Receive(s))
  {
    var out, t := s.Due(), Receive(s);
    ReceivingAnswers(s.content, s.requests, s.replies);
    assert t.Due() == out[1..];
    SaysStill(out, s.late, key0, s.acked, m);
  }

  /** With that answer the client goes on from where the late reply said. */
  lemma MisledGoesOn(image: Bytes, chunk: nat, key0: nat, m: nat, s: Net)
    requires Misled(image, chunk, key0, m, s) && Waits(image, s) && s.replies != [] && s.late == 0
    ensures Held(image, Receive(s))
  {
    var out, t := s.Due(), Receive(s);
    assert out == Arriving(s.replies) + Answers(|s.content|, s.requests);
    assert s.requests == [] && t.replies == [];
    assert s.replies[0].seqNo == out[0].key == key0 && s.replies[0].off == out[0].off == chunk;
    assert t.inflight == map[];
  }

  // ---------------------------------------------------------------------
  // For ever
  // ---------------------------------------------------------------------

  ghost predicate Stuck(image: Bytes, chunk: nat, key0: nat, m: nat, s: Net) {
    Misled(image, chunk, key0, m, s) || (Held(image, s) && chunk > 0)
  }

  lemma StuckStays(image: Bytes, chunk: nat, key0: nat, m: nat, s: Net, t: Net)
    requires Stuck(image, chunk, key0, m, s) && Next(image, chunk, s, t)
    ensures Stuck(image, chunk, key0, m, t) && Open(image, t)
  {
    if !Misled(image, chunk, key0, m, s) {
      HeldStays(image, chunk, s, t);
    } else if s.requests != [] && t == Handle(s) {
      MisledHandle(image, chunk, key0, m, s);
    } else if !Waits(image, s) {
      MisledSend(image, chunk, key0, m, s);
    } else if s.replies != [] {
      if s.late > 0 {
        MisledReceive(image, chunk, key0, m, s);
      } else {
        MisledGoesOn(image, chunk, key0, m, s);
      }
    }
  }

  /** One of the steps an open upload can make. */
  function Step(image: Bytes, chunk: nat, s: Net): (t: Net)
    ensures Open(image, s) ==> Next(image, chunk, s, t)
  {
    if s.requests != [] then Handle(s)
    else if !Waits(image, s) then Send(image, chunk, s)
    else if s.replies != [] then Receive(s)
    else TimeOut(s)
  }

  function Steps(image: Bytes, chunk: nat, s: Net, n: nat): Net {
    if n == 0 then s else Step(image, chunk, Steps(image, chunk, s, n - 1))
  }

  lemma {:induction false} StepsKeep(image: Bytes, chunk: nat, s: Net, n: nat, inv: Net -> bool)
    requires inv(s) && forall t {:trigger Step(image, chunk, t)} | inv(t) :: inv(Step(image, chunk, t))
    ensures inv(Steps(image, chunk, s, n))
  {
    if n > 0 {
      StepsKeep(image, chunk, s, n - 1, inv);
    }
  }

  /** Late replies of which the furthest lies beyond the first chunk and before
      the end of the image. */
  ghost predicate Misleading(image: Bytes, chunk: nat, m: nat, s: Net) {
    && 0 < chunk < m < |image| && (forall r | r in s.replies :: r.Reached?)
    && AtMost(s.Due(), |s.Due()|, m) && Says(s.Due(), |s.Due()|, m)
  }

  lemma StuckIsOpen(image: Bytes, chunk: nat, key0: nat, m: nat, s: Net)
    requires Stuck(image, chunk, key0, m, s)
    ensures Open(image, s)
  {
  }

  lemma StepsGoOn(image: Bytes, chunk: nat, key0: nat, m: nat, s: Net, n: nat)
    requires Stuck(image, chunk, key0, m, s)
    ensures Next(image, chunk, Steps(image, chunk, s, n), Steps(image, chunk, s, n + 1))
  {
    forall t {:trigger Step(image, chunk, t)} | Stuck(image, chunk, key0, m, t)
      ensures Stuck(image, chunk, key0, m, Step(image, chunk, t))
    {
      StuckIsOpen(image, chunk, key0, m, t);
      StuckStays(image, chunk, key0, m, t, Step(image, chunk, t));
    }
    StepsKeep(image, chunk, s, n, t => Stuck(image, chunk, key0, m, t));
    StuckIsOpen(image, chunk, key0, m, Steps(image, chunk, s, n));
  }

  lemma StepsForEver(image: Bytes, chunk: nat, key0: nat, m: nat, s: Net) returns (f: nat -> Net)
    requires Stuck(image, chunk, key0, m, s)
    ensures f(0) == s && Endless(image, chunk, f)
  {
    f := (n: nat) => Steps(image, chunk, s, n);
    forall i: nat
      ensures GoesOn(image, chunk, f, i)
    {
      StepsGoOn(image, chunk, key0, m, s, i);
    }
  }

  /** Then no run ends the upload, and there is one without end. */
  lemma HeldUp(image: Bytes, chunk: nat, m: nat, s: Net) returns (f: nat -> Net)
    requires Starts(s) && NotAmong(s.Due(), |s.Due()|, s.seqNo % 256) && Misleading(image, chunk, m, s)
    ensures forall run: seq<Net> | Run(image, chunk, run) && run[0] == s :: Open(image, run[|run| - 1])
    ensures f(0) == s && Endless(image, chunk, f)
  {
    var key0 := s.seqNo % 256;
    assert Stuck(image, chunk, key0, m, s);
    forall t, u {:trigger Next(image, chunk, t, u)} | Stuck(image, chunk, key0, m, t) && Next(image, chunk, t, u)
      ensures Stuck(image, chunk, key0, m, u)
    {
      StuckStays(image, chunk, key0, m, t, u);
    }
    forall run: seq<Net> | Run(image, chunk, run) && run[0] == s
      ensures Open(image, run[|run| - 1])
    {
      RunKeeps(image, chunk, run, t => Stuck(image, chunk, key0, m, t));
      StuckIsOpen(image, chunk, key0, m, run[|run| - 1]);
    }
    f := StepsForEver(image, chunk, key0, m, s);
  }

  // ---------------------------------------------------------------------
  // A refusal, or a reply from the end of the image: the upload is over
  // ---------------------------------------------------------------------

  /** What the keyboard holds when it has handled these. */
  function AfterEarlier(content: Bytes, cs: seq<Chunk>): Bytes
    decreases |cs|
  {
    if cs == [] then content else AfterEarlier(Handled(content, cs[0]), cs[1..])
  }

  lemma {:induction false} LastDecides(content: Bytes, cs: seq<Chunk>, c: Chunk)
    ensures c.off == 0 ==> AfterEarlier(content, cs + [c]) == c.data
    decreases |cs|
  {
    if cs == [] {
      assert cs + [c] == [c];
      assert AfterEarlier(Handled(content, c), []) == Handled(content, c);
    } else {
      assert (cs + [c])[0] == cs[0] && (cs + [c])[1..] == cs[1..] + [c];
      LastDecides(Handled(content, cs[0]), cs[1..], c);
    }
  }

  /** The keyboard may handle `n` requests in a row. */
  lemma {:induction false} HandleSome(image: Bytes, chunk: nat, s: Net, n: nat) returns (run: seq<Net>)
    requires Open(image, s) && n <= |s.requests|
    ensures Run(image, chunk, run) && run[0] == s
    ensures var t := run[|run| - 1];
            && t.content == AfterEarlier(s.content, s.requests[..n])
            && (t.acked, t.nxt, t.inflight, t.first, t.failed) == (s.acked, s.nxt, s.inflight, s.first, s.failed)
            && t.Due() == s.Due() && |t.replies| == |s.replies| + n && s.replies <= t.replies
    decreases n
  {
    if n == 0 {
      run := [s];
    } else {
      HandlingAnswers(s.content, s.requests, s.replies);
      var rest := HandleSome(image, chunk, Handle(s), n - 1);
      run := [s] + rest;
      assert s.requests[..n][1..] == s.requests[1..][..n - 1];
      assert forall i | 0 < i < |run| :: run[i] == rest[i - 1];
    }
  }

  ghost predicate Ends(image: Bytes, r: Reply) {
    r.Refused? || r.off >= |image|
  }

  /** As long as the client waits for its first answer, the first such reply
      ends the upload, whatever the keyboard holds. */
  lemma {:induction false} ReceiveSome(image: Bytes, chunk: nat, key0: nat, s: Net, n: nat) returns (run: seq<Net>)
    requires Open(image, s) && s.first && s.inflight.Keys == {key0}
    requires n < |s.replies| && Ends(image, s.replies[n]) && forall j | 0 <= j <= n :: s.replies[j].seqNo != key0
    ensures Run(image, chunk, run) && run[0] == s
    ensures var t := run[|run| - 1]; !Open(image, t) && t.content == s.content
    decreases n
  {
    assert |s.inflight.Keys| == 1;
    var t := Receive(s);
    if !Open(image, t) {
      run := [s, t];
    } else {
      var rest := ReceiveSome(image, chunk, key0, t, n - 1);
      run := [s] + rest;
      assert forall i | 0 < i < |run| :: run[i] == rest[i - 1];
    }
  }

  /** Once all late requests are handled, the keyboard does not hold the image
      by chance: it takes more than one chunk, or the earlier upload sent
      something else. */
  ghost predicate NotThereYet(image: Bytes, chunk: nat, s: Net) {
    chunk < |image| || AfterEarlier(s.content, s.requests) != image
  }

  /** The answer `n` of an earlier upload ends this one. */
  ghost predicate Ending(image: Bytes, s: Net, n: nat) {
    n < |s.Due()| && (s.Due()[n].off >= |image| || (n < |s.replies| && s.replies[n].Refused?))
  }

  lemma FirstSent(image: Bytes, chunk: nat, s: Net) returns (t: Net, n: nat)
    requires chunk > 0 && image != [] && Starts(s) && NotThereYet(image, chunk, s)
    ensures t == Send(image, chunk, s) && Next(image, chunk, s, t)
    ensures |s.requests| <= n <= |t.requests| && AfterEarlier(s.content, t.requests[..n]) != image
    ensures t.Due() == s.Due() + [Answer(s.seqNo % 256, After(AfterAll(|s.content|, s.requests), t.requests[|s.requests|]))]
  {
    var c := Chunk(s.seqNo % 256, 0, ChunkAt(image, chunk, 0));
    t := Send(image, chunk, s);
    assert t.requests == s.requests + [c];
    SendingAnswers(s.content, s.requests, s.replies, c);
    if chunk < |image| {
      n := |t.requests|;
      assert t.requests[..n] == s.requests + [c];
      LastDecides(s.content, s.requests, c);
    } else {
      n := |s.requests|;
      assert t.requests[..n] == s.requests;
    }
  }

  lemma EndsTooSoon(image: Bytes, chunk: nat, s: Net, n: nat) returns (run: seq<Net>)
    requires chunk > 0 && image != [] && Starts(s) && NotAmong(s.Due(), |s.Due()|, s.seqNo % 256)
    requires Ending(image, s, n) && NotThereYet(image, chunk, s)
    ensures Run(image, chunk, run) && run[0] == s
    ensures var t := run[|run| - 1]; !Open(image, t) && t.content != image
  {
    var t, k := FirstSent(image, chunk, s);
    var first := HandleSome(image, chunk, t, k);
    var u := first[|first| - 1];
    assert u.inflight.Keys == {s.seqNo % 256};
    RepliesAre(s, t, u);
    var last := ReceiveSome(image, chunk, s.seqNo % 256, u, n);
    run := [s] + first + last[1..];
    Joined(image, chunk, s, first, last);
  }

  lemma RepliesAre(s: Net, t: Net, u: Net)
    requires s.Due() <= t.Due() == u.Due() && |s.Due()| <= |u.replies|
    ensures forall j | 0 <= j < |s.Due()| :: u.replies[j].seqNo == s.Due()[j].key
    ensures forall j | 0 <= j < |s.Due()| && u.replies[j].Reached? :: u.replies[j].off == s.Due()[j].off
  {
    forall j | 0 <= j < |s.Due()|
      ensures u.replies[j].seqNo == s.Due()[j].key && (u.replies[j].Reached? ==> u.replies[j].off == s.Due()[j].off)
    {
      assert u.Due()[j] == s.Due()[j];
    }
  }

  lemma Joined(image: Bytes, chunk: nat, s: Net, first: seq<Net>, last: seq<Net>)
    requires Run(image, chunk, first) && Run(image, chunk, last) && Next(image, chunk, s, first[0])
    requires first[|first| - 1] == last[0]
    ensures Run(image, chunk, [s] + first + last[1..])
  {
    var run := [s] + first + last[1..];
    forall i | 0 < i < |run|
      ensures Next(image, chunk, run[i - 1], run[i])
    {
      if i > 1 {
        assert if i <= |first| then run[i - 1] == first[i - 2] && run[i] == first[i - 1]
               else run[i - 1] == last[i - 1 - |first|] && run[i] == last[i - |first|];
      }
    }
  }

  lemma {:induction false} Furthest(out: seq<Answer>, late: nat) returns (m: nat)
    requires 0 < late <= |out|
    ensures AtMost(out, late, m) && Says(out, late, m)
  {
    m := out[late - 1].off;
    if late > 1 {
      var n := Furthest(out, late - 1);
      m := Max(m, n);
      if m == n {
        var i: nat :| i < late - 1 && out[i].off == n;
        assert out[i].off == m;
      }
    }
  }

  /** A fault-free upload of a new image works if and only if every reply of an
      earlier one that comes late says at most the first chunk and less than the
      image, and none is a refusal: whatever the keyboard holds, and whatever of
      the earlier upload is on its way, as long as none of its sequence numbers
      is that of the first chunk. */
  lemma WorksIff(image: Bytes, chunk: nat, s: Net)
    requires chunk > 0 && image != [] && Starts(s) && NotThereYet(image, chunk, s)
    requires NotAmong(s.Due(), |s.Due()|, s.seqNo % 256)
    ensures Works(image, chunk, s) <==>
              Harmless(image, chunk, s.Due(), |s.Due()|) && forall r | r in s.replies :: r.Reached?
  {
    var out := s.Due();
    if n: nat :| Ending(image, s, n) {
      var run := EndsTooSoon(image, chunk, s, n);
      assert !Works(image, chunk, s);
    } else if Harmless(image, chunk, out, |out|) && forall r | r in s.replies :: r.Reached? {
      HarmlessWork(image, chunk, s);
    } else {
      forall i: nat | i < |out|
        ensures out[i].off < |image| && (i < |s.replies| ==> s.replies[i].Reached?)
      {
        assert !Ending(image, s, i);
      }
      var m := Furthest(out, |out|);
      var f := HeldUp(image, chunk, m, s);
      assert !Works(image, chunk, s);
    }
  }

  /** For instance: four bytes, one at a time, and a late reply that says 2. */
  lemma ReplyTooFar(s: Net)
    requires Starts(s) && s.requests == [] && s.replies == [Reached(7, 2)] && s.seqNo == 8
    ensures !Works([1, 2, 3, 4], 1, s)
    ensures forall run: seq<Net> | Run([1, 2, 3, 4], 1, run) && run[0] == s :: Open([1, 2, 3, 4], run[|run| - 1])
  {
    assert s.Due() == [Answer(7, 2)] && s.Due()[0].off == 2;
    var f := HeldUp([1, 2, 3, 4], 1, 2, s);
    assert Endless([1, 2, 3, 4], 1, f);
  }
}
