/** The pipelined firmware upload over Bluetooth: the client, two first-in
    first-out channels that may lose what they carry, and the keyboard. */
module Upload {
  import opened Wrappers
  import opened Bytes

  const WINDOW: nat := 2
  const RETRIES: nat := 5

  datatype Chunk = Chunk(seqNo: nat, off: nat, data: Bytes)

  datatype Reply = Refused(seqNo: nat) | Reached(seqNo: nat, off: nat)

  datatype Answer = Answer(key: nat, off: nat)

  datatype Outcome = Done | NoAnswer | UploadRefused

  // ---------------------------------------------------------------------
  // The keyboard
  // ---------------------------------------------------------------------

  /** The offset the keyboard has after a chunk when it had `d`: an offset 0
      starts over, the expected offset appends, any other is skipped. */
  function After(d: nat, c: Chunk): nat {
    if c.off == 0 then |c.data| else if c.off == d then d + |c.data| else d
  }

  function AfterAll(d: nat, cs: seq<Chunk>): nat
    decreases |cs|
  {
    if cs == [] then d else AfterAll(After(d, cs[0]), cs[1..])
  }

  /** The answers to come when nothing gets lost or refused any more. */
  function Answers(d: nat, cs: seq<Chunk>): (out: seq<Answer>)
    ensures |out| == |cs|
    decreases |cs|
  {
    if cs == [] then []
    else var e := After(d, cs[0]); [Answer(cs[0].seqNo, e)] + Answers(e, cs[1..])
  }

  lemma {:induction false} AnswersAppend(d: nat, cs: seq<Chunk>, c: Chunk)
    ensures Answers(d, cs + [c]) == Answers(d, cs) + [Answer(c.seqNo, After(AfterAll(d, cs), c))]
    ensures AfterAll(d, cs + [c]) == After(AfterAll(d, cs), c)
    decreases |cs|
  {
    if cs == [] {
      assert cs + [c] == [c];
      assert AfterAll(After(d, c), []) == After(d, c);
    } else {
      assert (cs + [c])[0] == cs[0] && (cs + [c])[1..] == cs[1..] + [c];
      AnswersAppend(After(d, cs[0]), cs[1..], c);
    }
  }

  /** The answers already on their way. */
  function Arriving(rs: seq<Reply>): seq<Answer>
  {
    seq(|rs|, i requires 0 <= i < |rs| => Answer(rs[i].seqNo, if rs[i].Reached? then rs[i].off else 0))
  }

  /** All answers to come. */
  function Due(content: Bytes, requests: seq<Chunk>, replies: seq<Reply>): seq<Answer> {
    Arriving(replies) + Answers(|content|, requests)
  }

  lemma SendingAnswers(content: Bytes, requests: seq<Chunk>, replies: seq<Reply>, c: Chunk)
    ensures Due(content, requests + [c], replies)
            == Due(content, requests, replies) + [Answer(c.seqNo, After(AfterAll(|content|, requests), c))]
  {
    AnswersAppend(|content|, requests, c);
  }

  /** What the keyboard holds after a chunk. */
  function Handled(content: Bytes, c: Chunk): Bytes {
    if c.off == 0 then c.data else if c.off == |content| then content + c.data else content
  }

  lemma HandlingAnswers(content: Bytes, requests: seq<Chunk>, replies: seq<Reply>)
    requires requests != []
    ensures var content' := Handled(content, requests[0]);
            Due(content', requests[1..], replies + [Reached(requests[0].seqNo, |content'|)])
            == Due(content, requests, replies)
  {
  }

  lemma ReceivingAnswers(content: Bytes, requests: seq<Chunk>, replies: seq<Reply>)
    requires replies != []
    ensures var a := replies[0];
            Due(content, requests, replies)
            == [Answer(a.seqNo, if a.Reached? then a.off else 0)] + Due(content, requests, replies[1..])
  {
  }

  // ---------------------------------------------------------------------
  // What the client and the keyboard agree on
  // ---------------------------------------------------------------------

  function ChunkAt(image: Bytes, chunk: nat, off: nat): Bytes
    requires off <= |image|
  {
    image[off..Min(off + chunk, |image|)]
  }

  ghost predicate Early(requests: seq<Chunk>) {
    requests != [] && requests[0].off == 0
  }

  /** The channels carry parts of the image; chunks at offset 0 come first, and
      while one is on its way nobody has gone beyond the first chunk.  Before the
      keyboard has taken one, only a late reply of an earlier upload can have
      made the client go on, and nothing may get lost any more (`calm`). */
  ghost predicate Consistent(image: Bytes, chunk: nat, acked: nat, calm: bool, content: Bytes, started: bool,
                             requests: seq<Chunk>, replies: seq<Reply>) {
    && chunk > 0
    && (forall c | c in requests :: c.off < |image| && c.data == ChunkAt(image, chunk, c.off))
    && (forall i: nat, j: nat {:trigger ZeroFirst(requests, i, j)} | i < j < |requests| :: ZeroFirst(requests, i, j))
    && (acked == 0 ==> forall c | c in requests :: c.off == 0)
    && (if started
        then content <= image && acked <= |content| && content != [] && Min(chunk, |image|) <= |content|
             && forall r | r in replies && r.Reached? :: 0 < r.off <= |content|
        else (acked == 0 || (calm && Early(requests) && acked < |image|))
             && forall r | r in replies :: r.Refused?)
    && (acked == 0 || Early(requests) ==>
          && acked <= chunk
          && (started ==> |content| <= chunk)
          && forall r | r in replies && r.Reached? :: r.off <= chunk)
  }

  ghost predicate ZeroFirst(cs: seq<Chunk>, i: nat, j: nat)
    requires i < j < |cs|
  {
    cs[j].off == 0 ==> cs[i].off == 0
  }

  /** Losing anything, or having it refused, keeps the rest in order. */
  lemma LosingKeeps(image: Bytes, chunk: nat, acked: nat, calm: bool, content: Bytes, started: bool,
                    requests: seq<Chunk>, replies: seq<Reply>, i: nat, requests': seq<Chunk>, replies': seq<Reply>)
    requires Consistent(image, chunk, acked, calm, content, started, requests, replies)
    requires requests' == requests || (!calm && i < |requests| && requests' == requests[..i] + requests[i + 1..])
    requires forall r | r in replies' :: r in replies || r.Refused?
    ensures Consistent(image, chunk, acked, calm, content, started, requests', replies')
  {
    if requests' != requests {
      forall k: nat, j: nat | k < j < |requests'|
        ensures ZeroFirst(requests', k, j)
      {
        assert ZeroFirst(requests, if k < i then k else k + 1, if j < i then j else j + 1);
      }
      assert |requests| > 1 ==> ZeroFirst(requests, 0, 1);
    }
  }

  lemma HandleKeeps(image: Bytes, chunk: nat, acked: nat, calm: bool, content: Bytes, started: bool,
                    requests: seq<Chunk>, replies: seq<Reply>)
    requires Consistent(image, chunk, acked, calm, content, started, requests, replies) && requests != []
    ensures var content' := Handled(content, requests[0]);
            Consistent(image, chunk, acked, calm, content', true, requests[1..],
                       replies + [Reached(requests[0].seqNo, |content'|)])
  {
    forall i: nat, j: nat | i < j < |requests| - 1
      ensures ZeroFirst(requests[1..], i, j)
    {
      assert ZeroFirst(requests, i + 1, j + 1);
    }
    assert |requests| > 1 ==> ZeroFirst(requests, 0, 1);
  }

  /** The first `late` answers cannot lead the client astray: none goes beyond
      the first chunk, and none is the end of the image. */
  ghost predicate Harmless(image: Bytes, chunk: nat, out: seq<Answer>, late: nat)
    requires late <= |out|
  {
    forall i: nat | i < late :: out[i].off <= chunk && out[i].off < |image|
  }

  /** The requests that are not of an earlier upload, when `late` answers to
      come are: those arrive before all others. */
  function Own(requests: seq<Chunk>, replies: seq<Reply>, late: nat): seq<Chunk>
    requires late <= |replies| + |requests|
  {
    requests[late - Min(late, |replies|)..]
  }

  function OwnReplies(replies: seq<Reply>, late: nat): seq<Reply> {
    replies[Min(late, |replies|)..]
  }

  ghost predicate Carried(image: Bytes, chunk: nat, acked: nat, calm: bool, content: Bytes, started: bool,
                          requests: seq<Chunk>, replies: seq<Reply>, late: nat) {
    && late <= |replies| + |requests| && chunk > 0
    && (late > |replies| ==> !started)
    && (forall n {:trigger OwnReplies(replies, n)} | n == late ::
          && Consistent(image, chunk, acked, calm, content, started, Own(requests, replies, n), OwnReplies(replies, n))
          && (n > 0 ==> calm && Harmless(image, chunk, Due(content, requests, replies), n)))
  }

  lemma CarriedMeans(image: Bytes, chunk: nat, acked: nat, calm: bool, content: Bytes, started: bool,
                     requests: seq<Chunk>, replies: seq<Reply>, late: nat)
    requires Carried(image, chunk, acked, calm, content, started, requests, replies, late)
    ensures Consistent(image, chunk, acked, calm, content, started, Own(requests, replies, late), OwnReplies(replies, late))
    ensures late > 0 ==> calm && Harmless(image, chunk, Due(content, requests, replies), late)
    ensures late == 0 ==> Own(requests, replies, late) == requests && OwnReplies(replies, late) == replies
    ensures late <= |replies| ==> Own(requests, replies, late) == requests
  {
  }

  /** What makes up `Carried`, with the own requests and replies given. */
  lemma CarriedFrom(image: Bytes, chunk: nat, acked: nat, calm: bool, content: Bytes, started: bool,
                    requests: seq<Chunk>, replies: seq<Reply>, late: nat, own: seq<Chunk>, rest: seq<Reply>)
    requires late <= |replies| + |requests| && (late > |replies| ==> !started)
    requires Own(requests, replies, late) == own && OwnReplies(replies, late) == rest
    requires Consistent(image, chunk, acked, calm, content, started, own, rest)
    requires late > 0 ==> calm && Harmless(image, chunk, Due(content, requests, replies), late)
    ensures Carried(image, chunk, acked, calm, content, started, requests, replies, late)
  {
  }

  lemma CarriedAlone(image: Bytes, chunk: nat, acked: nat, calm: bool, content: Bytes, started: bool,
                     requests: seq<Chunk>, replies: seq<Reply>)
    requires Consistent(image, chunk, acked, calm, content, started, requests, replies)
    ensures Carried(image, chunk, acked, calm, content, started, requests, replies, 0)
  {
    assert Own(requests, replies, 0) == requests && OwnReplies(replies, 0) == replies;
  }

  /** The content as long as the upload has it, and the first chunk not handled. */
  lemma HoldsPrefix(image: Bytes, chunk: nat, acked: nat, calm: bool, content: Bytes, started: bool,
                    requests: seq<Chunk>, replies: seq<Reply>, late: nat)
    requires Carried(image, chunk, acked, calm, content, started, requests, replies, late)
    ensures if started then content <= image && acked <= |content| else acked == 0 || acked < |image|
  {
    CarriedMeans(image, chunk, acked, calm, content, started, requests, replies, late);
  }

  lemma HandleOwn(image: Bytes, chunk: nat, acked: nat, calm: bool, content: Bytes, started: bool,
                  requests: seq<Chunk>, replies: seq<Reply>, late: nat)
    requires Carried(image, chunk, acked, calm, content, started, requests, replies, late)
    requires requests != [] && late <= |replies|
    ensures var content' := Handled(content, requests[0]);
            Carried(image, chunk, acked, calm, content', true, requests[1..],
                    replies + [Reached(requests[0].seqNo, |content'|)], late)
  {
    var content' := Handled(content, requests[0]);
    var answer := Reached(requests[0].seqNo, |content'|);
    var rest := OwnReplies(replies, late);
    CarriedMeans(image, chunk, acked, calm, content, started, requests, replies, late);
    HandlingAnswers(content, requests, replies);
    HandleKeeps(image, chunk, acked, calm, content, started, requests, rest);
    CarriedFrom(image, chunk, acked, calm, content', true, requests[1..], replies + [answer], late,
                requests[1..], rest + [answer]);
  }

  lemma HandleLate(image: Bytes, chunk: nat, acked: nat, calm: bool, content: Bytes, started: bool,
                   requests: seq<Chunk>, replies: seq<Reply>, late: nat)
    requires Carried(image, chunk, acked, calm, content, started, requests, replies, late)
    requires |replies| < late
    ensures var content' := Handled(content, requests[0]);
            var replies' := replies + [Reached(requests[0].seqNo, |content'|)];
            && Carried(image, chunk, acked, calm, content', started, requests[1..], replies', late)
            && Own(requests[1..], replies', late) == Own(requests, replies, late)
  {
    var content' := Handled(content, requests[0]);
    CarriedMeans(image, chunk, acked, calm, content, started, requests, replies, late);
    HandlingAnswers(content, requests, replies);
    CarriedFrom(image, chunk, acked, calm, content', started, requests[1..],
                replies + [Reached(requests[0].seqNo, |content'|)], late,
                Own(requests, replies, late), OwnReplies(replies, late));
  }

  lemma ReceiveOwn(image: Bytes, chunk: nat, acked: nat, calm: bool, content: Bytes, started: bool,
                   requests: seq<Chunk>, replies: seq<Reply>)
    requires Carried(image, chunk, acked, calm, content, started, requests, replies, 0) && replies != []
    ensures Carried(image, chunk, acked, calm, content, started, requests, replies[1..], 0)
    ensures replies[0].Reached? ==>
              started && 0 < replies[0].off <= |content| && (acked == 0 || Early(requests) ==> replies[0].off <= chunk)
  {
    CarriedMeans(image, chunk, acked, calm, content, started, requests, replies, 0);
    assert replies[0] in replies;
    LosingKeeps(image, chunk, acked, calm, content, started, requests, replies, 0, requests, replies[1..]);
    CarriedAlone(image, chunk, acked, calm, content, started, requests, replies[1..]);
  }

  lemma ReceiveLate(image: Bytes, chunk: nat, acked: nat, calm: bool, content: Bytes, started: bool,
                    requests: seq<Chunk>, replies: seq<Reply>, late: nat)
    requires Carried(image, chunk, acked, calm, content, started, requests, replies, late) && replies != [] && late > 0
    ensures Carried(image, chunk, acked, calm, content, started, requests, replies[1..], late - 1)
    ensures Own(requests, replies[1..], late - 1) == Own(requests, replies, late)
    ensures replies[0].Reached? ==> replies[0].off <= chunk && replies[0].off < |image|
  {
    CarriedMeans(image, chunk, acked, calm, content, started, requests, replies, late);
    ReceivingAnswers(content, requests, replies);
    var out, rest := Due(content, requests, replies), Due(content, requests, replies[1..]);
    assert replies[0].Reached? ==> out[0].off == replies[0].off;
    assert forall i: nat | i < late - 1 :: rest[i] == out[i + 1];
    CarriedFrom(image, chunk, acked, calm, content, started, requests, replies[1..], late - 1,
                Own(requests, replies, late), OwnReplies(replies, late));
  }

  lemma ReceiveCarries(image: Bytes, chunk: nat, acked: nat, calm: bool, content: Bytes, started: bool,
                       requests: seq<Chunk>, replies: seq<Reply>, late: nat)
    requires Carried(image, chunk, acked, calm, content, started, requests, replies, late) && replies != []
    ensures Carried(image, chunk, acked, calm, content, started, requests, replies[1..], Max(late, 1) - 1)
    ensures Own(requests, replies[1..], Max(late, 1) - 1) == Own(requests, replies, late)
    ensures var a := replies[0];
            a.Reached? ==> if late == 0
                           then started && 0 < a.off <= |content| && (acked == 0 || Early(requests) ==> a.off <= chunk)
                           else a.off <= chunk && a.off < |image|
  {
    if late == 0 {
      ReceiveOwn(image, chunk, acked, calm, content, started, requests, replies);
    } else {
      ReceiveLate(image, chunk, acked, calm, content, started, requests, replies, late);
    }
  }

  lemma LosingCarries(image: Bytes, chunk: nat, acked: nat, calm: bool, content: Bytes, started: bool,
                      requests: seq<Chunk>, replies: seq<Reply>, late: nat, i: nat, requests': seq<Chunk>, replies': seq<Reply>)
    requires Carried(image, chunk, acked, false, content, started, requests, replies, late)
    requires requests' == requests || (i < |requests| && requests' == requests[..i] + requests[i + 1..])
    requires forall r | r in replies' :: r in replies || r.Refused?
    ensures late == 0 && Carried(image, chunk, acked, calm, content, started, requests', replies', late)
  {
    CarriedMeans(image, chunk, acked, false, content, started, requests, replies, late);
    LosingKeeps(image, chunk, acked, false, content, started, requests, replies, i, requests', replies');
    assert Consistent(image, chunk, acked, calm, content, started, requests', replies');
    CarriedAlone(image, chunk, acked, calm, content, started, requests', replies');
  }

  class Keyboard {
    var content: Bytes          // slot 1, as far as this upload has come
    var requests: seq<Chunk>    // on their way to the keyboard
    var replies: seq<Reply>     // on their way back
    var faults: nat             // losses, refusals and early timeouts still to come
    ghost var started: bool     // the keyboard has taken a first chunk
    ghost var late: nat         // the answers to come that are of an earlier upload

    ghost function Outstanding(): seq<Answer>
      reads this
    {
      Due(content, requests, replies)
    }

    /** The keyboard handles the oldest request. */
    method Handle()
      requires requests != []
      modifies this`content, this`requests, this`replies, this`started
      ensures requests == old(requests)[1..]
      ensures content == Handled(old(content), old(requests)[0])
      ensures replies == old(replies) + [Reached(old(requests)[0].seqNo, |content|)]
      ensures started == (old(started) || late <= |old(replies)|)
      ensures Outstanding() == old(Outstanding())
    {
      HandlingAnswers(content, requests, replies);
      started := started || late <= |replies|;
      var c := requests[0];
      if c.off == 0 {
        content := c.data;
      } else if c.off == |content| {
        content := content + c.data;
      }
      requests := requests[1..];
      replies := replies + [Reached(c.seqNo, |content|)];
    }

    ghost predicate Carries(image: Bytes, chunk: nat, acked: nat)
      reads this
    {
      Carried(image, chunk, acked, faults == 0, content, started, requests, replies, late)
    }

    method Send(c: Chunk)
      modifies this`requests
      ensures requests == old(requests) + [c]
      ensures Outstanding() == old(Outstanding()) + [Answer(c.seqNo, After(AfterAll(|content|, old(requests)), c))]
    {
      SendingAnswers(content, requests, replies, c);
      requests := requests + [c];
    }

    method Receive() returns (a: Reply)
      requires replies != []
      modifies this`replies, this`late
      ensures a == old(replies)[0] && a in old(replies) && replies == old(replies)[1..]
      ensures late == Max(old(late), 1) - 1
      ensures old(Outstanding()) == [Answer(a.seqNo, if a.Reached? then a.off else 0)] + Outstanding()
    {
      ReceivingAnswers(content, requests, replies);
      a := replies[0];
      replies := replies[1..];
      late := Max(late, 1) - 1;
    }

    /** `Handle` and `Receive` keep the channels in order. */
    method HandleOne(ghost image: Bytes, ghost chunk: nat, ghost acked: nat)
      requires Carries(image, chunk, acked) && requests != []
      modifies this`content, this`requests, this`replies, this`started
      ensures Carries(image, chunk, acked) && requests == old(requests)[1..]
      ensures old(started) ==> started
      ensures late == 0 ==> started
      ensures !started ==> Own(requests, replies, late) == old(Own(requests, replies, late))
      ensures Outstanding() == old(Outstanding())
      ensures forall a | a in replies && a.Refused? :: a in old(replies)
    {
      if late <= |replies| {
        HandleOwn(image, chunk, acked, faults == 0, content, started, requests, replies, late);
      } else {
        HandleLate(image, chunk, acked, faults == 0, content, started, requests, replies, late);
      }
      Handle();
    }

    method TakeOne(ghost image: Bytes, ghost chunk: nat, ghost acked: nat) returns (a: Reply)
      requires Carries(image, chunk, acked) && replies != []
      modifies this`replies, this`late
      ensures Carries(image, chunk, acked) && late == Max(old(late), 1) - 1
      ensures Own(requests, replies, late) == old(Own(requests, replies, late))
      ensures a == old(replies)[0] && replies == old(replies)[1..]
      ensures old(Outstanding()) == [Answer(a.seqNo, if a.Reached? then a.off else 0)] + Outstanding()
      ensures a.Reached? && old(late) == 0 ==>
                started && 0 < a.off <= |content| && (acked == 0 || Early(requests) ==> a.off <= chunk)
      ensures a.Reached? && old(late) > 0 ==> a.off <= chunk && a.off < |image|
    {
      ReceiveCarries(image, chunk, acked, faults == 0, content, started, requests, replies, late);
      a := Receive();
    }

    /** Wait for a reply.  Meanwhile the keyboard handles requests, and the
        channels may lose some; the wait may end too early, and it ends when
        nothing is left to arrive. */
    method Await(ghost image: Bytes, ghost chunk: nat, ghost acked: nat) returns (r: Option<Reply>)
      requires Carries(image, chunk, acked)
      modifies this
      ensures Carries(image, chunk, acked) && faults <= old(faults)
      ensures old(started) ==> started
      ensures !started && old(late) == 0 ==> content == old(content)
      ensures late == if r.Some? then Max(old(late), 1) - 1 else old(late)
      ensures r.Some? && r.value.Reached? && old(late) == 0 ==>
                started && 0 < r.value.off <= |content| && (acked == 0 || Early(requests) ==> r.value.off <= chunk)
      ensures r.Some? && r.value.Reached? && old(late) > 0 ==> r.value.off <= chunk && r.value.off < |image|
      ensures old(late) > 0 ==> faults == old(faults)
                                && (started || (late <= |replies| + |requests|
                                                && Own(requests, replies, late) == old(Own(requests, replies, late))))
      ensures faults == old(faults) ==>
                match r
                case None => old(Outstanding()) == [] && Outstanding() == []
                case Some(a) =>
                  && |old(Outstanding())| > 0 && Outstanding() == old(Outstanding())[1..]
                  && old(Outstanding())[0].key == a.seqNo
                  && (a.Reached? ==> old(Outstanding())[0].off == a.off)
      ensures faults == old(faults) && r.Some? && r.value.Refused? ==> r.value in old(replies)
      ensures faults == old(faults) ==> forall a | a in replies && a.Refused? :: a in old(replies)
    {
      while true
        invariant Carries(image, chunk, acked) && faults <= old(faults) && late == old(late)
        invariant old(started) ==> started
        invariant !started && late == 0 ==> content == old(content)
        invariant late > 0 ==> faults == old(faults)
        invariant late > 0 && !started ==> Own(requests, replies, late) == old(Own(requests, replies, late))
        invariant faults == old(faults) ==> Outstanding() == old(Outstanding())
        invariant faults == old(faults) ==> forall a | a in replies && a.Refused? :: a in old(replies)
        decreases faults, |requests|
      {
        var fault: bool, arrives: bool := *, *;
        if fault && faults > 0 {
          var early := Fault(image, chunk, acked);
          if early {
            return None;
          }
        } else if replies != [] && (arrives || requests == []) {
          var a := TakeOne(image, chunk, acked);
          return Some(a);
        } else if requests != [] {
          HandleOne(image, chunk, acked);
        } else {
          return None;
        }
      }
    }

    /** One fault: a request or a reply is lost, the oldest request is refused,
        or the wait ends although something is still to come. */
    method Fault(ghost image: Bytes, ghost chunk: nat, ghost acked: nat) returns (early: bool)
      requires Carries(image, chunk, acked) && faults > 0
      modifies this`requests, this`replies, this`faults
      ensures Carries(image, chunk, acked) && faults == old(faults) - 1 && late == 0
    {
      early := false;
      var rs, back, i: nat := requests, replies, *;
      if {
        case i < |requests| =>
          rs := requests[..i] + requests[i + 1..];
        case i < |replies| =>
          back := replies[..i] + replies[i + 1..];
        case requests != [] =>
          i := 0;
          rs, back := requests[1..], replies + [Refused(requests[0].seqNo)];
        case true =>
          early := true;
      }
      LosingCarries(image, chunk, acked, faults == 1, content, started, requests, replies, late, i, rs, back);
      requests, replies, faults := rs, back, faults - 1;
    }
  }

  // ---------------------------------------------------------------------
  // Progress
  // ---------------------------------------------------------------------

  /** An answer to come that takes the client further than `acked`. */
  ghost predicate HasGoal(out: seq<Answer>, acked: nat) {
    exists i: nat | i < |out| :: out[i].off > acked
  }

  /** How many answers come before it. */
  function Goal(out: seq<Answer>, acked: nat): (n: nat)
    ensures n <= |out|
    ensures n < |out| ==> out[n].off > acked
    ensures forall i: nat | i < n :: out[i].off <= acked
  {
    if out == [] || out[0].off > acked then 0
    else
      var n := Goal(out[1..], acked);
      assert forall i: nat | 0 < i < n + 1 :: out[i] == out[1..][i - 1];
      n + 1
  }

  lemma GoalOfTail(out: seq<Answer>, acked: nat)
    ensures out != [] && out[0].off <= acked ==> Goal(out[1..], acked) == Goal(out, acked) - 1
    ensures out != [] && out[0].off <= acked ==> (HasGoal(out, acked) <==> HasGoal(out[1..], acked))
  {
  }

  lemma {:induction false} GoalOfPrefix(out: seq<Answer>, more: seq<Answer>, acked: nat)
    ensures HasGoal(out, acked) ==> HasGoal(out + more, acked) && Goal(out + more, acked) == Goal(out, acked)
    ensures !HasGoal(out, acked) && more != [] && more[0].off > acked ==>
              HasGoal(out + more, acked) && Goal(out + more, acked) == |out|
  {
    if HasGoal(out, acked) {
      var i: nat :| i < |out| && out[i].off > acked;
      assert (out + more)[i].off > acked;
    }
    if more != [] && more[0].off > acked {
      assert (out + more)[|out|] == more[0];
    }
    var n, m := Goal(out, acked), Goal(out + more, acked);
    assert forall i: nat | i < |out| :: (out + more)[i] == out[i];
  }

  /** The keyboard will not be behind what the client was told: `d` is where it
      is, or will be after the requests of an earlier upload. */
  lemma {:induction false} NeverBehind(image: Bytes, chunk: nat, acked: nat, calm: bool, content: Bytes, started: bool,
                                       requests: seq<Chunk>, replies: seq<Reply>, d: nat)
    requires Consistent(image, chunk, acked, calm, content, started, requests, replies)
    requires started ==> d == |content|
    ensures AfterAll(d, requests) >= acked
    decreases |requests|
  {
    if requests != [] {
      var content' := Handled(content, requests[0]);
      assert requests[0] in requests;
      assert started || requests[0].off == 0;
      assert After(d, requests[0]) == |content'|;
      HandleKeeps(image, chunk, acked, calm, content, started, requests, replies);
      NeverBehind(image, chunk, acked, calm, content', true, requests[1..],
                  replies + [Reached(requests[0].seqNo, |content'|)], |content'|);
    }
  }

  lemma {:induction false} AfterAllSplits(d: nat, cs: seq<Chunk>, n: nat)
    requires n <= |cs|
    ensures AfterAll(d, cs) == AfterAll(AfterAll(d, cs[..n]), cs[n..])
    decreases n
  {
    if n == 0 {
      assert cs[n..] == cs;
    } else {
      assert cs[..n][1..] == cs[1..][..n - 1] && cs[1..][n - 1..] == cs[n..];
      AfterAllSplits(After(d, cs[0]), cs[1..], n - 1);
    }
  }

  lemma SendKeeps(image: Bytes, chunk: nat, acked: nat, calm: bool, content: Bytes, started: bool,
                  requests: seq<Chunk>, replies: seq<Reply>, c: Chunk)
    requires Consistent(image, chunk, acked, calm, content, started, requests, replies)
    requires c.off < |image| && c.data == ChunkAt(image, chunk, c.off)
    requires c.off == 0 <==> acked == 0
    ensures Consistent(image, chunk, acked, calm, content, started, requests + [c], replies)
  {
    forall i: nat, j: nat | i < j <= |requests|
      ensures ZeroFirst(requests + [c], i, j)
    {
      assert j < |requests| ==> ZeroFirst(requests, i, j);
    }
  }

  /** A chunk sent keeps the channels in order. */
  lemma SendCarries(image: Bytes, chunk: nat, acked: nat, calm: bool, content: Bytes, started: bool,
                    requests: seq<Chunk>, replies: seq<Reply>, late: nat, c: Chunk)
    requires Carried(image, chunk, acked, calm, content, started, requests, replies, late)
    requires c.off < |image| && c.data == ChunkAt(image, chunk, c.off)
    requires c.off == 0 <==> acked == 0
    ensures Carried(image, chunk, acked, calm, content, started, requests + [c], replies, late)
    ensures c.off == 0 ==> Early(Own(requests + [c], replies, late))
    ensures Early(Own(requests, replies, late)) ==> Early(Own(requests + [c], replies, late))
  {
    var own, rest := Own(requests, replies, late), OwnReplies(replies, late);
    SendKeeps(image, chunk, acked, calm, content, started, own, rest, c);
    assert Own(requests + [c], replies, late) == own + [c];
    SendingAnswers(content, requests, replies, c);
  }

  /** Sent from the confirmed offset it will take the keyboard further. */
  lemma SendAdvances(image: Bytes, chunk: nat, acked: nat, calm: bool, content: Bytes, started: bool,
                     requests: seq<Chunk>, replies: seq<Reply>, late: nat, c: Chunk)
    requires Carried(image, chunk, acked, calm, content, started, requests, replies, late)
    requires c.off == acked < |image| && c.data == ChunkAt(image, chunk, acked)
    ensures After(AfterAll(|content|, requests), c) > acked
  {
    var own, rest := Own(requests, replies, late), OwnReplies(replies, late);
    var n := |requests| - |own|;
    AfterAllSplits(|content|, requests, n);
    NeverBehind(image, chunk, acked, calm, content, started, own, rest, AfterAll(|content|, requests[..n]));
  }

  // ---------------------------------------------------------------------
  // The client
  // ---------------------------------------------------------------------

  /** The client has sent no further than what it was told and what is in
      flight, and beyond the first chunk only after a confirmation. */
  ghost predicate WindowOk(size: nat, acked: nat, nxt: nat, inflight: map<nat, nat>, first: bool) {
    && acked <= size && nxt <= size
    && (forall k | k in inflight :: inflight[k] <= size)
    && (nxt <= acked || exists k :: k in inflight && inflight[k] >= nxt)
    && (nxt == 0 ==> acked == 0 && inflight == map[])
    && (if first then |inflight| <= 1 else acked > 0 && |inflight| <= WINDOW)
  }

  lemma SendingKeepsWindow(size: nat, acked: nat, nxt: nat, inflight: map<nat, nat>, first: bool, key: nat, end: nat)
    requires WindowOk(size, acked, nxt, inflight, first) && nxt < end <= size
    requires |inflight| < if first then 1 else WINDOW
    ensures WindowOk(size, acked, end, inflight[key := end], first)
    ensures nxt == 0 <==> acked == 0
  {
    assert first ==> inflight == map[];
    assert key in inflight[key := end] && inflight[key := end][key] >= end;
    assert inflight[key := end].Keys == inflight.Keys + {key};
  }

  /** What a reply does to the client. */
  ghost predicate Taken(acked: nat, nxt: nat, inflight: map<nat, nat>, first: bool, key: nat, off: nat,
                        acked': nat, nxt': nat, inflight': map<nat, nat>, first': bool) {
    && acked' == Max(acked, off)
    && if key !in inflight
       then nxt' == nxt && inflight' == inflight && first' == first
       else
         && !first'
         && inflight' == (if off == inflight[key] then inflight - {key} else map[])
         && nxt' == if off != inflight[key] then acked'
                    else if inflight' == map[] then Max(nxt, acked')
                    else nxt
  }

  /** The window stays right, and without progress the client is either about
      to send from the confirmed offset or has not moved. */
  lemma TakingKeepsWindow(size: nat, acked: nat, nxt: nat, inflight: map<nat, nat>, first: bool, key: nat, off: nat,
                          acked': nat, nxt': nat, inflight': map<nat, nat>, first': bool)
    requires WindowOk(size, acked, nxt, inflight, first) && nxt > 0 && off <= size && (key in inflight ==> off > 0)
    requires Taken(acked, nxt, inflight, first, key, off, acked', nxt', inflight', first')
    ensures WindowOk(size, acked', nxt', inflight', first')
    ensures acked' == acked ==> (inflight' == map[] && nxt' == acked') || nxt' == nxt
    ensures key !in inflight' && forall k | k in inflight' :: k in inflight
  {
    assert inflight.Keys >= (inflight - {key}).Keys == inflight.Keys - {key};
    if nxt > acked {
      var k :| k in inflight && inflight[k] >= nxt;
      if key in inflight && off == inflight[key] && nxt > acked' {
        assert k in inflight';
      }
    }
  }

  lemma AckKeeps(image: Bytes, chunk: nat, acked: nat, calm: bool, content: Bytes, started: bool,
                 requests: seq<Chunk>, replies: seq<Reply>, off: nat)
    requires Consistent(image, chunk, acked, calm, content, started, requests, replies)
    requires || (started && 0 < off <= |content| && (acked == 0 || Early(requests) ==> off <= chunk))
             || (calm && off <= chunk && off < |image| && (started || Early(requests)))
    ensures Consistent(image, chunk, Max(acked, off), calm, content, started, requests, replies)
    ensures off <= |image|
  {
  }

  lemma AckCarries(image: Bytes, chunk: nat, acked: nat, calm: bool, content: Bytes, started: bool,
                   requests: seq<Chunk>, replies: seq<Reply>, late: nat, off: nat)
    requires Carried(image, chunk, acked, calm, content, started, requests, replies, late)
    requires || (late == 0 && started && 0 < off <= |content| && (acked == 0 || Early(requests) ==> off <= chunk))
             || (calm && off <= chunk && off < |image| && (started || Early(Own(requests, replies, late))))
    ensures Carried(image, chunk, Max(acked, off), calm, content, started, requests, replies, late)
    ensures off <= |image|
  {
    var own, rest := Own(requests, replies, late), OwnReplies(replies, late);
    CarriedMeans(image, chunk, acked, calm, content, started, requests, replies, late);
    AckKeeps(image, chunk, acked, calm, content, started, own, rest, off);
  }

  class Client {
    const kb: Keyboard
    const image: Bytes
    const chunk: nat
    var seqNo: nat
    var acked: nat                // the offset the keyboard confirmed
    var nxt: nat                  // the next offset to send
    var inflight: map<nat, nat>   // sequence number -> the offset its chunk ends at
    var silent: nat               // timeouts in a row
    var first: bool
    ghost var lost: bool          // a fault since the chunks in flight were forgotten
    ghost const budget: nat       // faults of the whole upload
    ghost const key0: nat         // the sequence number of the first chunk

    constructor (kb: Keyboard, image: Bytes, chunk: nat, seqNo: nat)
      requires chunk > 0 && !kb.started && kb.late == |kb.replies| + |kb.requests|
      requires kb.late == 0 || (kb.faults == 0 && HarmlessFor(image, chunk, seqNo % 256, kb.Outstanding(), kb.replies))
      ensures this.kb == kb && this.image == image && this.chunk == chunk && this.seqNo == seqNo
      ensures Valid() && acked == 0 && silent == 0 && budget == kb.faults
    {
      this.kb, this.image, this.chunk, this.seqNo := kb, image, chunk, seqNo;
      acked, nxt, inflight, silent, first := 0, 0, map[], 0, true;
      lost, budget, key0 := false, kb.faults, seqNo % 256;
    }

    ghost predicate Valid()
      reads this, kb
    {
      && kb.Carries(image, chunk, acked)
      && WindowOk(|image|, acked, nxt, inflight, first)
      && silent <= RETRIES && silent + (if lost then 1 else 0) + kb.faults <= budget
      && (!lost ==> AllComing())
      && (forall r | r in kb.replies && r.Refused? :: kb.faults < budget)
      && (kb.late > 0 ==> Waiting())
    }

    /** As long as answers of an earlier upload are to come, the client waits for
        the answer to its first chunk. */
    ghost predicate Waiting()
      requires kb.late <= |kb.replies| + |kb.requests|
      reads this, kb
    {
      && budget == 0 && first
      && NotAmong(kb.Outstanding(), kb.late, key0)
      && if nxt == 0 then inflight == map[] && seqNo % 256 == key0
         else inflight.Keys == {key0} && (kb.started || Early(Own(kb.requests, kb.replies, kb.late)))
    }

    /** Every chunk in flight will be answered, if nothing more gets lost. */
    ghost predicate AllComing()
      reads this, kb
    {
      forall k | k in inflight :: Coming(kb.Outstanding(), k)
    }

    /** The next chunk sent is sure to be answered with progress. */
    ghost predicate Ready()
      reads this
    {
      inflight == map[] && nxt == acked
    }

    ghost function Mode(): nat
      reads this, kb
    {
      if HasGoal(kb.Outstanding(), acked) || Ready() then 0 else 1
    }

    ghost function Unsent(): int
      reads this, kb
    {
      if Mode() == 0 then 0 else |image| - nxt
    }

    ghost function ToGoal(): nat
      reads this, kb
    {
      Goal(kb.Outstanding(), acked)
    }

    /** Send chunks until the window is full or the image ends.  There are never
        more in flight than the window allows, and the client never goes on to
        wait with nothing in flight. */
    method FillWindow()
      requires Valid() && acked < |image|
      modifies this`seqNo, this`nxt, this`inflight, kb`requests
      ensures Valid() && inflight != map[] && nxt > 0
      ensures |inflight| == (if first then 1 else WINDOW) || nxt == |image|
      ensures old(kb.Outstanding()) <= kb.Outstanding() && nxt >= old(nxt)
      ensures nxt == old(nxt) ==> inflight == old(inflight) && kb.Outstanding() == old(kb.Outstanding())
      ensures old(HasGoal(kb.Outstanding(), acked) || Ready()) ==>
                HasGoal(kb.Outstanding(), acked) && ToGoal() == old(ToGoal())
    {
      var window := if first then 1 else WINDOW;
      var size := |image|;
      ghost var out0 := kb.Outstanding();
      while |inflight| < window && nxt < size
        invariant Valid() && nxt >= old(nxt)
        invariant old(kb.Outstanding()) <= kb.Outstanding()
        invariant nxt == old(nxt) ==> inflight == old(inflight) && kb.Outstanding() == old(kb.Outstanding())
        invariant old(HasGoal(kb.Outstanding(), acked)) || (old(Ready()) && nxt > old(nxt)) ==>
                    HasGoal(kb.Outstanding(), acked) && ToGoal() == old(ToGoal())
        decreases size - nxt
      {
        SendNext();
      }
    }

    method SendNext()
      requires Valid() && nxt < |image| && |inflight| < (if first then 1 else WINDOW)
      modifies this`seqNo, this`nxt, this`inflight, kb`requests
      ensures Valid() && nxt > old(nxt) && inflight != map[] && seqNo == old(seqNo) + 1
      ensures old(kb.Outstanding()) <= kb.Outstanding()
      ensures old(HasGoal(kb.Outstanding(), acked) || Ready()) ==>
                HasGoal(kb.Outstanding(), acked) && ToGoal() == old(ToGoal())
    {
      var key, end := seqNo % 256, Min(nxt + chunk, |image|);
      SendingKeepsWindow(|image|, acked, nxt, inflight, first, key, end);
      SendChunk(Chunk(key, nxt, ChunkAt(image, chunk, nxt)));
      seqNo := seqNo + 1;
      PutInFlight(key, end);
    }

    /** The chunk just sent is in flight. */
    method PutInFlight(key: nat, end: nat)
      requires kb.Carries(image, chunk, acked) && WindowOk(|image|, acked, nxt, inflight, first) && nxt < end <= |image|
      requires |inflight| < (if first then 1 else WINDOW)
      requires silent <= RETRIES && silent + (if lost then 1 else 0) + kb.faults <= budget
      requires forall r | r in kb.replies && r.Refused? :: kb.faults < budget
      requires !lost ==> AllComing() && Coming(kb.Outstanding(), key)
      requires kb.late > 0 ==> budget == 0 && first && NotAmong(kb.Outstanding(), kb.late, key0) && key == key0
                               && Early(Own(kb.requests, kb.replies, kb.late))
      modifies this`nxt, this`inflight
      ensures Valid() && nxt == end && inflight == old(inflight)[key := end]
    {
      SendingKeepsWindow(|image|, acked, nxt, inflight, first, key, end);
      inflight := inflight[key := end];
      nxt := end;
    }

    method SendChunk(c: Chunk)
      requires Valid() && c.off == nxt < |image| && c.data == ChunkAt(image, chunk, nxt) && (nxt == 0 <==> acked == 0)
      modifies kb`requests
      ensures kb.Carries(image, chunk, acked) && old(kb.Outstanding()) <= kb.Outstanding()
      ensures c.off == 0 || old(Early(Own(kb.requests, kb.replies, kb.late))) ==>
                Early(Own(kb.requests, kb.replies, kb.late))
      ensures !lost ==> AllComing() && Coming(kb.Outstanding(), c.seqNo)
      ensures kb.late > 0 ==> NotAmong(kb.Outstanding(), kb.late, key0)
      ensures old(HasGoal(kb.Outstanding(), acked) || nxt == acked) ==>
                HasGoal(kb.Outstanding(), acked) && ToGoal() == old(ToGoal())
    {
      SendCarries(image, chunk, acked, kb.faults == 0, kb.content, kb.started, kb.requests, kb.replies, kb.late, c);
      if c.off == acked {
        SendAdvances(image, chunk, acked, kb.faults == 0, kb.content, kb.started, kb.requests, kb.replies, kb.late, c);
      }
      SendingHelps(kb.Outstanding(), acked, Answer(c.seqNo, After(AfterAll(|kb.content|, kb.requests), c)));
      kb.Send(c);
    }

    /** Take one reply: `off` is where the keyboard is. */
    method Take(key: nat, off: nat)
      modifies this`acked, this`nxt, this`inflight, this`first, this`silent
      ensures Taken(old(acked), old(nxt), old(inflight), old(first), key, off, acked, nxt, inflight, first)
      ensures silent == 0
    {
      silent := 0;
      acked := Max(acked, off);
      if key !in inflight {
        return;   // a reply from before a resend
      }
      var want := inflight[key];
      inflight := inflight - {key};
      first := false;
      if off != want {
        inflight := map[];
        nxt := acked;
      }
      if inflight == map[] {
        nxt := Max(nxt, acked);
      }
    }

    /** What is left of `Valid` while a reply is being looked at: the chunk
        `key` is no longer to be answered. */
    ghost predicate Answered(key: nat)
      reads this, kb
    {
      && kb.Carries(image, chunk, acked)
      && WindowOk(|image|, acked, nxt, inflight, first)
      && silent <= RETRIES && silent + (if lost then 1 else 0) + kb.faults <= budget
      && (!lost ==> forall k | k in inflight && k != key :: Coming(kb.Outstanding(), k))
      && (forall r | r in kb.replies && r.Refused? :: kb.faults < budget)
      && (kb.late > 0 ==> Waiting())
    }

    /** What a reply can say: where the keyboard is in this upload, or something
        harmless about an earlier one. */
    ghost predicate CanSay(key: nat, off: nat)
      requires kb.late <= |kb.replies| + |kb.requests|
      reads this, kb
    {
      || (kb.late == 0 && kb.started && 0 < off <= |kb.content| && (acked == 0 || Early(kb.requests) ==> off <= chunk))
      || (kb.faults == 0 && off <= chunk && off < |image| && key !in inflight
          && (kb.started || Early(Own(kb.requests, kb.replies, kb.late))))
    }

    method HandleReply(key: nat, off: nat)
      requires Answered(key) && CanSay(key, off) && nxt > 0
      modifies this`acked, this`nxt, this`inflight, this`first, this`silent
      ensures Valid() && acked == Max(old(acked), off)
      ensures acked == old(acked) ==> Ready() || nxt == old(nxt)
    {
      AckCarries(image, chunk, acked, kb.faults == 0, kb.content, kb.started, kb.requests, kb.replies, kb.late, off);
      Take(key, off);
      TakingKeepsWindow(|image|, old(acked), old(nxt), old(inflight), old(first), key, off, acked, nxt, inflight, first);
    }

    /** Nothing came: forget what is in flight and resend from the confirmed
        offset, or give up. */
    method TimedOut() returns (gaveUp: bool)
      requires kb.Carries(image, chunk, acked) && WindowOk(|image|, acked, nxt, inflight, first)
      requires silent <= RETRIES && silent + 1 + kb.faults <= budget
      requires (forall r | r in kb.replies && r.Refused? :: kb.faults < budget) && kb.late == 0
      modifies this`silent, this`inflight, this`nxt, this`lost
      ensures if gaveUp then budget - kb.faults > RETRIES else Valid() && Ready()
      ensures silent == old(silent) + 1 && (gaveUp <==> old(silent) == RETRIES)
    {
      silent := silent + 1;
      if silent > RETRIES {
        return true;
      }
      inflight := map[];
      nxt := acked;
      lost := false;
      gaveUp := false;
    }

    /** Wait for what comes, and note whether anything went wrong. */
    method Hear() returns (r: Option<Reply>)
      requires Valid() && inflight != map[]
      modifies kb, this`lost
      ensures old(kb.started) ==> kb.started
      ensures !kb.started && budget > 0 ==> kb.content == old(kb.content)
      ensures kb.Carries(image, chunk, acked) && kb.faults <= old(kb.faults)
      ensures forall a | a in kb.replies && a.Refused? :: kb.faults < budget
      ensures kb.late == if r.Some? then Max(old(kb.late), 1) - 1 else 0
      ensures match r
              case None =>
                silent + 1 + kb.faults <= budget && (kb.faults == old(kb.faults) ==> !old(HasGoal(kb.Outstanding(), acked)))
              case Some(Refused(_)) => kb.faults < budget
              case Some(Reached(key, off)) =>
                && silent + (if lost then 1 else 0) + kb.faults <= budget
                && (!lost ==> forall k | k in inflight && k != key :: Coming(kb.Outstanding(), k))
                && (if old(kb.late) == 0
                    then kb.started && 0 < off <= |kb.content| && (acked == 0 || Early(kb.requests) ==> off <= chunk)
                    else off <= chunk && off < |image| && key != key0
                         && NotAmong(kb.Outstanding(), kb.late, key0)
                         && (kb.started || Own(kb.requests, kb.replies, kb.late) == old(Own(kb.requests, kb.replies, kb.late))))
                && (kb.faults == old(kb.faults) && off <= acked ==>
                      && ToGoal() == old(ToGoal()) - 1
                      && (HasGoal(kb.Outstanding(), acked) <==> old(HasGoal(kb.Outstanding(), acked))))
    {
      ghost var out, faults, late := kb.Outstanding(), kb.faults, kb.late;
      r := kb.Await(image, chunk, acked);
      lost := lost || kb.faults < faults;
      if kb.faults == faults && out != [] {
        FirstArrives(out, inflight, acked, late, key0);
      }
    }

    method Listen() returns (r: Option<Reply>)
      requires Valid() && inflight != map[] && nxt > 0
      modifies kb, this`lost
      ensures old(kb.started) ==> kb.started
      ensures !kb.started && budget > 0 ==> kb.content == old(kb.content)
      ensures kb.Carries(image, chunk, acked) && kb.faults <= old(kb.faults)
      ensures forall a | a in kb.replies && a.Refused? :: kb.faults < budget
      ensures match r
              case None =>
                && silent + 1 + kb.faults <= budget && kb.late == 0
                && (kb.faults == old(kb.faults) ==> !old(HasGoal(kb.Outstanding(), acked)))
              case Some(Refused(_)) => kb.faults < budget
              case Some(Reached(key, off)) =>
                && Answered(key) && CanSay(key, off)
                && (kb.faults == old(kb.faults) && off <= acked ==>
                      && ToGoal() == old(ToGoal()) - 1
                      && (HasGoal(kb.Outstanding(), acked) <==> old(HasGoal(kb.Outstanding(), acked))))
    {
      r := Hear();
    }

    /** Wait once and act on what comes. */
    method WaitOnce() returns (end: Option<Outcome>)
      requires Valid() && inflight != map[] && nxt > 0
      modifies this, kb
      ensures old(kb.started) ==> kb.started
      ensures !kb.started && budget > 0 ==> kb.content == old(kb.content)
      ensures kb.started ==> kb.content <= image
      ensures end == None ==> Valid() && kb.faults <= old(kb.faults)
      ensures end == None && kb.faults == old(kb.faults) ==>
                || acked > old(acked)
                || (acked == old(acked) && if old(HasGoal(kb.Outstanding(), acked))
                                           then HasGoal(kb.Outstanding(), acked) && ToGoal() < old(ToGoal())
                                           else Ready() || (nxt == old(nxt) && ToGoal() < old(ToGoal())))
      ensures end != None ==> end != Some(Done)
      ensures end == Some(NoAnswer) ==> budget - kb.faults > RETRIES
      ensures end == Some(UploadRefused) ==> kb.faults < budget
    {
      var r := Listen();
      HoldsPrefix(image, chunk, acked, kb.faults == 0, kb.content, kb.started, kb.requests, kb.replies, kb.late);
      match r {
        case None =>
          var gaveUp := TimedOut();
          end := if gaveUp then Some(NoAnswer) else None;
        case Some(Refused(_)) =>
          end := Some(UploadRefused);
        case Some(Reached(key, off)) =>
          HandleReply(key, off);
          end := None;
      }
    }

    /** One round of the loop: fill the window, wait, act. */
    method Round() returns (end: Option<Outcome>)
      requires Valid() && acked < |image|
      modifies this, kb
      ensures old(kb.started) ==> kb.started
      ensures !kb.started && budget > 0 ==> kb.content == old(kb.content)
      ensures kb.started ==> kb.content <= image
      ensures match end
              case None =>
                && Valid()
                && (|| kb.faults < old(kb.faults)
                    || (kb.faults == old(kb.faults) && acked > old(acked))
                    || (kb.faults == old(kb.faults) && acked == old(acked)
                        && Smaller(Mode(), Unsent(), ToGoal(), old(Mode()), old(Unsent()), old(ToGoal()))))
              case Some(o) =>
                && o != Done
                && (o == NoAnswer ==> budget - kb.faults > RETRIES)
                && (o == UploadRefused ==> kb.faults < budget)
    {
      FillWindow();
      end := WaitOnce();
    }

    /** Rounds until everything is confirmed, or the upload fails. */
    method Rounds() returns (outcome: Outcome)
      requires Valid() && !kb.started
      modifies this, kb
      ensures if kb.started then kb.content <= image
              else kb.content == old(kb.content) || (budget == 0 && image != [])
      ensures outcome == Done ==> Valid() && acked == |image|
      ensures outcome == NoAnswer ==> budget - kb.faults > RETRIES
      ensures outcome == UploadRefused ==> kb.faults < budget
    {
      while acked < |image|
        invariant Valid()
        invariant if kb.started then kb.content <= image
                  else kb.content == old(kb.content) || (budget == 0 && image != [])
        decreases kb.faults, |image| - acked, Mode(), Unsent(), ToGoal()
      {
        var end := Round();
        if end.Some? {
          return end.value;
        }
      }
      outcome := Done;
    }
  }

  /** Lexicographically. */
  predicate Smaller(a: int, b: int, c: int, a': int, b': int, c': int) {
    a < a' || (a == a' && b < b') || (a == a' && b == b' && c < c')
  }

  /** None of the first `late` answers has this key. */
  ghost predicate NotAmong(out: seq<Answer>, late: nat, key: nat)
    requires late <= |out|
  {
    forall i: nat | i < late :: out[i].key != key
  }

  /** What is left to come once the first answer has arrived. */
  lemma FirstArrives(out: seq<Answer>, inflight: map<nat, nat>, acked: nat, late: nat, key0: nat)
    requires out != [] && late <= |out|
    ensures NotAmong(out, late, key0) ==> NotAmong(out[1..], Max(late, 1) - 1, key0)
    ensures late > 0 && NotAmong(out, late, key0) ==> out[0].key != key0
    ensures (forall k | k in inflight :: Coming(out, k)) ==>
              forall k | k in inflight && k != out[0].key :: Coming(out[1..], k)
    ensures out[0].off <= acked ==>
              Goal(out[1..], acked) == Goal(out, acked) - 1 && (HasGoal(out, acked) <==> HasGoal(out[1..], acked))
  {
    GoalOfTail(out, acked);
  }

  /** What a sent chunk adds to the answers to come. */
  lemma SendingHelps(out: seq<Answer>, acked: nat, a: Answer)
    ensures HasGoal(out, acked) || a.off > acked ==>
              HasGoal(out + [a], acked) && Goal(out + [a], acked) == Goal(out, acked)
    ensures forall k :: Coming(out, k) || k == a.key ==> Coming(out + [a], k)
    ensures forall n: nat, k | n <= |out| :: NotAmong(out, n, k) ==> NotAmong(out + [a], n, k)
  {
    GoalOfPrefix(out, [a], acked);
    ComingGrows(out, [a]);
    assert [a][0].key == a.key;
  }

  /** Answers of an earlier upload that do this one no harm: none says more than
      the first chunk or the end of the image, none is a refusal, and none has
      the sequence number `key` of the first chunk. */
  ghost predicate HarmlessFor(image: Bytes, chunk: nat, key: nat, out: seq<Answer>, replies: seq<Reply>) {
    && Harmless(image, chunk, out, |out|)
    && (forall a | a in out :: a.key != key)
    && (forall r | r in replies :: r.Reached?)
  }

  ghost predicate Coming(out: seq<Answer>, k: nat) {
    exists i: nat | i < |out| :: out[i].key == k
  }

  lemma ComingGrows(out: seq<Answer>, more: seq<Answer>)
    ensures forall k :: Coming(out, k) || Coming(more, k) ==> Coming(out + more, k)
  {
    forall k | Coming(out, k) || Coming(more, k)
      ensures Coming(out + more, k)
    {
      if Coming(out, k) {
        var i: nat :| i < |out| && out[i].key == k;
        assert (out + more)[i].key == k;
      } else {
        var i: nat :| i < |more| && more[i].key == k;
        assert (out + more)[|out| + i].key == k;
      }
    }
  }

  /** The whole upload.  It ends; `Done` means the keyboard holds the image, and
      in any case it holds a prefix of it or was never reached.  Giving up
      takes more than `RETRIES` faults, and without faults the upload is done.
      The client drops the replies that have arrived.  Others of an earlier
      upload may still be on their way, and so may its requests, as long as
      they are harmless and nothing else goes wrong. */
  method UploadImage(kb: Keyboard, image: Bytes, chunk: nat, seqNo: nat, arrived: nat) returns (outcome: Outcome)
    requires chunk > 0 && arrived <= |kb.replies|
    requires var out := Due(kb.content, kb.requests, kb.replies[arrived..]);
             out == [] || (kb.faults == 0 && HarmlessFor(image, chunk, seqNo % 256, out, kb.replies[arrived..]))
    modifies kb
    ensures outcome == Done && image != [] ==> kb.content == image
    ensures kb.content <= image || kb.content == old(kb.content)
    ensures outcome == NoAnswer ==> old(kb.faults) - kb.faults > RETRIES
    ensures outcome == UploadRefused ==> kb.faults < old(kb.faults)
    ensures old(kb.faults) == 0 ==> outcome == Done
  {
    kb.replies := kb.replies[arrived..];   // frames left from earlier requests
    kb.started, kb.late := false, |kb.replies| + |kb.requests|;
    var c := new Client(kb, image, chunk, seqNo);
    outcome := c.Rounds();
    if outcome == Done && image != [] {
      HoldsPrefix(image, chunk, |image|, kb.faults == 0, kb.content, kb.started, kb.requests, kb.replies, kb.late);
    }
  }
}
