/** That answers arrive: a call within the limits is made, every step takes it on, and none is left pending. */
module CallAnswers {
  import opened CallBridge

  // ----- each step takes a call on

  /** A call is made exactly within the four limits, under the next number. */
  lemma CallIsMadeExactly(b: Bridge, args: Arguments)
    ensures var h, c := b.harness, Do(b, Call(args));
            if h.callsMade < 500 && |h.pending| < 16 && args.Serialized? && |args.json| <= 262144
            then c == b.(harness := c.harness, calls := b.calls + [h.nextId])
                 && c.harness.pending == h.pending + {h.nextId} && c.harness.settled == h.settled
                 && c.harness.callsMade == h.callsMade + 1 && c.harness.nextId == h.nextId + 1
            else c == b
  {
  }

  /** The supervisor takes the call lines in order, and then waits for the backend. */
  lemma RegisteredCallWaits(b: Bridge, id: nat, rest: seq<nat>)
    requires b.calls == [id] + rest
    ensures var c := Do(b, Register);
            c.calls == rest && id in c.waiting && c.answers == b.answers && c.harness == b.harness
  {
    assert b.calls[0] == id && b.calls[1..] == rest;
  }

  /** Without a backend the call is answered at once, as lost. */
  lemma CallWithoutBackendIsLost(b: Bridge, id: nat, rest: seq<nat>)
    requires b.calls == [id] + rest && id !in b.first
    ensures var c := Do(b, RegisterWithoutBackend);
            && c.calls == rest && c.harness == b.harness
            && c.answers == b.answers + multiset{(id, LOST)} && c.first == b.first[id := LOST]
  {
    assert b.calls[0] == id && b.calls[1..] == rest;
  }

  /** The first reply of the backend goes back to the sandbox. */
  lemma FirstReplyGoesBack(b: Bridge, id: nat, reply: Reply)
    requires id in b.waiting && id !in b.first
    ensures var c := Do(b, Answer(id, reply));
            && c.answers == b.answers + multiset{(id, reply)} && c.first == b.first[id := reply]
            && id !in c.waiting && c.harness == b.harness
  {
  }

  /** An answer that arrives settles its call with the reply, and frees its place. */
  lemma DeliveredAnswerSettles(b: Bridge, id: nat, reply: Reply)
    requires id in b.harness.pending && id !in b.harness.settled && (id, reply) in b.answers
    ensures var h := Do(b, Deliver(id, reply)).harness;
            && h.pending == b.harness.pending - {id}
            && h.settled == b.harness.settled[id := Answered(reply)]
  {
  }

  lemma DeliveryAnswersPending(b: Bridge, id: nat, reply: Reply)
    requires Sound(b) && id in b.harness.pending && (id, reply) in b.answers
    ensures var h := Do(b, Deliver(id, reply)).harness;
            && id !in h.pending && id in h.settled && h.settled[id] == Answered(reply)
            && |h.pending| == |b.harness.pending| - 1
  {
    DeliveredAnswerSettles(b, id, reply);
  }

  /** A call line that cannot be written rejects its call; the end of the run rejects all that are left. */
  lemma OtherCallsAreRejected(b: Bridge, id: nat)
    requires Sound(b)
    ensures id in b.harness.pending ==>
              var h := Do(b, CallWriteFails(id)).harness;
              id !in h.pending && id in h.settled && h.settled[id] == SendFailed
    ensures b.harness.finished ==>
              var h := Do(b, RejectPending).harness;
              && h.pending == {}
              && (id in b.harness.pending ==> id in h.settled && h.settled[id] == RunEnded)
  {
  }

  lemma FinishSendsOnce(b: Bridge)
    ensures Do(b, Finish).harness.finished
    ensures Do(b, Finish).results == b.results + if b.harness.finished then 0 else 1
  {
  }

  // ----- no call is forgotten

  /**
   A pending call is on its way to the supervisor, or the backend owes its first reply, or
   that reply is on its way back.
   */
  ghost predicate IsUnderWay(b: Bridge, id: nat) {
    || id in b.calls
    || (id in b.waiting && id !in b.first)
    || (id in b.first && (id, b.first[id]) in b.answers)
  }

  ghost predicate NoneForgotten(b: Bridge) {
    forall id :: id in b.harness.pending ==> IsUnderWay(b, id)
  }

  lemma CallIsUnderWay(b: Bridge, args: Arguments)
    requires NoneForgotten(b)
    ensures NoneForgotten(Do(b, Call(args)))
  {
    var c := Do(b, Call(args));
    forall id | id in c.harness.pending
      ensures IsUnderWay(c, id)
    {
      if id in b.harness.pending {
        assert IsUnderWay(b, id);
      }
    }
  }

  lemma RegisterForgetsNone(b: Bridge, a: Action)
    requires Sound(b) && NoneForgotten(b) && (a.Register? || a.RegisterWithoutBackend?)
    ensures NoneForgotten(Do(b, a))
  {
    var c := Do(b, a);
    if b.calls != [] {
      forall id | id in c.harness.pending
        ensures IsUnderWay(c, id)
      {
        assert IsUnderWay(b, id);
        assert b.calls == [b.calls[0]] + b.calls[1..];
      }
    }
  }

  lemma AnswerForgetsNone(b: Bridge, id: nat, reply: Reply)
    requires NoneForgotten(b)
    ensures NoneForgotten(Do(b, Answer(id, reply)))
  {
    var c := Do(b, Answer(id, reply));
    forall i | i in c.harness.pending
      ensures IsUnderWay(c, i)
    {
      assert IsUnderWay(b, i);
    }
  }

  lemma DeliverForgetsNone(b: Bridge, id: nat, reply: Reply)
    requires NoneForgotten(b)
    ensures NoneForgotten(Do(b, Deliver(id, reply)))
  {
    var c := Do(b, Deliver(id, reply));
    forall i | i in c.harness.pending
      ensures IsUnderWay(c, i)
    {
      assert IsUnderWay(b, i);
      if (id, reply) in b.answers && id in b.harness.pending {
        assert i != id;
      }
    }
  }

  lemma DoForgetsNone(b: Bridge, a: Action)
    requires Sound(b) && NoneForgotten(b)
    ensures NoneForgotten(Do(b, a))
  {
    match a
    case Call(args) => CallIsUnderWay(b, args);
    case Register => RegisterForgetsNone(b, a);
    case RegisterWithoutBackend => RegisterForgetsNone(b, a);
    case Answer(id, reply) => AnswerForgetsNone(b, id, reply);
    case Deliver(id, reply) => DeliverForgetsNone(b, id, reply);
    case _ => FewerPending(b, Do(b, a));
  }

  lemma FewerPending(b: Bridge, c: Bridge)
    requires NoneForgotten(b) && c.harness.pending <= b.harness.pending
    requires c.calls == b.calls && c.waiting == b.waiting && c.first == b.first && c.answers == b.answers
    ensures NoneForgotten(c)
  {
    forall id | id in c.harness.pending
      ensures IsUnderWay(c, id)
    {
      assert IsUnderWay(b, id);
    }
  }

  /** In every run each pending call is under way. */
  lemma {:induction false} RunForgetsNone(b: Bridge, actions: seq<Action>)
    requires b == START || (Sound(b) && NoneForgotten(b))
    ensures Sound(Run(b, actions)) && NoneForgotten(Run(b, actions))
    decreases |actions|
  {
    RunIsSound(b, []);
    if actions != [] {
      DoKeepsSound(b, actions[0]);
      DoForgetsNone(b, actions[0]);
      RunForgetsNone(Do(b, actions[0]), actions[1..]);
    }
  }

  /** So once all lines are handled and the backend owes no reply, no call is left pending. */
  lemma NothingStaysPending(actions: seq<Action>)
    ensures var b := Run(START, actions);
            b.calls == [] && b.answers == multiset{} && b.waiting <= b.first.Keys ==> b.harness.pending == {}
  {
    var b := Run(START, actions);
    RunForgetsNone(START, actions);
    if b.calls == [] && b.answers == multiset{} && b.waiting <= b.first.Keys {
      assert forall id :: !IsUnderWay(b, id);
      assert forall id :: id !in b.harness.pending;
    }
  }
}
