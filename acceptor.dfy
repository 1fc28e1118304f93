/**
 * The acceptor's promise/accept state machine. `OnPrepare` and `OnAccept`
 * give the meaning of the two handlers as functions of the acceptor's state;
 * the class `Acceptor` holds that state in mutable fields, as the source does,
 * and its methods are proved to perform exactly those transitions.
 */
module AcceptorModel {
  import opened Messages

  /** The three fields the handlers read and write. */
  datatype AcceptorState<V> = AcceptorState(promiseID: ProposalID, acceptedID: ProposalID, acceptedValue: Option<V>)

  /** A fresh or cleaned acceptor: everything zero or nil. */
  function Initial<V>(): AcceptorState<V>
  {
    AcceptorState(Zero, Zero, None)
  }

  /** The acceptor never holds an accepted number above its promise. */
  predicate Consistent<V>(s: AcceptorState<V>)
  {
    LessEq(s.acceptedID, s.promiseID)
  }

  datatype PrepareStep<V> = PrepareStep(next: AcceptorState<V>, reply: PromiseMsg<V>)

  datatype AcceptStep<V> = AcceptStep(next: AcceptorState<V>, reply: AcceptedMsg)

  /**
   * Handling of a prepare request by the acceptor at `addr`. It promises only
   * to a strictly larger number, and reports its previously accepted pair only
   * when it promises and has accepted a non-nil value under a non-zero number.
   */
  function OnPrepare<V>(s: AcceptorState<V>, addr: string, arg: PrepareMsg): (r: PrepareStep<V>)
    ensures r.reply.proposeID == arg.proposeID && r.reply.acceptorAddr == addr
    ensures r.reply.success <==> Less(s.promiseID, arg.proposeID)
    ensures r.reply.success ==> r.next == s.(promiseID := arg.proposeID)
    ensures !r.reply.success ==> r.next == s
    ensures r.reply.accepedValue.Some? <==>
              r.reply.success && Less(Zero, s.acceptedID) && s.acceptedValue.Some?
    ensures r.reply.accepedValue.Some? ==>
              r.reply.accepedID == s.acceptedID && r.reply.accepedValue == s.acceptedValue
    ensures r.reply.accepedValue.None? ==> r.reply.accepedID == Zero
  {
    var reply := EmptyPromise<V>().(proposeID := arg.proposeID, acceptorAddr := addr);
    if Less(s.promiseID, arg.proposeID) then
      var promised := reply.(success := true);
      PrepareStep(
        s.(promiseID := arg.proposeID),
        if Less(Zero, s.acceptedID) && s.acceptedValue.Some?
        then promised.(accepedID := s.acceptedID, accepedValue := s.acceptedValue)
        else promised)
    else
      PrepareStep(s, reply)
  }

  /**
   * Handling of an accept request by the acceptor at `addr`. It accepts only a
   * number equal to its last promise; only then does the reply carry its address.
   */
  function OnAccept<V>(s: AcceptorState<V>, addr: string, arg: AcceptMsg<V>): (r: AcceptStep<V>)
    ensures r.reply.proposeID == arg.proposeID
    ensures r.reply.success <==> arg.proposeID == s.promiseID
    ensures r.reply.success ==>
              r.next == AcceptorState(arg.proposeID, arg.proposeID, arg.value) && r.reply.acceptorAddr == addr
    ensures !r.reply.success ==> r.next == s && r.reply.acceptorAddr == ""
  {
    var reply := EmptyAccepted().(proposeID := arg.proposeID);
    if arg.proposeID == s.promiseID then
      AcceptStep(AcceptorState(arg.proposeID, arg.proposeID, arg.value), reply.(success := true, acceptorAddr := addr))
    else
      AcceptStep(s, reply)
  }

  /** Both handlers keep `acceptedID <= promiseID`, and never lower the promise. */
  lemma HandlersKeepConsistent<V>(s: AcceptorState<V>, addr: string, p: PrepareMsg, a: AcceptMsg<V>)
    requires Consistent(s)
    ensures Consistent(OnPrepare(s, addr, p).next) && LessEq(s.promiseID, OnPrepare(s, addr, p).next.promiseID)
    ensures Consistent(OnAccept(s, addr, a).next) && LessEq(s.promiseID, OnAccept(s, addr, a).next.promiseID)
  {
    LessIsStrictTotalOrder(s.acceptedID, s.promiseID, p.proposeID);
  }

  /** One request delivered to an acceptor. */
  datatype Request<V> = Prepare(prepare: PrepareMsg) | Accept(accept: AcceptMsg<V>)

  function Handle<V>(s: AcceptorState<V>, addr: string, req: Request<V>): AcceptorState<V>
  {
    match req
    case Prepare(p) => OnPrepare(s, addr, p).next
    case Accept(a) => OnAccept(s, addr, a).next
  }

  /** The state after handling `reqs` in order. */
  function Run<V>(s: AcceptorState<V>, addr: string, reqs: seq<Request<V>>): AcceptorState<V>
    decreases |reqs|
  {
    if reqs == [] then s else Run(Handle(s, addr, reqs[0]), addr, reqs[1..])
  }

  /**
   * Over any sequence of prepare and accept requests the promise never
   * decreases, the accepted number never decreases, and `acceptedID <= promiseID`
   * keeps holding.
   */
  lemma {:induction false} RunIsMonotone<V>(s: AcceptorState<V>, addr: string, reqs: seq<Request<V>>)
    requires Consistent(s)
    ensures Consistent(Run(s, addr, reqs))
    ensures LessEq(s.promiseID, Run(s, addr, reqs).promiseID)
    ensures LessEq(s.acceptedID, Run(s, addr, reqs).acceptedID)
    decreases |reqs|
  {
    if reqs != [] {
      var t := Handle(s, addr, reqs[0]);
      assert Consistent(t) && LessEq(s.promiseID, t.promiseID) && LessEq(s.acceptedID, t.acceptedID) by {
        LessIsStrictTotalOrder(s.acceptedID, s.promiseID, t.promiseID);
      }
      RunIsMonotone(t, addr, reqs[1..]);
      var u := Run(t, addr, reqs[1..]);
      LessIsStrictTotalOrder(s.promiseID, t.promiseID, u.promiseID);
      LessIsStrictTotalOrder(s.acceptedID, t.acceptedID, u.acceptedID);
    }
  }

  /**
   * Once an acceptor has promised `n`, no later accept request numbered below
   * `n` succeeds, whatever requests come in between.
   */
  lemma PromiseRejectsLowerAccepts<V>(s: AcceptorState<V>, addr: string, reqs: seq<Request<V>>, n: ProposalID, a: AcceptMsg<V>)
    requires Consistent(s) && LessEq(n, s.promiseID) && Less(a.proposeID, n)
    ensures !OnAccept(Run(s, addr, reqs), addr, a).reply.success
  {
    RunIsMonotone(s, addr, reqs);
    var t := Run(s, addr, reqs);
    LessIsStrictTotalOrder(n, s.promiseID, t.promiseID);
    LessIsStrictTotalOrder(a.proposeID, n, t.promiseID);
  }

  /**
   * Resending an identical accept request right after it succeeded succeeds
   * again with the same reply, and leaves the state as the first one left it.
   */
  lemma AcceptResendIsIdempotent<V>(s: AcceptorState<V>, addr: string, a: AcceptMsg<V>)
    requires OnAccept(s, addr, a).reply.success
    ensures OnAccept(OnAccept(s, addr, a).next, addr, a) == OnAccept(s, addr, a)
  {
  }

  /** A learner notification: the accepted reply, sent to one learner address. */
  datatype LearnerCall = LearnerCall(peer: string, msg: AcceptedMsg)

  /**
   * An acceptor. Its handlers fill a reply, and a successful accept returns
   * the list of learner notifications it issues. `Valid` is the class
   * invariant: the constructor and `Clean` establish it and every handler keeps it.
   */
  class Acceptor<V> {
    const localAddr: string
    const learnerPeers: seq<string>
    var promiseID: ProposalID
    var acceptedID: ProposalID
    var acceptedValue: Option<V>

    function State(): AcceptorState<V>
      reads this
    {
      AcceptorState(promiseID, acceptedID, acceptedValue)
    }

    predicate Valid()
      reads this
    {
      Consistent(State())
    }

    constructor (addr: string, learners: seq<string>)
      ensures localAddr == addr && learnerPeers == learners
      ensures State() == Initial() && Valid()
    {
      localAddr := addr;
      learnerPeers := learners;
      promiseID := Zero;
      acceptedID := Zero;
      acceptedValue := None;
    }

    method RecievePrepare(arg: PrepareMsg) returns (reply: PromiseMsg<V>)
      requires Valid()
      modifies this
      ensures State() == OnPrepare(old(State()), localAddr, arg).next
      ensures reply == OnPrepare(old(State()), localAddr, arg).reply
      ensures Valid()
    {
      reply := EmptyPromise();
      reply := reply.(proposeID := arg.proposeID);
      reply := reply.(acceptorAddr := localAddr);
      if Less(promiseID, arg.proposeID) {
        LessIsStrictTotalOrder(acceptedID, promiseID, arg.proposeID);
        promiseID := arg.proposeID;
        reply := reply.(success := true);
        if Less(Zero, acceptedID) && acceptedValue.Some? {
          reply := reply.(accepedID := acceptedID);
          reply := reply.(accepedValue := acceptedValue);
        }
      }
    }

    method RecieveAccept(arg: AcceptMsg<V>) returns (reply: AcceptedMsg, calls: seq<LearnerCall>)
      requires Valid()
      modifies this
      ensures State() == OnAccept(old(State()), localAddr, arg).next
      ensures reply == OnAccept(old(State()), localAddr, arg).reply
      ensures Valid()
      ensures |calls| == (if reply.success then |learnerPeers| else 0)
      ensures forall k :: 0 <= k < |calls| ==> calls[k] == LearnerCall(learnerPeers[k], reply)
    {
      reply := EmptyAccepted();
      reply := reply.(proposeID := arg.proposeID);
      calls := [];
      if arg.proposeID == promiseID {
        reply := reply.(success := true);
        reply := reply.(acceptorAddr := localAddr);
        promiseID := arg.proposeID;
        acceptedID := arg.proposeID;
        acceptedValue := arg.value;
        for i := 0 to |learnerPeers|
          invariant |calls| == i
          invariant forall k :: 0 <= k < i ==> calls[k] == LearnerCall(learnerPeers[k], reply)
        {
          calls := calls + [LearnerCall(learnerPeers[i], reply)];
        }
      }
    }

    method Clean()
      modifies this
      ensures State() == Initial() && Valid()
    {
      promiseID := Zero;
      acceptedID := Zero;
      acceptedValue := None;
    }
  }
}
