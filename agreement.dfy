/**
 * Agreement across a cluster. A system state holds every acceptor's state,
 * every proposer's round bookkeeping and the history of what was sent: the
 * granted promises, the accept requests (proposals) and the successful accepts
 * (votes). Each step is one atomic action of one role: a proposer starting a
 * round, taking in a promise reply, sending its accept request after a promise
 * quorum, or deciding after an accept quorum; an acceptor handling one prepare
 * or accept request, which may be stale or duplicated. Every proposer that
 * decides decides the same value.
 */
module Agreement {
  import opened Messages
  import opened Numbering
  import opened AcceptorModel
  import opened ProposerModel

  /** An accept request some proposer sent: number and (non-nil) value. */
  datatype Proposal<V> = Proposal(id: ProposalID, value: V)

  /** A granted promise reply sent by acceptor number `acceptor`. */
  datatype Promise<V> = Promise(acceptor: nat, reply: PromiseMsg<V>)

  /** Acceptor number `acceptor` accepted `proposal`. */
  datatype Vote<V> = Vote(acceptor: nat, proposal: Proposal<V>)

  /**
   * The fields of one proposer that its rounds use; `sent` is the accept
   * request of its current round once sent.
   */
  datatype ProposerView<V> = ProposerView(
    me: nat,
    proposerID: ProposalID,
    currentValue: V,
    adopted: Adopted<V>,
    sent: Option<Proposal<V>>,
    decidedValue: Option<V>)

  datatype System<V(==)> = System(
    addrs: seq<string>,
    acceptors: seq<AcceptorState<V>>,
    proposers: seq<ProposerView<V>>,
    promises: set<Promise<V>>,
    proposals: set<Proposal<V>>,
    votes: set<Vote<V>>)

  // ---------------------------------------------------------------------
  // Quorums.

  predicate IsQuorum(q: set<nat>, n: nat)
  {
    (forall a :: a in q ==> a < n) && |q| >= QuorumSize(n)
  }

  /** Any two quorums of the same cluster share an acceptor. */
  lemma QuorumsIntersect(q1: set<nat>, q2: set<nat>, n: nat) returns (a: nat)
    requires IsQuorum(q1, n) && IsQuorum(q2, n)
    ensures a in q1 && a in q2
  {
    if q1 * q2 == {} {
      assert |q1 + q2| == |q1| + |q2|;
      SubsetSize(q1 + q2, Range(n));
      assert false;
    }
    a :| a in q1 * q2;
  }

  // ---------------------------------------------------------------------
  // Chosen values and the safety predicate.

  ghost predicate AllVoted<V>(votes: set<Vote<V>>, q: set<nat>, x: Proposal<V>)
  {
    forall a :: a in q ==> Vote(a, x) in votes
  }

  /** A quorum of acceptors accepted `x`. */
  ghost predicate Chosen<V>(n: nat, votes: set<Vote<V>>, x: Proposal<V>)
  {
    exists q :: IsQuorum(q, n) && AllVoted(votes, q, x)
  }

  ghost predicate NoVoteAt<V>(votes: set<Vote<V>>, a: nat, c: ProposalID)
  {
    forall w :: w in votes && w.acceptor == a ==> w.proposal.id != c
  }

  /**
   * Quorum `q` shows that no value other than `v` can be chosen at number `c`:
   * each member either accepted `v` at `c`, or did not accept at `c` and has
   * promised a higher number, which rules out accepting at `c` later.
   */
  ghost predicate ShowsSafe<V>(acceptors: seq<AcceptorState<V>>, votes: set<Vote<V>>, q: set<nat>, c: ProposalID, v: V)
  {
    && IsQuorum(q, |acceptors|)
    && forall a :: a in q ==>
         Vote(a, Proposal(c, v)) in votes || (NoVoteAt(votes, a, c) && Less(c, acceptors[a].promiseID))
  }

  /** Below `x`'s number, no value other than `x`'s can ever be chosen. */
  ghost predicate SafeAt<V>(acceptors: seq<AcceptorState<V>>, votes: set<Vote<V>>, x: Proposal<V>)
  {
    forall c :: Less(c, x.id) ==> exists q :: ShowsSafe(acceptors, votes, q, c, x.value)
  }

  // ---------------------------------------------------------------------
  // Initial states and steps.

  ghost predicate DistinctIdentities<V>(proposers: seq<ProposerView<V>>)
  {
    forall i, j :: 0 <= i < j < |proposers| ==> proposers[i].me != proposers[j].me
  }

  ghost predicate Init<V>(s: System<V>)
  {
    && |s.addrs| == |s.acceptors|
    && (forall a :: 0 <= a < |s.acceptors| ==> s.acceptors[a] == Initial())
    && DistinctIdentities(s.proposers)
    && (forall i :: 0 <= i < |s.proposers| ==>
          && s.proposers[i].proposerID == Zero
          && s.proposers[i].adopted == Adopted(Zero, None)
          && s.proposers[i].sent == None
          && s.proposers[i].decidedValue == None)
    && s.promises == {} && s.proposals == {} && s.votes == {}
  }

  datatype Step<V> =
    | StartRound(i: nat)
    | ReceivePromise(i: nat, p: Promise<V>)
    | SendAccept(i: nat, q: set<nat>)
    | Decide(i: nat, q: set<nat>)
    | DeliverPrepare(a: nat, id: ProposalID)
    | DeliverAccept(a: nat, x: Proposal<V>)

  /** Acceptor `a` granted a promise for `n` whose report is at most `hid`. */
  ghost predicate PromisedTo<V>(s: System<V>, a: nat, n: ProposalID, hid: ProposalID)
  {
    exists p :: p in s.promises && p.acceptor == a && p.reply.proposeID == n && LessEq(p.reply.accepedID, hid)
  }

  /** The value a proposer puts in its accept request: the adopted one if any, else its own. */
  function RequestValue<V>(p: ProposerView<V>): V
  {
    ChooseValue(p.adopted.value, Some(p.currentValue)).value
  }

  ghost predicate NextStep<V>(s: System<V>, s': System<V>, step: Step<V>)
  {
    match step
    case StartRound(i) =>
      // `prepare`: a proposer that has not decided draws its next number.
      && i < |s.proposers|
      && var p := s.proposers[i];
      && p.decidedValue.None?
      && s' == s.(proposers := s.proposers[i := p.(proposerID := GenerateNumber(p.me, p.proposerID), sent := None)])
    case ReceivePromise(i, pr) =>
      // `setAccepted`, for a granted reply to one of this proposer's prepares with a non-zero report.
      && i < |s.proposers|
      && var p := s.proposers[i];
      && pr in s.promises
      && pr.reply.proposeID.proposer == p.me && LessEq(pr.reply.proposeID, p.proposerID)
      && Less(Zero, pr.reply.accepedID)
      && s' == s.(proposers := s.proposers[i := p.(adopted := Adopt(p.adopted, pr.reply))])
    case SendAccept(i, q) =>
      // `accept`, after a promise quorum for the current number whose reports were taken in.
      && i < |s.proposers|
      && var p := s.proposers[i];
      && p.sent.None? && p.decidedValue.None? && Less(Zero, p.proposerID)
      && IsQuorum(q, |s.acceptors|)
      && (forall a :: a in q ==> PromisedTo(s, a, p.proposerID, p.adopted.id))
      && var x := Proposal(p.proposerID, RequestValue(p));
      && s' == s.(proposers := s.proposers[i := p.(sent := Some(x))], proposals := s.proposals + {x})
    case Decide(i, q) =>
      // An accept quorum for the request of the current round decides its value.
      && i < |s.proposers|
      && var p := s.proposers[i];
      && p.sent.Some? && p.decidedValue.None?
      && IsQuorum(q, |s.acceptors|) && AllVoted(s.votes, q, p.sent.value)
      && s' == s.(proposers := s.proposers[i := p.(decidedValue := Some(p.sent.value.value))])
    case DeliverPrepare(a, id) =>
      && a < |s.acceptors| && |s.addrs| == |s.acceptors|
      && var r := OnPrepare(s.acceptors[a], s.addrs[a], PrepareMsg(id));
      && s' == s.(acceptors := s.acceptors[a := r.next],
                  promises := s.promises + (if r.reply.success then {Promise(a, r.reply)} else {}))
    case DeliverAccept(a, x) =>
      && a < |s.acceptors| && |s.addrs| == |s.acceptors|
      && x in s.proposals
      && var r := OnAccept(s.acceptors[a], s.addrs[a], AcceptMsg(x.id, "", Some(x.value)));
      && s' == s.(acceptors := s.acceptors[a := r.next],
                  votes := s.votes + (if r.reply.success then {Vote(a, x)} else {}))
  }

  ghost predicate Next<V(!new)>(s: System<V>, s': System<V>)
  {
    exists step :: NextStep(s, s', step)
  }

  /** Every two proposers that have decided hold the same value. */
  ghost predicate Agreement<V>(s: System<V>)
  {
    forall i, j ::
      && 0 <= i < |s.proposers| && 0 <= j < |s.proposers|
      && s.proposers[i].decidedValue.Some? && s.proposers[j].decidedValue.Some?
      ==> s.proposers[i].decidedValue == s.proposers[j].decidedValue
  }

  // ---------------------------------------------------------------------
  // The inductive invariant.

  ghost predicate ProposerOk<V>(s: System<V>, p: ProposerView<V>)
  {
    && (p.proposerID == Zero || p.proposerID.proposer == p.me)
    && (p.adopted.value.None? <==> p.adopted.id == Zero)
    && (p.adopted.value.Some? ==> Proposal(p.adopted.id, p.adopted.value.value) in s.proposals)
    && (p.adopted.id == Zero || Less(p.adopted.id, p.proposerID))
    && (p.sent.Some? ==> p.sent.value in s.proposals && p.sent.value.id == p.proposerID)
    && (p.decidedValue.Some? ==>
          p.sent.Some? && p.decidedValue.value == p.sent.value.value && Chosen(|s.acceptors|, s.votes, p.sent.value))
  }

  /** A proposal carrying proposer `p`'s identity is numbered at most `p`'s current number, and is its sent request if equal. */
  ghost predicate OwnedBy<V>(p: ProposerView<V>, x: Proposal<V>)
  {
    x.id.proposer == p.me ==> LessEq(x.id, p.proposerID) && (x.id == p.proposerID ==> p.sent == Some(x))
  }

  ghost predicate AcceptorOk<V>(s: System<V>, a: nat)
    requires a < |s.acceptors|
  {
    var st := s.acceptors[a];
    && Consistent(st)
    && (st.acceptedValue.None? ==> st.acceptedID == Zero)
    && (st.acceptedValue.Some? ==> Vote(a, Proposal(st.acceptedID, st.acceptedValue.value)) in s.votes)
  }

  ghost predicate VoteOk<V>(s: System<V>, w: Vote<V>)
  {
    && w.acceptor < |s.acceptors|
    && w.proposal in s.proposals
    && LessEq(w.proposal.id, s.acceptors[w.acceptor].acceptedID)
  }

  /**
   * A granted promise: its number is at most the acceptor's promise, its report
   * is below it, the report is a vote of that acceptor, and the acceptor cast
   * no vote between the report and the promised number.
   */
  ghost predicate PromiseOk<V>(s: System<V>, p: Promise<V>)
  {
    && p.acceptor < |s.acceptors|
    && LessEq(p.reply.proposeID, s.acceptors[p.acceptor].promiseID)
    && Less(p.reply.accepedID, p.reply.proposeID)
    && (p.reply.accepedValue.None? ==> p.reply.accepedID == Zero)
    && (p.reply.accepedValue.Some? ==>
          Vote(p.acceptor, Proposal(p.reply.accepedID, p.reply.accepedValue.value)) in s.votes)
    && NoVoteBetween(s.votes, p.acceptor, p.reply.accepedID, p.reply.proposeID)
  }

  ghost predicate NoVoteBetween<V>(votes: set<Vote<V>>, a: nat, low: ProposalID, high: ProposalID)
  {
    forall w :: w in votes && w.acceptor == a && Less(w.proposal.id, high) ==> LessEq(w.proposal.id, low)
  }

  ghost predicate UniqueNumbers<V>(proposals: set<Proposal<V>>)
  {
    forall x, y :: x in proposals && y in proposals && x.id == y.id ==> x == y
  }

  ghost predicate Inv<V>(s: System<V>)
  {
    && |s.addrs| == |s.acceptors|
    && DistinctIdentities(s.proposers)
    && (forall i :: 0 <= i < |s.proposers| ==> ProposerOk(s, s.proposers[i]))
    && (forall x, i :: x in s.proposals && 0 <= i < |s.proposers| ==> OwnedBy(s.proposers[i], x))
    && (forall x :: x in s.proposals ==> Less(Zero, x.id))
    && UniqueNumbers(s.proposals)
    && (forall a :: 0 <= a < |s.acceptors| ==> AcceptorOk(s, a))
    && (forall w :: w in s.votes ==> VoteOk(s, w))
    && (forall p :: p in s.promises ==> PromiseOk(s, p))
    && (forall x :: x in s.proposals ==> SafeAt(s.acceptors, s.votes, x))
  }

  // ---------------------------------------------------------------------
  // Safety from the invariant.

  /** A chosen proposal and a higher proposal that is safe carry the same value. */
  lemma ChosenBindsHigherProposals<V>(s: System<V>, y: Proposal<V>, x: Proposal<V>)
    requires Inv(s) && y in s.proposals && x in s.proposals
    requires Chosen(|s.acceptors|, s.votes, y) && Less(y.id, x.id)
    ensures y.value == x.value
  {
    var n := |s.acceptors|;
    var q1 :| IsQuorum(q1, n) && AllVoted(s.votes, q1, y);
    var q2 :| ShowsSafe(s.acceptors, s.votes, q2, y.id, x.value);
    var a := QuorumsIntersect(q1, q2, n);
    assert Vote(a, y) in s.votes;
    if Vote(a, Proposal(y.id, x.value)) in s.votes {
      assert VoteOk(s, Vote(a, Proposal(y.id, x.value)));
    }
  }

  lemma InvImpliesAgreement<V>(s: System<V>)
    requires Inv(s)
    ensures Agreement(s)
  {
    forall i, j | 0 <= i < |s.proposers| && 0 <= j < |s.proposers| &&
      s.proposers[i].decidedValue.Some? && s.proposers[j].decidedValue.Some?
      ensures s.proposers[i].decidedValue == s.proposers[j].decidedValue
    {
      assert ProposerOk(s, s.proposers[i]) && ProposerOk(s, s.proposers[j]);
      var xi, xj := s.proposers[i].sent.value, s.proposers[j].sent.value;
      LessIsStrictTotalOrder(xi.id, xj.id, xj.id);
      if Less(xi.id, xj.id) {
        ChosenBindsHigherProposals(s, xi, xj);
      } else if Less(xj.id, xi.id) {
        ChosenBindsHigherProposals(s, xj, xi);
      }
    }
  }

  // ---------------------------------------------------------------------
  // The invariant holds initially and is preserved by every step.

  lemma InitEstablishesInv<V>(s: System<V>)
    requires Init(s)
    ensures Inv(s)
  {
    forall a | 0 <= a < |s.acceptors| ensures AcceptorOk(s, a) {
      assert s.acceptors[a] == Initial();
    }
  }

  /**
   * Safety shown by a quorum survives any step that only raises promises and
   * adds votes numbered at the voter's (previous) promise.
   */
  lemma SafeAtIsStable<V>(acc: seq<AcceptorState<V>>, votes: set<Vote<V>>,
                          acc': seq<AcceptorState<V>>, votes': set<Vote<V>>, x: Proposal<V>)
    requires |acc'| == |acc|
    requires forall a :: 0 <= a < |acc| ==> LessEq(acc[a].promiseID, acc'[a].promiseID)
    requires votes <= votes'
    requires forall w :: w in votes' && w !in votes ==> w.acceptor < |acc| && LessEq(acc[w.acceptor].promiseID, w.proposal.id)
    requires SafeAt(acc, votes, x)
    ensures SafeAt(acc', votes', x)
  {
    forall c | Less(c, x.id) ensures exists q :: ShowsSafe(acc', votes', q, c, x.value) {
      var q :| ShowsSafe(acc, votes, q, c, x.value);
      forall a | a in q
        ensures Vote(a, Proposal(c, x.value)) in votes' || (NoVoteAt(votes', a, c) && Less(c, acc'[a].promiseID))
      {
        if Vote(a, Proposal(c, x.value)) !in votes {
          LessIsStrictTotalOrder(c, acc[a].promiseID, acc'[a].promiseID);
          forall w | w in votes' && w.acceptor == a ensures w.proposal.id != c {
            if w !in votes {
              LessIsStrictTotalOrder(c, acc[a].promiseID, w.proposal.id);
            }
          }
        }
      }
      assert ShowsSafe(acc', votes', q, c, x.value);
    }
  }

  lemma ChosenIsStable<V>(n: nat, votes: set<Vote<V>>, votes': set<Vote<V>>, x: Proposal<V>)
    requires votes <= votes' && Chosen(n, votes, x)
    ensures Chosen(n, votes', x)
  {
    var q :| IsQuorum(q, n) && AllVoted(votes, q, x);
    assert AllVoted(votes', q, x);
  }

  lemma StartRoundKeepsInv<V>(s: System<V>, s': System<V>, i: nat)
    requires Inv(s) && NextStep(s, s', StartRound(i))
    ensures Inv(s')
  {
    var p := s.proposers[i];
    var p' := s'.proposers[i];
    assert DistinctIdentities(s'.proposers) by {
      forall j, k | 0 <= j < k < |s'.proposers| ensures s'.proposers[j].me != s'.proposers[k].me {
        assert s'.proposers[j].me == s.proposers[j].me && s'.proposers[k].me == s.proposers[k].me;
      }
    }
    assert ProposerOk(s, p);
    LessIsStrictTotalOrder(p.adopted.id, p.proposerID, p'.proposerID);
    assert ProposerOk(s', p');
    forall j | 0 <= j < |s'.proposers| ensures ProposerOk(s', s'.proposers[j]) {
      if j != i {
        assert ProposerOk(s, s.proposers[j]);
      }
    }
    forall x, j | x in s'.proposals && 0 <= j < |s'.proposers| ensures OwnedBy(s'.proposers[j], x) {
      assert OwnedBy(s.proposers[j], x);
      if j == i {
        LessIsStrictTotalOrder(x.id, p.proposerID, p'.proposerID);
      }
    }
    forall a | 0 <= a < |s'.acceptors| ensures AcceptorOk(s', a) {
      assert AcceptorOk(s, a);
    }
    forall w | w in s'.votes ensures VoteOk(s', w) {
      assert VoteOk(s, w);
    }
    forall pr | pr in s'.promises ensures PromiseOk(s', pr) {
      assert PromiseOk(s, pr);
    }
  }

  lemma ReceivePromiseKeepsInv<V>(s: System<V>, s': System<V>, i: nat, pr: Promise<V>)
    requires Inv(s) && NextStep(s, s', ReceivePromise(i, pr))
    ensures Inv(s')
  {
    var p := s.proposers[i];
    var p' := s'.proposers[i];
    assert DistinctIdentities(s'.proposers) by {
      forall j, k | 0 <= j < k < |s'.proposers| ensures s'.proposers[j].me != s'.proposers[k].me {
        assert s'.proposers[j].me == s.proposers[j].me && s'.proposers[k].me == s.proposers[k].me;
      }
    }
    assert ProposerOk(s, p);
    assert PromiseOk(s, pr);
    if Less(p.adopted.id, pr.reply.accepedID) {
      assert VoteOk(s, Vote(pr.acceptor, Proposal(pr.reply.accepedID, pr.reply.accepedValue.value)));
      LessIsStrictTotalOrder(pr.reply.accepedID, pr.reply.proposeID, p.proposerID);
    }
    assert ProposerOk(s', p');
    forall j | 0 <= j < |s'.proposers| ensures ProposerOk(s', s'.proposers[j]) {
      if j != i {
        assert ProposerOk(s, s.proposers[j]);
      }
    }
    forall x, j | x in s'.proposals && 0 <= j < |s'.proposers| ensures OwnedBy(s'.proposers[j], x) {
      assert OwnedBy(s.proposers[j], x);
    }
    forall a | 0 <= a < |s'.acceptors| ensures AcceptorOk(s', a) {
      assert AcceptorOk(s, a);
    }
    forall w | w in s'.votes ensures VoteOk(s', w) {
      assert VoteOk(s, w);
    }
    forall r | r in s'.promises ensures PromiseOk(s', r) {
      assert PromiseOk(s, r);
    }
  }

  lemma DecideKeepsInv<V>(s: System<V>, s': System<V>, i: nat, q: set<nat>)
    requires Inv(s) && NextStep(s, s', Decide(i, q))
    ensures Inv(s')
  {
    var p := s.proposers[i];
    var p' := s'.proposers[i];
    assert DistinctIdentities(s'.proposers) by {
      forall j, k | 0 <= j < k < |s'.proposers| ensures s'.proposers[j].me != s'.proposers[k].me {
        assert s'.proposers[j].me == s.proposers[j].me && s'.proposers[k].me == s.proposers[k].me;
      }
    }
    assert ProposerOk(s, p);
    assert Chosen(|s.acceptors|, s.votes, p.sent.value);
    assert ProposerOk(s', p');
    forall j | 0 <= j < |s'.proposers| ensures ProposerOk(s', s'.proposers[j]) {
      if j != i {
        assert ProposerOk(s, s.proposers[j]);
      }
    }
    forall x, j | x in s'.proposals && 0 <= j < |s'.proposers| ensures OwnedBy(s'.proposers[j], x) {
      assert OwnedBy(s.proposers[j], x);
    }
    forall a | 0 <= a < |s'.acceptors| ensures AcceptorOk(s', a) {
      assert AcceptorOk(s, a);
    }
    forall w | w in s'.votes ensures VoteOk(s', w) {
      assert VoteOk(s, w);
    }
    forall r | r in s'.promises ensures PromiseOk(s', r) {
      assert PromiseOk(s, r);
    }
  }

  /**
   * The heart of the proof: the accept request a proposer sends after a
   * promise quorum is safe, because it carries the value of the highest
   * report it took in, or any value when no member of the quorum reported one.
   */
  lemma RequestIsSafe<V>(s: System<V>, p: ProposerView<V>, q: set<nat>)
    requires Inv(s) && ProposerOk(s, p)
    requires IsQuorum(q, |s.acceptors|)
    requires forall a :: a in q ==> PromisedTo(s, a, p.proposerID, p.adopted.id)
    ensures SafeAt(s.acceptors, s.votes, Proposal(p.proposerID, RequestValue(p)))
  {
    var n := p.proposerID;
    var v := RequestValue(p);
    var hid := p.adopted.id;
    forall c | Less(c, n) ensures exists q' :: ShowsSafe(s.acceptors, s.votes, q', c, v) {
      LessIsStrictTotalOrder(c, hid, n);
      if Less(c, hid) {
        var z := Proposal(hid, p.adopted.value.value);
        assert SafeAt(s.acceptors, s.votes, z);
        var q' :| ShowsSafe(s.acceptors, s.votes, q', c, z.value);
        assert ShowsSafe(s.acceptors, s.votes, q', c, v);
      } else {
        forall a | a in q
          ensures Vote(a, Proposal(c, v)) in s.votes || (NoVoteAt(s.votes, a, c) && Less(c, s.acceptors[a].promiseID))
        {
          var pr :| pr in s.promises && pr.acceptor == a && pr.reply.proposeID == n && LessEq(pr.reply.accepedID, hid);
          assert PromiseOk(s, pr);
          LessIsStrictTotalOrder(c, n, s.acceptors[a].promiseID);
          if !NoVoteAt(s.votes, a, c) {
            var w :| w in s.votes && w.acceptor == a && w.proposal.id == c;
            assert VoteOk(s, w);
            LessIsStrictTotalOrder(c, pr.reply.accepedID, hid);
            assert c == hid;
            var z := Proposal(hid, p.adopted.value.value);
            assert w.proposal == z;
          }
        }
        assert ShowsSafe(s.acceptors, s.votes, q, c, v);
      }
    }
  }

  lemma SendAcceptKeepsInv<V>(s: System<V>, s': System<V>, i: nat, q: set<nat>)
    requires Inv(s) && NextStep(s, s', SendAccept(i, q))
    ensures Inv(s')
  {
    var p := s.proposers[i];
    var x := Proposal(p.proposerID, RequestValue(p));
    RequestIsSafe(s, p, q);
    SendAcceptKeepsProposers(s, s', i, q);
    NewProposalKeepsHistory(s, s');
    assert s'.proposals == s.proposals + {x};
    assert UniqueNumbers(s'.proposals);
    assert forall y :: y in s'.proposals ==> SafeAt(s'.acceptors, s'.votes, y);
  }

  /**
   * Sending the accept request keeps every proposer's bookkeeping and the
   * ownership of every request, and the new request's number is fresh.
   */
  lemma SendAcceptKeepsProposers<V>(s: System<V>, s': System<V>, i: nat, q: set<nat>)
    requires Inv(s) && NextStep(s, s', SendAccept(i, q))
    ensures DistinctIdentities(s'.proposers)
    ensures forall j :: 0 <= j < |s'.proposers| ==> ProposerOk(s', s'.proposers[j])
    ensures forall y, j :: y in s'.proposals && 0 <= j < |s'.proposers| ==> OwnedBy(s'.proposers[j], y)
    ensures forall y :: y in s.proposals ==> y.id != s.proposers[i].proposerID
  {
    var p := s.proposers[i];
    var p' := s'.proposers[i];
    var x := Proposal(p.proposerID, RequestValue(p));
    assert ProposerOk(s, p);
    assert DistinctIdentities(s'.proposers) by {
      forall j, k | 0 <= j < k < |s'.proposers| ensures s'.proposers[j].me != s'.proposers[k].me {
        assert s'.proposers[j].me == s.proposers[j].me && s'.proposers[k].me == s.proposers[k].me;
      }
    }
    forall y | y in s.proposals ensures y.id != x.id {
      assert OwnedBy(s.proposers[i], y);
    }
    assert ProposerOk(s', p');
    forall j | 0 <= j < |s'.proposers| ensures ProposerOk(s', s'.proposers[j]) {
      if j != i {
        assert ProposerOk(s, s.proposers[j]);
      }
    }
    forall y, j | y in s'.proposals && 0 <= j < |s'.proposers| ensures OwnedBy(s'.proposers[j], y) {
      if y == x {
        if j != i && x.id.proposer == s.proposers[j].me {
          assert false;
        }
      } else {
        assert OwnedBy(s.proposers[j], y);
      }
    }
  }

  /**
   * A step that only adds accept requests leaves every acceptor, vote and
   * promise fact, and the safety of every earlier request, intact.
   */
  lemma NewProposalKeepsHistory<V>(s: System<V>, s': System<V>)
    requires Inv(s) && s'.acceptors == s.acceptors && s'.votes == s.votes && s'.promises == s.promises
    requires s.proposals <= s'.proposals
    ensures forall a :: 0 <= a < |s'.acceptors| ==> AcceptorOk(s', a)
    ensures forall w :: w in s'.votes ==> VoteOk(s', w)
    ensures forall r :: r in s'.promises ==> PromiseOk(s', r)
    ensures forall x :: x in s.proposals ==> SafeAt(s'.acceptors, s'.votes, x)
  {
    forall a | 0 <= a < |s'.acceptors| ensures AcceptorOk(s', a) {
      assert AcceptorOk(s, a);
    }
    forall w | w in s'.votes ensures VoteOk(s', w) {
      assert VoteOk(s, w);
    }
    forall r | r in s'.promises ensures PromiseOk(s', r) {
      assert PromiseOk(s, r);
    }
  }

  lemma DeliverPrepareKeepsInv<V>(s: System<V>, s': System<V>, a: nat, id: ProposalID)
    requires Inv(s) && NextStep(s, s', DeliverPrepare(a, id))
    ensures Inv(s')
  {
    var st := s.acceptors[a];
    var r := OnPrepare(st, s.addrs[a], PrepareMsg(id));
    assert AcceptorOk(s, a);
    HandlersKeepConsistent(st, s.addrs[a], PrepareMsg(id), AcceptMsg(id, "", None));
    forall b | 0 <= b < |s.acceptors| ensures LessEq(s.acceptors[b].promiseID, s'.acceptors[b].promiseID) {
    }
    forall x | x in s'.proposals ensures SafeAt(s'.acceptors, s'.votes, x) {
      SafeAtIsStable(s.acceptors, s.votes, s'.acceptors, s'.votes, x);
    }
    forall j | 0 <= j < |s'.proposers| ensures ProposerOk(s', s.proposers[j]) {
      assert ProposerOk(s, s.proposers[j]);
    }
    forall b | 0 <= b < |s'.acceptors| ensures AcceptorOk(s', b) {
      assert AcceptorOk(s, b);
    }
    forall w | w in s'.votes ensures VoteOk(s', w) {
      assert VoteOk(s, w);
    }
    forall pr | pr in s'.promises ensures PromiseOk(s', pr) {
      if pr in s.promises {
        assert PromiseOk(s, pr);
        LessIsStrictTotalOrder(pr.reply.proposeID, s.acceptors[pr.acceptor].promiseID, s'.acceptors[pr.acceptor].promiseID);
      } else {
        assert pr == Promise(a, r.reply) && r.reply.success;
        LessIsStrictTotalOrder(Zero, st.promiseID, id);
        LessIsStrictTotalOrder(st.acceptedID, st.promiseID, id);
        forall w | w in s.votes && w.acceptor == a && Less(w.proposal.id, id)
          ensures LessEq(w.proposal.id, r.reply.accepedID)
        {
          assert VoteOk(s, w);
          LessIsStrictTotalOrder(Zero, w.proposal.id, st.acceptedID);
        }
      }
    }
  }

  lemma DeliverAcceptKeepsInv<V>(s: System<V>, s': System<V>, a: nat, x: Proposal<V>)
    requires Inv(s) && NextStep(s, s', DeliverAccept(a, x))
    ensures Inv(s')
  {
    var st := s.acceptors[a];
    var m := AcceptMsg(x.id, "", Some(x.value));
    var r := OnAccept(st, s.addrs[a], m);
    assert AcceptorOk(s, a);
    HandlersKeepConsistent(st, s.addrs[a], PrepareMsg(x.id), m);
    forall b | 0 <= b < |s.acceptors| ensures LessEq(s.acceptors[b].promiseID, s'.acceptors[b].promiseID) {
    }
    forall y | y in s'.proposals ensures SafeAt(s'.acceptors, s'.votes, y) {
      SafeAtIsStable(s.acceptors, s.votes, s'.acceptors, s'.votes, y);
    }
    forall j | 0 <= j < |s'.proposers| ensures ProposerOk(s', s.proposers[j]) {
      var p := s.proposers[j];
      assert ProposerOk(s, p);
      if p.decidedValue.Some? {
        ChosenIsStable(|s.acceptors|, s.votes, s'.votes, p.sent.value);
      }
    }
    forall b | 0 <= b < |s'.acceptors| ensures AcceptorOk(s', b) {
      assert AcceptorOk(s, b);
    }
    forall w | w in s'.votes ensures VoteOk(s', w) {
      if w in s.votes {
        assert VoteOk(s, w);
        if w.acceptor == a && r.reply.success {
          LessIsStrictTotalOrder(w.proposal.id, st.acceptedID, st.promiseID);
        }
      }
    }
    forall pr | pr in s'.promises ensures PromiseOk(s', pr) {
      assert PromiseOk(s, pr);
      if pr.acceptor == a && r.reply.success {
        forall w | w in s'.votes && w.acceptor == a && Less(w.proposal.id, pr.reply.proposeID)
          ensures LessEq(w.proposal.id, pr.reply.accepedID)
        {
          if w !in s.votes {
            assert w.proposal.id == st.promiseID;
            LessIsStrictTotalOrder(w.proposal.id, pr.reply.proposeID, st.promiseID);
          }
        }
      }
    }
  }

  lemma NextKeepsInv<V(!new)>(s: System<V>, s': System<V>)
    requires Inv(s) && Next(s, s')
    ensures Inv(s')
  {
    var step :| NextStep(s, s', step);
    match step
    case StartRound(i) => StartRoundKeepsInv(s, s', i);
    case ReceivePromise(i, pr) => ReceivePromiseKeepsInv(s, s', i, pr);
    case SendAccept(i, q) => SendAcceptKeepsInv(s, s', i, q);
    case Decide(i, q) => DecideKeepsInv(s, s', i, q);
    case DeliverPrepare(a, id) => DeliverPrepareKeepsInv(s, s', a, id);
    case DeliverAccept(a, x) => DeliverAcceptKeepsInv(s, s', a, x);
  }

  /**
   * Agreement along any run: in every state reached from an initial state by
   * steps, all proposers that have decided hold the same value.
   */
  lemma {:induction false} RunsAgree<V(!new)>(run: seq<System<V>>)
    requires |run| >= 1 && Init(run[0])
    requires forall k :: 0 <= k < |run| - 1 ==> Next(run[k], run[k + 1])
    ensures forall k :: 0 <= k < |run| ==> Agreement(run[k])
  {
    InitEstablishesInv(run[0]);
    for k := 0 to |run|
      invariant forall j :: 0 <= j < k ==> Inv(run[j])
      invariant k < |run| ==> Inv(run[k])
    {
      if k + 1 < |run| {
        NextKeepsInv(run[k], run[k + 1]);
      }
    }
    forall k | 0 <= k < |run| ensures Agreement(run[k]) {
      InvImpliesAgreement(run[k]);
    }
  }

  // ---------------------------------------------------------------------
  // As written, a promise is counted before its report is taken in.

  /** Acceptor `a` granted a promise for `n` (whatever it reported). */
  ghost predicate Granted<V>(s: System<V>, a: nat, n: ProposalID)
  {
    exists p :: p in s.promises && p.acceptor == a && p.reply.proposeID == n
  }

  /**
   * `SendAccept` as the source can interleave it: the success counter is raised
   * (proposer.go:90) before `setAccepted` takes in the reply's report
   * (proposer.go:95-97), and another reply's quorum check (proposer.go:72-74)
   * can let `accept` (proposer.go:116) read the adopted pair in between. So the
   * quorum's promises need only have been granted, not taken in.
   */
  ghost predicate SendAcceptBeforeAdoption<V>(s: System<V>, s': System<V>, i: nat, q: set<nat>)
  {
    && i < |s.proposers|
    && var p := s.proposers[i];
    && p.sent.None? && p.decidedValue.None? && Less(Zero, p.proposerID)
    && IsQuorum(q, |s.acceptors|)
    && (forall a :: a in q ==> Granted(s, a, p.proposerID))
    && var x := Proposal(p.proposerID, RequestValue(p));
    && s' == s.(proposers := s.proposers[i := p.(sent := Some(x))], proposals := s.proposals + {x})
  }

  /** The steps of the cluster as the source can interleave them. */
  ghost predicate NextAsWritten<V(!new)>(s: System<V>, s': System<V>)
  {
    Next(s, s') || exists i, q :: SendAcceptBeforeAdoption(s, s', i, q)
  }

  ghost predicate RunAsWritten<V(!new)>(run: seq<System<V>>)
  {
    forall k :: 0 <= k < |run| - 1 ==> NextAsWritten(run[k], run[k + 1])
  }

  // The counterexample run, state by state. Proposer 1 (own value 100) has
  // acceptors 1 and 2 promise and accept (1, 1), so 100 is chosen, and decides
  // it (states 0-7). Proposer 2 (own value 101) then prepares (1, 2): acceptor 0
  // grants with no report and acceptor 1 grants reporting (1, 1) and 100
  // (states 8-10). Both promises are counted before that report is taken in, so
  // proposer 2 sends its own 101, which acceptors 0 and 1 accept, and it
  // decides 101 (states 11-14).

  function Witness(k: int): System<int>
  {
    var n1 := ProposalID(1, 1);
    var n2 := ProposalID(1, 2);
    var x1 := Proposal(n1, 100);
    var x2 := Proposal(n2, 101);
    System(
      ["a0", "a1", "a2"],
      [ if k < 9 then Initial() else if k < 12 then AcceptorState(n2, Zero, None)
        else AcceptorState(n2, n2, Some(101)),
        if k < 2 then Initial() else if k < 5 then AcceptorState(n1, Zero, None)
        else if k < 10 then AcceptorState(n1, n1, Some(100))
        else if k < 13 then AcceptorState(n2, n1, Some(100))
        else AcceptorState(n2, n2, Some(101)),
        if k < 3 then Initial() else if k < 6 then AcceptorState(n1, Zero, None)
        else AcceptorState(n1, n1, Some(100)) ],
      [ ProposerView(1, if k < 1 then Zero else n1, 100, Adopted(Zero, None),
                     if k < 4 then None else Some(x1), if k < 7 then None else Some(100)),
        ProposerView(2, if k < 8 then Zero else n2, 101, Adopted(Zero, None),
                     if k < 11 then None else Some(x2), if k < 14 then None else Some(101)) ],
      (if k < 2 then {} else {Promise(1, PromiseMsg("a1", n1, true, Zero, None))})
        + (if k < 3 then {} else {Promise(2, PromiseMsg("a2", n1, true, Zero, None))})
        + (if k < 9 then {} else {Promise(0, PromiseMsg("a0", n2, true, Zero, None))})
        + (if k < 10 then {} else {Promise(1, PromiseMsg("a1", n2, true, n1, Some(100)))}),
      (if k < 4 then {} else {x1}) + (if k < 11 then {} else {x2}),
      (if k < 5 then {} else {Vote(1, x1)}) + (if k < 6 then {} else {Vote(2, x1)})
        + (if k < 12 then {} else {Vote(0, x2)}) + (if k < 13 then {} else {Vote(1, x2)}))
  }

  /** Steps 0-3: proposer 1 starts (1, 1) and acceptors 1 and 2 promise. */
  lemma FirstPrepareSteps(k: int)
    requires 0 <= k < 3
    ensures NextAsWritten(Witness(k), Witness(k + 1))
  {
    var n1 := ProposalID(1, 1);
    if k == 0 {
      assert NextStep(Witness(0), Witness(1), StartRound(0));
    } else if k == 1 {
      assert NextStep(Witness(1), Witness(2), DeliverPrepare(1, n1));
    } else {
      assert NextStep(Witness(2), Witness(3), DeliverPrepare(2, n1));
    }
  }

  /** Step 3: proposer 1 sends 100 on the promises of acceptors 1 and 2. */
  lemma FirstSendStep()
    ensures NextAsWritten(Witness(3), Witness(4))
  {
    var n1 := ProposalID(1, 1);
    var s, s' := Witness(3), Witness(4);
    var p := s.proposers[0];
    assert p == ProposerView(1, n1, 100, Adopted(Zero, None), None, None);
    assert |{1, 2}| == 2;
    assert IsQuorum({1, 2}, |s.acceptors|);
    assert Promise(1, PromiseMsg("a1", n1, true, Zero, None)) in s.promises;
    assert Promise(2, PromiseMsg("a2", n1, true, Zero, None)) in s.promises;
    assert forall a :: a in {1, 2} ==> PromisedTo(s, a, n1, Zero);
    var x := Proposal(p.proposerID, RequestValue(p));
    assert x == Proposal(n1, 100);
    assert s'.proposers == s.proposers[0 := p.(sent := Some(x))];
    assert s'.proposals == s.proposals + {x};
    assert s' == s.(proposers := s.proposers[0 := p.(sent := Some(x))], proposals := s.proposals + {x});
    assert NextStep(s, s', SendAccept(0, {1, 2}));
  }

  /** Steps 4-5: acceptors 1 and 2 accept 100 at (1, 1). */
  lemma FirstVoteSteps(k: int)
    requires 4 <= k < 6
    ensures NextAsWritten(Witness(k), Witness(k + 1))
  {
    var x1 := Proposal(ProposalID(1, 1), 100);
    if k == 4 {
      assert NextStep(Witness(4), Witness(5), DeliverAccept(1, x1));
    } else {
      assert NextStep(Witness(5), Witness(6), DeliverAccept(2, x1));
    }
  }

  /** Step 6: proposer 1 decides 100 on the accept quorum {1, 2}. */
  lemma FirstDecideStep()
    ensures NextAsWritten(Witness(6), Witness(7))
  {
    var s := Witness(6);
    var x1 := Proposal(ProposalID(1, 1), 100);
    assert |{1, 2}| == 2;
    assert s.proposers[0].sent == Some(x1);
    assert Vote(1, x1) in s.votes && Vote(2, x1) in s.votes;
    assert AllVoted(s.votes, {1, 2}, x1);
    assert NextStep(s, Witness(7), Decide(0, {1, 2}));
  }

  /** Steps 7-10: proposer 2 starts (1, 2) and acceptors 0 and 1 promise. */
  lemma SecondPrepareSteps(k: int)
    requires 7 <= k < 10
    ensures NextAsWritten(Witness(k), Witness(k + 1))
  {
    var n2 := ProposalID(1, 2);
    if k == 7 {
      assert NextStep(Witness(7), Witness(8), StartRound(1));
    } else if k == 8 {
      assert NextStep(Witness(8), Witness(9), DeliverPrepare(0, n2));
    } else {
      assert NextStep(Witness(9), Witness(10), DeliverPrepare(1, n2));
    }
  }

  /**
   * Step 10: proposer 2 sends its own 101 on the promises of acceptors 0 and 1,
   * the report (1, 1) and 100 of acceptor 1 not yet taken in.
   */
  lemma SecondSendStep()
    ensures NextAsWritten(Witness(10), Witness(11))
  {
    var n2 := ProposalID(1, 2);
    var s, s' := Witness(10), Witness(11);
    var p := s.proposers[1];
    assert p == ProposerView(2, n2, 101, Adopted(Zero, None), None, None);
    assert |{0, 1}| == 2;
    assert IsQuorum({0, 1}, |s.acceptors|);
    assert Promise(0, PromiseMsg("a0", n2, true, Zero, None)) in s.promises;
    assert Promise(1, PromiseMsg("a1", n2, true, ProposalID(1, 1), Some(100))) in s.promises;
    assert forall a :: a in {0, 1} ==> Granted(s, a, n2);
    var x := Proposal(p.proposerID, RequestValue(p));
    assert x == Proposal(n2, 101);
    assert s'.proposers == s.proposers[1 := p.(sent := Some(x))];
    assert s'.proposals == s.proposals + {x};
    assert s' == s.(proposers := s.proposers[1 := p.(sent := Some(x))], proposals := s.proposals + {x});
    assert SendAcceptBeforeAdoption(s, s', 1, {0, 1});
  }

  /** Steps 11-12: acceptors 0 and 1 accept 101 at (1, 2). */
  lemma SecondVoteSteps(k: int)
    requires 11 <= k < 13
    ensures NextAsWritten(Witness(k), Witness(k + 1))
  {
    var x2 := Proposal(ProposalID(1, 2), 101);
    if k == 11 {
      assert NextStep(Witness(11), Witness(12), DeliverAccept(0, x2));
    } else {
      assert NextStep(Witness(12), Witness(13), DeliverAccept(1, x2));
    }
  }

  /** Step 13: proposer 2 decides 101 on the accept quorum {0, 1}. */
  lemma SecondDecideStep()
    ensures NextAsWritten(Witness(13), Witness(14))
  {
    var s := Witness(13);
    var x2 := Proposal(ProposalID(1, 2), 101);
    assert |{0, 1}| == 2;
    assert s.proposers[1].sent == Some(x2);
    assert Vote(0, x2) in s.votes && Vote(1, x2) in s.votes;
    assert AllVoted(s.votes, {0, 1}, x2);
    assert NextStep(s, Witness(14), Decide(1, {0, 1}));
  }

  /**
   * Counterexample: with counting ahead of adoption, a run from fresh acceptors
   * and proposers (proposer 1 proposing 100, proposer 2 proposing 101, three
   * acceptors) ends with the two proposers deciding different values.
   */
  lemma CountingBeforeAdoptionDisagrees() returns (run: seq<System<int>>)
    ensures |run| >= 1 && Init(run[0]) && RunAsWritten(run)
    ensures !Agreement(run[|run| - 1])
  {
    run := seq(15, k => Witness(k));
    forall k | 0 <= k < |run| - 1 ensures NextAsWritten(run[k], run[k + 1]) {
      if k < 3 {
        FirstPrepareSteps(k);
      } else if k == 3 {
        FirstSendStep();
      } else if k < 6 {
        FirstVoteSteps(k);
      } else if k == 6 {
        FirstDecideStep();
      } else if k < 10 {
        SecondPrepareSteps(k);
      } else if k == 10 {
        SecondSendStep();
      } else if k < 13 {
        SecondVoteSteps(k);
      } else {
        SecondDecideStep();
      }
    }
    var last := Witness(14);
    assert last.proposers[0].decidedValue == Some(100) && last.proposers[1].decidedValue == Some(101);
  }
}
