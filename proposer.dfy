/**
 * The proposer's per-round bookkeeping: quorum size, classification of the
 * replies of one phase, counting them until a success or a failure quorum is
 * reached, adoption of previously accepted values, and the round loop of
 * `propose`. The concurrent fan-out of a phase is modelled as the sequence of
 * replies in the order they arrive; a phase whose replies run out before
 * either quorum is reached is the 200 ms timeout.
 */
module ProposerModel {
  import opened Messages
  import opened Numbering

  /** Quorum of `n` acceptors: the smallest strict majority. */
  function QuorumSize(n: nat): (q: nat)
    ensures 2 * q > n && 2 * (q - 1) <= n
    ensures n >= 1 ==> 1 <= q <= n
  {
    n / 2 + 1
  }

  lemma QuorumSizeExamples()
    ensures QuorumSize(1) == 1 && QuorumSize(3) == 2 && QuorumSize(4) == 3 && QuorumSize(5) == 3
  {
  }

  // ---------------------------------------------------------------------
  // Counting the replies of one phase.

  function CountSuccesses(vs: seq<bool>): nat
  {
    if vs == [] then 0 else CountSuccesses(vs[..|vs| - 1]) + (if vs[|vs| - 1] then 1 else 0)
  }

  function CountFailures(vs: seq<bool>): nat
  {
    if vs == [] then 0 else CountFailures(vs[..|vs| - 1]) + (if vs[|vs| - 1] then 0 else 1)
  }

  /** Every reply raises exactly one of the two counters. */
  lemma {:induction false} EachReplyCountsOnce(vs: seq<bool>)
    ensures CountSuccesses(vs) + CountFailures(vs) == |vs|
  {
    if vs != [] {
      EachReplyCountsOnce(vs[..|vs| - 1]);
    }
  }

  /** A phase has reached one of its two quorums. */
  predicate Resolved(vs: seq<bool>, quorum: nat)
  {
    CountSuccesses(vs) >= quorum || CountFailures(vs) >= quorum
  }

  datatype RoundOutcome = Reached | Rejected | TimedOut

  /**
   * The phase ends after `processed` replies with `outcome`: the first reply
   * after which either counter reaches the quorum decides, success quorum
   * meaning `Reached` and failure quorum `Rejected`; if no reply does, every
   * reply was counted and the phase times out.
   */
  predicate ResolvesAt(vs: seq<bool>, quorum: nat, outcome: RoundOutcome, processed: nat)
  {
    && processed <= |vs|
    && (forall j :: 1 <= j < processed ==> !Resolved(vs[..j], quorum))
    && (outcome == TimedOut <==> processed == |vs| && (processed == 0 || !Resolved(vs, quorum)))
    && (outcome == Reached <==> processed >= 1 && CountSuccesses(vs[..processed]) >= quorum)
    && (outcome == Rejected <==>
          processed >= 1 && CountSuccesses(vs[..processed]) < quorum && CountFailures(vs[..processed]) >= quorum)
  }

  /** The end of a phase is determined by its replies: at most one outcome and one stopping point fit. */
  lemma {:induction false} ResolutionIsUnique(vs: seq<bool>, quorum: nat, o1: RoundOutcome, p1: nat, o2: RoundOutcome, p2: nat)
    requires ResolvesAt(vs, quorum, o1, p1) && ResolvesAt(vs, quorum, o2, p2)
    ensures o1 == o2 && p1 == p2
  {
    assert vs[..|vs|] == vs;
  }

  /**
   * Counts the verdicts of one phase in arrival order and stops at the first
   * quorum, as each reply handler of the source does after its increment.
   */
  method ResolveRound(vs: seq<bool>, quorum: nat) returns (outcome: RoundOutcome, processed: nat)
    ensures ResolvesAt(vs, quorum, outcome, processed)
  {
    var successes, failures := 0, 0;
    processed := 0;
    while processed < |vs|
      invariant processed <= |vs|
      invariant successes == CountSuccesses(vs[..processed]) && failures == CountFailures(vs[..processed])
      invariant forall j :: 1 <= j <= processed ==> !Resolved(vs[..j], quorum)
    {
      if vs[processed] {
        successes := successes + 1;
      } else {
        failures := failures + 1;
      }
      processed := processed + 1;
      assert vs[..processed][..processed - 1] == vs[..processed - 1];
      if successes >= quorum {
        return Reached, processed;
      }
      if failures >= quorum {
        return Rejected, processed;
      }
    }
    assert vs[..processed] == vs;
    outcome := TimedOut;
  }

  // ---------------------------------------------------------------------
  // Replies as they arrive from the acceptors.

  /** A reply of the goroutine that dialled acceptor number `peer`. */
  datatype Arrival<M> = Arrival(peer: nat, delivery: Delivery<M>)

  /** One goroutine per acceptor: every arrival names a configured acceptor, each at most once. */
  predicate DistinctPeers<M>(arrivals: seq<Arrival<M>>, n: nat)
  {
    && (forall k :: 0 <= k < |arrivals| ==> arrivals[k].peer < n)
    && (forall j, k :: 0 <= j < k < |arrivals| ==> arrivals[j].peer != arrivals[k].peer)
  }

  /** A promise counts as a success only when delivered, echoing the number and the dialled address, and granted. */
  predicate PromiseSucceeded<V>(sent: PrepareMsg, peer: string, d: Delivery<PromiseMsg<V>>)
  {
    d.Delivered? && d.reply.proposeID == sent.proposeID && d.reply.acceptorAddr == peer && d.reply.success
  }

  /** An accept counts as a success only when delivered, echoing the number and the dialled address, and granted. */
  predicate AcceptSucceeded<V>(sent: AcceptMsg<V>, peer: string, d: Delivery<AcceptedMsg>)
  {
    d.Delivered? && d.reply.proposeID == sent.proposeID && d.reply.acceptorAddr == peer && d.reply.success
  }

  function PromiseVerdicts<V>(sent: PrepareMsg, peers: seq<string>, arrivals: seq<Arrival<PromiseMsg<V>>>): (vs: seq<bool>)
    requires DistinctPeers(arrivals, |peers|)
    ensures |vs| == |arrivals|
    ensures forall k :: 0 <= k < |vs| ==>
              vs[k] == PromiseSucceeded(sent, peers[arrivals[k].peer], arrivals[k].delivery)
  {
    seq(|arrivals|, k requires 0 <= k < |arrivals| =>
      PromiseSucceeded(sent, peers[arrivals[k].peer], arrivals[k].delivery))
  }

  function AcceptVerdicts<V>(sent: AcceptMsg<V>, peers: seq<string>, arrivals: seq<Arrival<AcceptedMsg>>): (vs: seq<bool>)
    requires DistinctPeers(arrivals, |peers|)
    ensures |vs| == |arrivals|
    ensures forall k :: 0 <= k < |vs| ==>
              vs[k] == AcceptSucceeded(sent, peers[arrivals[k].peer], arrivals[k].delivery)
  {
    seq(|arrivals|, k requires 0 <= k < |arrivals| =>
      AcceptSucceeded(sent, peers[arrivals[k].peer], arrivals[k].delivery))
  }

  function PeerSet<M>(arrivals: seq<Arrival<M>>): set<nat>
  {
    set k | 0 <= k < |arrivals| :: arrivals[k].peer
  }

  /** The acceptor numbers 0 .. n-1. */
  function Range(n: nat): (r: set<nat>)
    ensures forall i: nat :: i in r <==> i < n
    ensures |r| == n
  {
    if n == 0 then {} else Range(n - 1) + {n - 1}
  }

  lemma {:induction false} PeerSetSize<M>(arrivals: seq<Arrival<M>>, n: nat)
    requires DistinctPeers(arrivals, n)
    ensures |PeerSet(arrivals)| == |arrivals|
    ensures PeerSet(arrivals) <= Range(n)
  {
    if arrivals != [] {
      var init := arrivals[..|arrivals| - 1];
      PeerSetSize(init, n);
      var last := arrivals[|arrivals| - 1].peer;
      assert PeerSet(arrivals) == PeerSet(init) + {last} by {
        forall p | p in PeerSet(arrivals) ensures p in PeerSet(init) + {last} {
          var k :| 0 <= k < |arrivals| && arrivals[k].peer == p;
          if k < |arrivals| - 1 { assert init[k].peer == p; }
        }
      }
      assert last !in PeerSet(init);
    }
  }

  /** Since each of the n acceptors answers at most once, a phase sees at most n replies. */
  lemma DistinctPeersBound<M>(arrivals: seq<Arrival<M>>, n: nat)
    requires DistinctPeers(arrivals, n)
    ensures |arrivals| <= n
  {
    PeerSetSize(arrivals, n);
    SubsetSize(PeerSet(arrivals), Range(n));
  }

  lemma {:induction false} SubsetSize(a: set<nat>, b: set<nat>)
    requires a <= b
    ensures |a| <= |b|
  {
    assert b == a + (b - a);
  }

  /**
   * Success and failure quorums exclude each other: among the replies of the
   * n acceptors, the two counters cannot both reach the majority.
   */
  lemma QuorumsAreExclusive<M>(arrivals: seq<Arrival<M>>, vs: seq<bool>, n: nat)
    requires DistinctPeers(arrivals, n) && |vs| == |arrivals|
    ensures !(CountSuccesses(vs) >= QuorumSize(n) && CountFailures(vs) >= QuorumSize(n))
  {
    DistinctPeersBound(arrivals, n);
    EachReplyCountsOnce(vs);
  }

  /**
   * With an odd number of acceptors that all answer, a phase always resolves
   * before the timeout; with an even number a tie can run it out.
   */
  lemma AllRepliesResolveOddCluster(vs: seq<bool>, n: nat)
    requires |vs| == n && n % 2 == 1
    ensures Resolved(vs, QuorumSize(n))
  {
    EachReplyCountsOnce(vs);
  }

  lemma EvenClusterCanTie()
    ensures !Resolved([true, true, false, false], QuorumSize(4))
  {
    assert [true, true, false, false][..3] == [true, true, false];
    assert [true, true, false][..2] == [true, true];
    assert [true, true][..1] == [true];
    assert [true][..0] == [];
  }

  // ---------------------------------------------------------------------
  // Adoption of previously accepted values.

  /** The highest accepted (number, value) a proposer has been told of. */
  datatype Adopted<V> = Adopted(id: ProposalID, value: Option<V>)

  /** One reply's report replaces the adopted pair only under a strictly higher number. */
  function Adopt<V>(h: Adopted<V>, report: PromiseMsg<V>): Adopted<V>
  {
    if Less(h.id, report.accepedID) then Adopted(report.accepedID, report.accepedValue) else h
  }

  /** The adopted pair after the reports `rs`, in order. */
  function AdoptAll<V>(h: Adopted<V>, rs: seq<PromiseMsg<V>>): Adopted<V>
  {
    if rs == [] then h else Adopt(AdoptAll(h, rs[..|rs| - 1]), rs[|rs| - 1])
  }

  /** `rs[k]` carries the result: it beats the start, and every earlier report is strictly lower. */
  ghost predicate FirstMaximum<V>(h: Adopted<V>, rs: seq<PromiseMsg<V>>, k: nat, r: Adopted<V>)
  {
    && k < |rs|
    && r == Adopted(rs[k].accepedID, rs[k].accepedValue)
    && Less(h.id, r.id)
    && (forall j :: 0 <= j < k ==> Less(rs[j].accepedID, r.id))
  }

  /**
   * After a sequence of reports the adopted number is the maximum of the start
   * and every reported number, and it is either still the start pair or the
   * pair of the first report carrying that maximum.
   */
  lemma {:induction false} AdoptAllIsFirstMaximum<V>(h: Adopted<V>, rs: seq<PromiseMsg<V>>)
    ensures LessEq(h.id, AdoptAll(h, rs).id)
    ensures forall k :: 0 <= k < |rs| ==> LessEq(rs[k].accepedID, AdoptAll(h, rs).id)
    ensures AdoptAll(h, rs) == h || exists k :: FirstMaximum(h, rs, k, AdoptAll(h, rs))
  {
    if rs != [] {
      var init := rs[..|rs| - 1];
      var last := rs[|rs| - 1];
      AdoptAllIsFirstMaximum(h, init);
      var m := AdoptAll(h, init);
      var r := AdoptAll(h, rs);
      assert r == Adopt(m, last);
      LessIsStrictTotalOrder(h.id, m.id, last.accepedID);
      forall k | 0 <= k < |rs| ensures LessEq(rs[k].accepedID, r.id) {
        if k < |rs| - 1 {
          assert rs[k] == init[k];
          LessIsStrictTotalOrder(rs[k].accepedID, m.id, r.id);
        }
      }
      if r != h {
        if r == m {
          var k: nat :| FirstMaximum(h, init, k, m);
          assert FirstMaximum(h, rs, k, r);
        } else {
          assert FirstMaximum(h, rs, |rs| - 1, r) by {
            forall j | 0 <= j < |rs| - 1 ensures Less(rs[j].accepedID, r.id) {
              assert rs[j] == init[j];
              LessIsStrictTotalOrder(rs[j].accepedID, m.id, r.id);
            }
          }
        }
      }
    }
  }

  /** The adopted number never decreases, whatever the reports. */
  lemma AdoptedNeverDecreases<V>(h: Adopted<V>, rs: seq<PromiseMsg<V>>, more: seq<PromiseMsg<V>>)
    ensures LessEq(AdoptAll(h, rs).id, AdoptAll(h, rs + more).id)
  {
    AdoptAllSplits(h, rs, more);
    AdoptAllIsFirstMaximum(AdoptAll(h, rs), more);
  }

  lemma {:induction false} AdoptAllSplits<V>(h: Adopted<V>, rs: seq<PromiseMsg<V>>, more: seq<PromiseMsg<V>>)
    ensures AdoptAll(h, rs + more) == AdoptAll(AdoptAll(h, rs), more)
  {
    if more == [] {
      assert rs + more == rs;
    } else {
      assert (rs + more)[..|rs + more| - 1] == rs + more[..|more| - 1];
      AdoptAllSplits(h, rs, more[..|more| - 1]);
    }
  }

  /**
   * The replies of a phase whose report the proposer takes in: delivered, echoing
   * the number and the dialled address, and carrying a non-zero accepted number
   * (granted or not).
   */
  predicate Echoed<V>(sent: PrepareMsg, peer: string, d: Delivery<PromiseMsg<V>>)
  {
    d.Delivered? && d.reply.proposeID == sent.proposeID && d.reply.acceptorAddr == peer
  }

  function EchoedReports<V>(sent: PrepareMsg, peers: seq<string>, arrivals: seq<Arrival<PromiseMsg<V>>>): seq<PromiseMsg<V>>
    requires DistinctPeers(arrivals, |peers|)
  {
    if arrivals == [] then []
    else
      var last := arrivals[|arrivals| - 1];
      EchoedReports(sent, peers, arrivals[..|arrivals| - 1]) +
      (if Echoed(sent, peers[last.peer], last.delivery) && Less(Zero, last.delivery.reply.accepedID)
       then [last.delivery.reply] else [])
  }

  /** Every report the proposer takes in is the reply of one of the arrivals. */
  lemma {:induction false} EchoedReportsComeFromArrivals<V>(sent: PrepareMsg, peers: seq<string>, arrivals: seq<Arrival<PromiseMsg<V>>>)
    requires DistinctPeers(arrivals, |peers|)
    ensures forall r :: r in EchoedReports(sent, peers, arrivals) ==>
              exists k :: 0 <= k < |arrivals| && arrivals[k].delivery == Delivered(r)
  {
    if arrivals != [] {
      var init := arrivals[..|arrivals| - 1];
      EchoedReportsComeFromArrivals(sent, peers, init);
      forall r | r in EchoedReports(sent, peers, arrivals)
        ensures exists k :: 0 <= k < |arrivals| && arrivals[k].delivery == Delivered(r)
      {
        if r in EchoedReports(sent, peers, init) {
          var k :| 0 <= k < |init| && init[k].delivery == Delivered(r);
          assert arrivals[k] == init[k];
        } else {
          assert arrivals[|arrivals| - 1].delivery == Delivered(r);
        }
      }
    }
  }

  /** Counting one more arrival takes in its report exactly when it echoes the request with a non-zero number. */
  lemma EchoedReportsStep<V>(sent: PrepareMsg, peers: seq<string>, arrivals: seq<Arrival<PromiseMsg<V>>>, i: nat)
    requires DistinctPeers(arrivals, |peers|) && i < |arrivals|
    ensures var a := arrivals[i];
            Echoed(sent, peers[a.peer], a.delivery) && Less(Zero, a.delivery.reply.accepedID) ==>
            EchoedReports(sent, peers, arrivals[..i + 1]) == EchoedReports(sent, peers, arrivals[..i]) + [a.delivery.reply]
    ensures var a := arrivals[i];
            !(Echoed(sent, peers[a.peer], a.delivery) && Less(Zero, a.delivery.reply.accepedID)) ==>
            EchoedReports(sent, peers, arrivals[..i + 1]) == EchoedReports(sent, peers, arrivals[..i])
  {
    assert arrivals[..i + 1][..i] == arrivals[..i];
    assert EchoedReports(sent, peers, arrivals[..i]) + [] == EchoedReports(sent, peers, arrivals[..i]);
  }

  /**
   * Taking in arrival i: the fold over the first i + 1 arrivals is one more
   * `Adopt` when that arrival echoes the request with a non-zero report, and
   * the fold over the first i otherwise.
   */
  lemma AdoptNextArrival<V>(h: Adopted<V>, sent: PrepareMsg, peers: seq<string>, arrivals: seq<Arrival<PromiseMsg<V>>>, i: nat)
    requires DistinctPeers(arrivals, |peers|) && i < |arrivals|
    ensures var a := arrivals[i];
            var before := AdoptAll(h, EchoedReports(sent, peers, arrivals[..i]));
            AdoptAll(h, EchoedReports(sent, peers, arrivals[..i + 1])) ==
              if Echoed(sent, peers[a.peer], a.delivery) && Less(Zero, a.delivery.reply.accepedID)
              then Adopt(before, a.delivery.reply) else before
  {
    EchoedReportsStep(sent, peers, arrivals, i);
    if arrivals[i].delivery.Delivered? {
      AdoptAllSnoc(h, EchoedReports(sent, peers, arrivals[..i]), arrivals[i].delivery.reply);
    }
  }

  /** Folding one more report is one more `Adopt`. */
  lemma AdoptAllSnoc<V>(h: Adopted<V>, rs: seq<PromiseMsg<V>>, r: PromiseMsg<V>)
    ensures AdoptAll(h, rs + [r]) == Adopt(AdoptAll(h, rs), r)
  {
    assert (rs + [r])[..|rs|] == rs;
  }

  /** The value of `propose`'s accept request: the adopted value if there is one, else the proposer's own. */
  function ChooseValue<V>(adopted: Option<V>, own: Option<V>): Option<V>
  {
    if adopted.Some? then adopted else own
  }

  /** The replies one round of `propose` receives, in arrival order, for each phase. */
  datatype RoundScript<V> = RoundScript(promises: seq<Arrival<PromiseMsg<V>>>, accepts: seq<Arrival<AcceptedMsg>>)

  predicate WellFormed<V>(rounds: seq<RoundScript<V>>, n: nat)
  {
    forall i :: 0 <= i < |rounds| ==> DistinctPeers(rounds[i].promises, n) && DistinctPeers(rounds[i].accepts, n)
  }

  /** `v` is the accepted value some promise reply of these rounds carried. */
  ghost predicate Reported<V>(v: Option<V>, rounds: seq<RoundScript<V>>)
  {
    exists i, k :: 0 <= i < |rounds| && 0 <= k < |rounds[i].promises| && Carries(rounds[i].promises[k], v)
  }

  ghost predicate Carries<V>(a: Arrival<PromiseMsg<V>>, v: Option<V>)
  {
    a.delivery.Delivered? && a.delivery.reply.accepedValue == v
  }

  /**
   * What one round did: its number, the adopted pair before and after phase 1,
   * how phase 1 ended and after how many replies, the accept request, and how
   * phase 2 ended (meaningful only when phase 1 reached its quorum).
   */
  datatype RoundTrace<V> = RoundTrace(
    number: ProposalID,
    before: Adopted<V>,
    after: Adopted<V>,
    promised: RoundOutcome,
    counted: nat,
    request: AcceptMsg<V>,
    accepted: RoundOutcome,
    acceptCounted: nat)

  /** A round decides exactly when both of its phases reach a success quorum. */
  predicate Decides<V>(t: RoundTrace<V>)
  {
    t.promised == Reached && t.accepted == Reached
  }

  /**
   * `t` is what a round of the proposer with acceptors `peers` and own value
   * `value` does on `script`: phase 1 resolves over the promise verdicts for
   * `t.number` and takes in the reports of the counted echoed replies; only on
   * a promise quorum is the accept request built from the adopted pair and
   * phase 2 resolved over its verdicts.
   */
  ghost predicate RoundFollows<V>(t: RoundTrace<V>, peers: seq<string>, value: Option<V>, script: RoundScript<V>)
    requires DistinctPeers(script.promises, |peers|) && DistinctPeers(script.accepts, |peers|)
  {
    && ResolvesAt(PromiseVerdicts(PrepareMsg(t.number), peers, script.promises), QuorumSize(|peers|), t.promised, t.counted)
    && t.after == AdoptAll(t.before, EchoedReports(PrepareMsg(t.number), peers, script.promises[..t.counted]))
    && (t.promised == Reached ==>
          && t.request == AcceptMsg(t.number, "", ChooseValue(t.after.value, value))
          && ResolvesAt(AcceptVerdicts(t.request, peers, script.accepts), QuorumSize(|peers|), t.accepted, t.acceptCounted))
    && (t.promised != Reached ==> t.accepted == TimedOut)
  }

  /** The adopted pair after the rounds of `trace`. */
  function LastAdopted<V>(trace: seq<RoundTrace<V>>, startPair: Adopted<V>): Adopted<V>
  {
    if trace == [] then startPair else trace[|trace| - 1].after
  }

  /**
   * `trace` is what the first |trace| rounds of `propose` did, for a proposer
   * that starts from number `start` and adopted pair `startPair`: each round k
   * uses the k-th number after `start`, starts from the pair the rounds before
   * it left, and follows its script.
   */
  ghost predicate TraceFollows<V>(trace: seq<RoundTrace<V>>, me: nat, start: ProposalID, startPair: Adopted<V>,
                                  peers: seq<string>, value: Option<V>, rounds: seq<RoundScript<V>>)
    requires WellFormed(rounds, |peers|)
    decreases |trace|
  {
    && |trace| <= |rounds|
    && (trace == [] ||
        var k := |trace| - 1;
        && TraceFollows(trace[..k], me, start, startPair, peers, value, rounds)
        && trace[k].number == NumberAfter(me, start, k + 1)
        && trace[k].before == LastAdopted(trace[..k], startPair)
        && RoundFollows(trace[k], peers, value, rounds[k]))
  }

  /** A trace that follows its rounds, extended by a round that follows the next script, still does. */
  lemma TraceSnoc<V>(trace: seq<RoundTrace<V>>, t: RoundTrace<V>, me: nat, start: ProposalID, startPair: Adopted<V>,
                     peers: seq<string>, value: Option<V>, rounds: seq<RoundScript<V>>)
    requires WellFormed(rounds, |peers|) && TraceFollows(trace, me, start, startPair, peers, value, rounds)
    requires |trace| < |rounds|
    requires t.number == NumberAfter(me, start, |trace| + 1) && t.before == LastAdopted(trace, startPair)
    requires RoundFollows(t, peers, value, rounds[|trace|])
    ensures TraceFollows(trace + [t], me, start, startPair, peers, value, rounds)
    ensures LastAdopted(trace + [t], startPair) == t.after
  {
    assert (trace + [t])[..|trace|] == trace;
  }

  /** The acceptors whose replies among the first `p` arrivals are successes. */
  function SuccessPeers<M>(arrivals: seq<Arrival<M>>, vs: seq<bool>, p: nat): set<nat>
    requires |vs| == |arrivals| && p <= |arrivals|
  {
    if p == 0 then {}
    else SuccessPeers(arrivals, vs, p - 1) + (if vs[p - 1] then {arrivals[p - 1].peer} else {})
  }

  /** Every acceptor in SuccessPeers sent one of the successful replies among the first `p`. */
  lemma {:induction false} SuccessPeersFrom<M>(arrivals: seq<Arrival<M>>, vs: seq<bool>, p: nat)
    requires |vs| == |arrivals| && p <= |arrivals|
    ensures forall a :: a in SuccessPeers(arrivals, vs, p) ==>
              exists k :: 0 <= k < p && arrivals[k].peer == a && vs[k]
  {
    if p > 0 {
      SuccessPeersFrom(arrivals, vs, p - 1);
    }
  }

  /** The acceptor of reply `p` is not among the successes before it: each acceptor answers once. */
  lemma SuccessPeerIsNew<M>(arrivals: seq<Arrival<M>>, vs: seq<bool>, n: nat, p: nat)
    requires DistinctPeers(arrivals, n) && |vs| == |arrivals| && p < |arrivals|
    ensures arrivals[p].peer !in SuccessPeers(arrivals, vs, p)
  {
    SuccessPeersFrom(arrivals, vs, p);
    forall a | a in SuccessPeers(arrivals, vs, p) ensures a != arrivals[p].peer {
      var k :| 0 <= k < p && arrivals[k].peer == a && vs[k];
    }
  }

  /** As many acceptors replied successfully among the first `p` replies as the success counter says. */
  lemma {:induction false} SuccessPeersSize<M>(arrivals: seq<Arrival<M>>, vs: seq<bool>, n: nat, p: nat)
    requires DistinctPeers(arrivals, n) && |vs| == |arrivals| && p <= |arrivals|
    ensures |SuccessPeers(arrivals, vs, p)| == CountSuccesses(vs[..p])
  {
    if p > 0 {
      SuccessPeersSize(arrivals, vs, n, p - 1);
      assert vs[..p][..p - 1] == vs[..p - 1];
      if vs[p - 1] {
        SuccessPeerIsNew(arrivals, vs, n, p - 1);
      }
    }
  }

  /**
   * Since each acceptor answers at most once, the successes counted over the
   * first `p` replies of a phase come from exactly that many distinct
   * acceptors, each of which sent a successful reply.
   */
  lemma SuccessPeersCount<M>(arrivals: seq<Arrival<M>>, vs: seq<bool>, n: nat, p: nat)
    requires DistinctPeers(arrivals, n) && |vs| == |arrivals| && p <= |arrivals|
    ensures |SuccessPeers(arrivals, vs, p)| == CountSuccesses(vs[..p])
    ensures forall a :: a in SuccessPeers(arrivals, vs, p) ==>
              a < n && exists k :: 0 <= k < p && arrivals[k].peer == a && vs[k]
  {
    SuccessPeersSize(arrivals, vs, n, p);
    SuccessPeersFrom(arrivals, vs, p);
  }

  /** A success quorum counted over a phase names a quorum of distinct acceptors that each replied successfully. */
  lemma QuorumOfSuccesses<M>(arrivals: seq<Arrival<M>>, vs: seq<bool>, n: nat, p: nat)
    requires DistinctPeers(arrivals, n) && |vs| == |arrivals| && p <= |vs|
    requires CountSuccesses(vs[..p]) >= QuorumSize(n)
    ensures exists q: set<nat> :: |q| >= QuorumSize(n) &&
              forall a :: a in q ==> a < n && (exists k :: 0 <= k < |arrivals| && arrivals[k].peer == a && vs[k])
  {
    SuccessPeersCount(arrivals, vs, n, p);
    var q := SuccessPeers(arrivals, vs, p);
    assert |q| >= QuorumSize(n);
  }

  /**
   * A round that decides had, among its replies, a majority of distinct
   * acceptors granting its promise and a majority of distinct acceptors
   * accepting its request.
   */
  lemma DecidingRoundHasQuorums<V>(t: RoundTrace<V>, peers: seq<string>, value: Option<V>, script: RoundScript<V>)
    requires DistinctPeers(script.promises, |peers|) && DistinctPeers(script.accepts, |peers|)
    requires RoundFollows(t, peers, value, script) && Decides(t)
    ensures exists qp: set<nat> :: |qp| >= QuorumSize(|peers|) &&
              forall a :: a in qp ==>
                && a < |peers|
                && exists k :: 0 <= k < |script.promises| && script.promises[k].peer == a &&
                     PromiseSucceeded(PrepareMsg(t.number), peers[a], script.promises[k].delivery)
    ensures exists qa: set<nat> :: |qa| >= QuorumSize(|peers|) &&
              forall a :: a in qa ==>
                && a < |peers|
                && exists k :: 0 <= k < |script.accepts| && script.accepts[k].peer == a &&
                     AcceptSucceeded(t.request, peers[a], script.accepts[k].delivery)
  {
    QuorumOfSuccesses(script.promises, PromiseVerdicts(PrepareMsg(t.number), peers, script.promises), |peers|, t.counted);
    QuorumOfSuccesses(script.accepts, AcceptVerdicts(t.request, peers, script.accepts), |peers|, t.acceptCounted);
  }

  class Proposer<V> {
    const me: nat
    const acceptorPeers: seq<string>
    var proposerID: ProposalID
    var currentValue: Option<V>
    var highestAcceptedID: ProposalID
    var highestAcceptedValue: Option<V>
    var decidedValue: Option<V>

    constructor (me: nat, acceptorPeers: seq<string>)
      ensures this.me == me && this.acceptorPeers == acceptorPeers
      ensures proposerID == Zero && currentValue == None && decidedValue == None
      ensures AdoptedPair() == Adopted(Zero, None)
    {
      this.me := me;
      this.acceptorPeers := acceptorPeers;
      proposerID := Zero;
      currentValue := None;
      highestAcceptedID := Zero;
      highestAcceptedValue := None;
      decidedValue := None;
    }

    function AdoptedPair(): Adopted<V>
      reads this
    {
      Adopted(highestAcceptedID, highestAcceptedValue)
    }

    /** Resets every per-instance field; the identity and the acceptor list are constants. */
    method Clean()
      modifies this
      ensures proposerID == Zero && currentValue == None && decidedValue == None
      ensures AdoptedPair() == Adopted(Zero, None)
    {
      proposerID := Zero;
      currentValue := None;
      highestAcceptedID := Zero;
      highestAcceptedValue := None;
      decidedValue := None;
    }

    /** The smallest strict majority of the configured acceptors. */
    function GetQuorumSize(): (q: nat)
      ensures 2 * q > |acceptorPeers| && 2 * (q - 1) <= |acceptorPeers|
    {
      QuorumSize(|acceptorPeers|)
    }

    /** Draws the next proposal number and builds the prepare request carrying it. */
    method Prepare() returns (msg: PrepareMsg)
      modifies this`proposerID
      ensures proposerID == GenerateNumber(me, old(proposerID)) && msg == PrepareMsg(proposerID)
    {
      var id := GenerateNumber(me, proposerID);
      msg := PrepareMsg(id);
      proposerID := id;
    }

    /** The accept request of the current round; reads the fields and changes nothing. */
    function Accept(): (msg: AcceptMsg<V>)
      reads this
      ensures msg.proposeID == proposerID && msg.acceptorAddr == ""
      ensures msg.value == (if highestAcceptedValue.Some? then highestAcceptedValue else currentValue)
    {
      AcceptMsg(proposerID, "", ChooseValue(highestAcceptedValue, currentValue))
    }

    method SetAccepted(resp: PromiseMsg<V>)
      modifies this`highestAcceptedID, this`highestAcceptedValue
      ensures AdoptedPair() == Adopt(old(AdoptedPair()), resp)
    {
      if Less(highestAcceptedID, resp.accepedID) {
        highestAcceptedID := resp.accepedID;
        highestAcceptedValue := resp.accepedValue;
      }
    }

    /**
     * Phase 1 of a round: counts the promise replies until a quorum, and takes
     * in the report of every counted reply that echoes the request.
     */
    method RunPreparePhase(msg: PrepareMsg, arrivals: seq<Arrival<PromiseMsg<V>>>)
      returns (outcome: RoundOutcome, processed: nat)
      requires DistinctPeers(arrivals, |acceptorPeers|)
      modifies this`highestAcceptedID, this`highestAcceptedValue
      ensures ResolvesAt(PromiseVerdicts(msg, acceptorPeers, arrivals), GetQuorumSize(), outcome, processed)
      ensures AdoptedPair() == AdoptAll(old(AdoptedPair()), EchoedReports(msg, acceptorPeers, arrivals[..processed]))
    {
      outcome, processed := ResolveRound(PromiseVerdicts(msg, acceptorPeers, arrivals), GetQuorumSize());
      ghost var start := AdoptedPair();
      for i := 0 to processed
        invariant AdoptedPair() == AdoptAll(start, EchoedReports(msg, acceptorPeers, arrivals[..i]))
      {
        var a := arrivals[i];
        AdoptNextArrival(start, msg, acceptorPeers, arrivals, i);
        if Echoed(msg, acceptorPeers[a.peer], a.delivery) && Less(Zero, a.delivery.reply.accepedID) {
          SetAccepted(a.delivery.reply);
        }
      }
    }

    /** Phase 2 of a round: counts the accepted replies until a quorum; changes nothing. */
    method RunAcceptPhase(msg: AcceptMsg<V>, arrivals: seq<Arrival<AcceptedMsg>>)
      returns (outcome: RoundOutcome, processed: nat)
      requires DistinctPeers(arrivals, |acceptorPeers|)
      ensures ResolvesAt(AcceptVerdicts(msg, acceptorPeers, arrivals), GetQuorumSize(), outcome, processed)
    {
      outcome, processed := ResolveRound(AcceptVerdicts(msg, acceptorPeers, arrivals), GetQuorumSize());
    }

    /**
     * One pass of the round loop: prepare, count promises, and on a promise
     * quorum send the accept request and count the accepted replies; an accept
     * quorum decides the request's value. The ghost trace records both phases.
     */
    method RunRound(script: RoundScript<V>) returns (decided: bool, ghost t: RoundTrace<V>)
      requires DistinctPeers(script.promises, |acceptorPeers|) && DistinctPeers(script.accepts, |acceptorPeers|)
      modifies this`proposerID, this`highestAcceptedID, this`highestAcceptedValue, this`decidedValue
      ensures proposerID == GenerateNumber(me, old(proposerID)) && t.number == proposerID
      ensures t.before == old(AdoptedPair()) && t.after == AdoptedPair()
      ensures RoundFollows(t, acceptorPeers, currentValue, script)
      ensures decided <==> Decides(t)
      ensures decided ==> decidedValue == t.request.value == ChooseValue(highestAcceptedValue, currentValue)
      ensures !decided ==> decidedValue == old(decidedValue)
      ensures highestAcceptedValue == old(highestAcceptedValue) ||
              exists k :: 0 <= k < |script.promises| && Carries(script.promises[k], highestAcceptedValue)
    {
      var prepareMsg := Prepare();
      ghost var before := AdoptedPair();
      var promised, counted := RunPreparePhase(prepareMsg, script.promises);
      AdoptionComesFromReplies(before, prepareMsg, acceptorPeers, script.promises[..counted]);
      assert forall k :: 0 <= k < counted ==> script.promises[..counted][k] == script.promises[k];
      ghost var request := Accept();
      ghost var accepted, acceptCounted := TimedOut, 0;
      decided := false;
      if promised == Reached {
        var acceptMsg := Accept();
        var outcome, processed := RunAcceptPhase(acceptMsg, script.accepts);
        accepted, acceptCounted := outcome, processed;
        if outcome == Reached {
          decidedValue := acceptMsg.value;
          decided := true;
        }
      }
      t := RoundTrace(proposerID, before, AdoptedPair(), promised, counted, request, accepted, acceptCounted);
    }

    /**
     * `propose`: runs rounds while no value is decided, one script per round,
     * and returns nil; the decision is left in `decidedValue`. The ghost trace
     * has one entry per round run: round k uses the k-th number after the
     * starting one, starts from the pair the previous round adopted, and only
     * the last round run can decide.
     */
    method Propose(value: Option<V>, rounds: seq<RoundScript<V>>)
      returns (r: Option<V>, ghost trace: seq<RoundTrace<V>>, ghost decided: bool)
      requires WellFormed(rounds, |acceptorPeers|)
      modifies this`currentValue, this`proposerID, this`highestAcceptedID, this`highestAcceptedValue, this`decidedValue
      ensures r == None && currentValue == value
      ensures TraceFollows(trace, me, old(proposerID), old(AdoptedPair()), acceptorPeers, value, rounds)
      ensures proposerID == NumberAfter(me, old(proposerID), |trace|)
      ensures AdoptedPair() == LastAdopted(trace, old(AdoptedPair()))
      ensures forall k :: 0 <= k < |trace| - 1 ==> !Decides(trace[k])
      ensures decided <==> trace != [] && Decides(trace[|trace| - 1])
      ensures old(decidedValue).Some? ==> trace == []
      ensures !decided ==> decidedValue == old(decidedValue)
      ensures !decided && old(decidedValue).None? ==> |trace| == |rounds|
      ensures decided ==> decidedValue == trace[|trace| - 1].request.value
      ensures highestAcceptedValue == old(highestAcceptedValue) || Reported(highestAcceptedValue, rounds)
      ensures decided ==>
                decidedValue == value || decidedValue == old(highestAcceptedValue) || Reported(decidedValue, rounds)
    {
      currentValue := value;
      trace, decided := [], false;
      ghost var startID, startPair, startDecided := proposerID, AdoptedPair(), decidedValue;
      var i := 0;
      while decidedValue.None? && i < |rounds|
        invariant i == |trace| <= |rounds| && currentValue == value && !decided
        invariant proposerID == NumberAfter(me, startID, i)
        invariant TraceFollows(trace, me, startID, startPair, acceptorPeers, value, rounds)
        invariant forall k :: 0 <= k < i ==> !Decides(trace[k])
        invariant AdoptedPair() == LastAdopted(trace, startPair)
        invariant startDecided.Some? ==> i == 0
        invariant decidedValue == startDecided
      {
        var done, t := RunRound(rounds[i]);
        TraceSnoc(trace, t, me, startID, startPair, acceptorPeers, value, rounds);
        UndecidedSnoc(trace, t);
        trace := trace + [t];
        i := i + 1;
        assert trace[i - 1] == t;
        if done {
          decided := true;
          break;
        }
      }
      TraceAdoptsReported(trace, me, startID, startPair, acceptorPeers, value, rounds);
      r := None;
    }
  }

  /** The pair the rounds of a trace leave holds the starting value or one some promise reply carried. */
  lemma {:induction false} TraceAdoptsReported<V>(trace: seq<RoundTrace<V>>, me: nat, start: ProposalID, startPair: Adopted<V>,
                                                  peers: seq<string>, value: Option<V>, rounds: seq<RoundScript<V>>)
    requires WellFormed(rounds, |peers|) && TraceFollows(trace, me, start, startPair, peers, value, rounds)
    ensures var v := LastAdopted(trace, startPair).value;
            v == startPair.value || Reported(v, rounds)
    decreases |trace|
  {
    if trace != [] {
      var k := |trace| - 1;
      var t := trace[k];
      TraceAdoptsReported(trace[..k], me, start, startPair, peers, value, rounds);
      var arrivals := rounds[k].promises[..t.counted];
      assert DistinctPeers(arrivals, |peers|);
      AdoptionComesFromReplies(t.before, PrepareMsg(t.number), peers, arrivals);
      if t.after.value != t.before.value {
        var j :| 0 <= j < |arrivals| && Carries(arrivals[j], t.after.value);
        assert arrivals[j] == rounds[k].promises[j];
        ReportedInRound(rounds, k, t.after.value);
      }
    }
  }

  /** Extending a trace of undeciding rounds keeps its earlier rounds undeciding. */
  lemma UndecidedSnoc<V>(trace: seq<RoundTrace<V>>, t: RoundTrace<V>)
    requires forall k :: 0 <= k < |trace| ==> !Decides(trace[k])
    ensures forall k :: 0 <= k < |trace| ==> !Decides((trace + [t])[k])
    ensures !Decides(t) ==> forall k :: 0 <= k < |trace| + 1 ==> !Decides((trace + [t])[k])
  {
    assert forall k :: 0 <= k < |trace| ==> (trace + [t])[k] == trace[k];
  }

  /** A value carried by a promise reply of round `i` is reported by the rounds. */
  lemma ReportedInRound<V>(rounds: seq<RoundScript<V>>, i: nat, v: Option<V>)
    requires i < |rounds| && exists k :: 0 <= k < |rounds[i].promises| && Carries(rounds[i].promises[k], v)
    ensures Reported(v, rounds)
  {
    var k :| 0 <= k < |rounds[i].promises| && Carries(rounds[i].promises[k], v);
    assert 0 <= i < |rounds| && Carries(rounds[i].promises[k], v);
  }

  /** The adopted value after a phase is the one before it or a value some counted reply carried. */
  lemma AdoptionComesFromReplies<V>(before: Adopted<V>, msg: PrepareMsg, peers: seq<string>, arrivals: seq<Arrival<PromiseMsg<V>>>)
    requires DistinctPeers(arrivals, |peers|)
    ensures var after := AdoptAll(before, EchoedReports(msg, peers, arrivals));
            after.value == before.value || exists k :: 0 <= k < |arrivals| && Carries(arrivals[k], after.value)
  {
    var rs := EchoedReports(msg, peers, arrivals);
    AdoptAllIsFirstMaximum(before, rs);
    var after := AdoptAll(before, rs);
    if after != before {
      var k: nat :| FirstMaximum(before, rs, k, after);
      EchoedReportsComeFromArrivals(msg, peers, arrivals);
      assert rs[k] in rs;
      var j :| 0 <= j < |arrivals| && arrivals[j].delivery == Delivered(rs[k]);
      assert Carries(arrivals[j], after.value);
    }
  }

  /** Counts over a prefix never exceed counts over the whole sequence. */
  lemma {:induction false} CountsGrow(vs: seq<bool>, p: nat)
    requires p <= |vs|
    ensures CountSuccesses(vs[..p]) <= CountSuccesses(vs) && CountFailures(vs[..p]) <= CountFailures(vs)
    decreases |vs|
  {
    if p < |vs| {
      CountsGrow(vs[..|vs| - 1], p);
      assert vs[..|vs| - 1][..p] == vs[..p];
    } else {
      assert vs[..p] == vs;
    }
  }
}
