/** The values and wire records exchanged by proposers, acceptors and learners. */
module Messages {

  /** An `interface{}` slot of the Go source: `None` stands for `nil`. */
  datatype Option<+T> = None | Some(value: T)

  /**
   * A proposal number. The source encodes it as the decimal "sequence.proposer";
   * here it is the exact pair, ordered lexicographically. `Zero` is the
   * "no number yet" value (the float `0`).
   */
  datatype ProposalID = ProposalID(sequence: nat, proposer: nat)

  const Zero: ProposalID := ProposalID(0, 0)

  /** Strict lexicographic order: first by sequence, then by proposer identity. */
  predicate Less(a: ProposalID, b: ProposalID)
  {
    a.sequence < b.sequence || (a.sequence == b.sequence && a.proposer < b.proposer)
  }

  predicate LessEq(a: ProposalID, b: ProposalID)
  {
    a == b || Less(a, b)
  }

  /** `Less` is a strict total order with `Zero` as its least element. */
  lemma LessIsStrictTotalOrder(a: ProposalID, b: ProposalID, c: ProposalID)
    ensures !Less(a, a)
    ensures Less(a, b) ==> !Less(b, a)
    ensures Less(a, b) && Less(b, c) ==> Less(a, c)
    ensures a == b || Less(a, b) || Less(b, a)
    ensures LessEq(Zero, a)
  {
  }

  /** Request of phase 1 (proposer to acceptor). */
  datatype PrepareMsg = PrepareMsg(proposeID: ProposalID)

  /**
   * Reply of phase 1. The field names `accepedID`/`accepedValue` keep the
   * spelling of the source's record.
   */
  datatype PromiseMsg<V> = PromiseMsg(
    acceptorAddr: string,
    proposeID: ProposalID,
    success: bool,
    accepedID: ProposalID,
    accepedValue: Option<V>)

  /** Request of phase 2 (proposer to acceptor). */
  datatype AcceptMsg<V> = AcceptMsg(proposeID: ProposalID, acceptorAddr: string, value: Option<V>)

  /** Reply of phase 2, also the payload an acceptor forwards to its learners. */
  datatype AcceptedMsg = AcceptedMsg(proposeID: ProposalID, acceptorAddr: string, success: bool)

  /** A zero-valued reply record, as the RPC layer allocates it before a handler fills it. */
  function EmptyPromise<V>(): PromiseMsg<V>
  {
    PromiseMsg("", Zero, false, Zero, None)
  }

  function EmptyAccepted(): AcceptedMsg
  {
    AcceptedMsg(Zero, "", false)
  }

  /** What a remote call yields: an error, or the reply record. */
  datatype Delivery<M> = Failed | Delivered(reply: M)
}
