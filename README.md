# Single-decree Paxos: proposer, acceptor and proposal numbering

This project models the consensus core of a small single-decree Paxos library written in Go, and proves properties of that model.

- **Proposer.** A proposer repeatedly runs a round. Phase 1 draws a fresh proposal number and sends a prepare request to every acceptor. When a majority promises, phase 2 sends an accept request. That request carries the highest previously accepted value reported to the proposer, or the proposer's own value if none was reported. When a majority accepts, the value is decided.
- **Acceptor.** An acceptor promises only to numbers strictly above its last promise. It accepts only the number it last promised. On a successful accept it notifies every configured learner.
- **Numbering.** Proposal numbers combine a per-proposer round sequence with the proposer's identity.

The model has five modules:

- `Messages` (messages.dfy) holds the four wire records and proposal numbers. A number is the exact pair `(sequence, proposer)`, ordered lexicographically. `Zero` is "no number yet", and `Option` stands for the source's nil-able `interface{}` values.
- `Numbering` (numbering.dfy) holds the generator of proposal numbers. Next to it sits the source's decimal encoding "sequence.proposer" as written, with lemmas showing where the two agree and where the decimal one breaks (see Findings).
- `AcceptorModel` (acceptor.dfy) gives the two request handlers as functions `OnPrepare` and `OnAccept` of the acceptor state. It also has a class `Acceptor` whose fields are that state and whose methods are proved to perform exactly those transitions. Learner notifications are returned as a list of calls.
- `ProposerModel` (proposer.dfy) covers one proposer:
  - the quorum size;
  - how replies are classified;
  - counting replies until a success or failure quorum;
  - adoption of reported values;
  - the class `Proposer` with `prepare`, `accept`, `setAccepted`, `clean` and the round loop of `propose`.

  The replies of one phase are a sequence in arrival order. When the replies run out before either quorum, that is the 200 ms timeout. Each round of `propose` consumes one such script.
- `Agreement` (agreement.dfy) models a whole cluster as an interleaving of atomic steps. The steps are:
  - proposers starting rounds, taking in promise replies, sending accept requests and deciding;
  - acceptors handling any prepare request, and any accept request ever sent, in any order and any number of times.

  Its main result is `RunsAgree`: along every run, all proposers that have decided hold the same value. This is the agreement half of what the multi-proposer tests check (test_test.go:87-103). Those tests also require every proposer to decide, which is a liveness property and is not modelled. `RunsAgree` rests on one ordering: every counted promise's report is taken in before the accept request is built. The source does not enforce that ordering (see Findings).

The model follows the code in these points:
- A prepare reply reports the acceptor's previously accepted pair only when the promise is granted (acceptor.go:40-46). A rejected reply reports nothing.
- `propose` returns nil (proposer.go:30-34) and leaves the decision in the proposer's `decidedValue`.
- The proposer takes in a reported pair from every reply that echoes its request, granted or not (proposer.go:82-97). Since acceptors only report on success, only granted replies carry a pair.
- Nothing rejects duplicate proposer identities or an empty acceptor list at construction. `Agreement.Init` assumes distinct identities.

## Model

| member | source | states |
|---|---|---|
| Messages.LessIsStrictTotalOrder | acceptor.go:40 | proposal numbers are strictly and totally ordered, with the zero number below every other |
| Numbering.GenerateNumber | messager.go:47-64 | the next number carries the proposer's identity, is strictly above the previous number, and has sequence 1 on first use and the previous sequence plus one afterwards |
| Numbering.NumberAfterIsSequence | messager.go:47-64 | starting from zero, the k-th number a proposer draws is (k, identity) |
| Numbering.NumberAfterIncreases | proposer.go:158-168 | a proposer's numbers strictly increase from round to round |
| Numbering.DistinctProposersNeverCollide | messager.go:47-64 | proposers with different identities never draw the same number, whatever rounds they are in |
| Numbering.DecimalNumbersCollide | messager.go:49-55 | the decimal encoding gives proposers 1 and 10 the same first number, while the pair numbers differ |
| Numbering.DecimalNumbersMisorder | messager.go:57-58 | the decimal encoding orders (1, 10) below (1, 2), the reverse of the pair order |
| Numbering.DecimalOrderMatchesPairOrder | messager.go:57-58 | with one-digit identities, decimal order and pair order agree in both directions |
| Numbering.PairGeneratorMatchesDecimal | messager.go:47-64 | with one-digit identities, the pair generator yields exactly the decimal generator's number |
| AcceptorModel.OnPrepare | acceptor.go:36-51 | the reply echoes the number and address; it is granted iff the number exceeds the promise, and then the promise becomes that number, otherwise nothing changes; the prior accepted pair is reported iff granted with a non-zero accepted number and a non-nil value |
| AcceptorModel.OnAccept | acceptor.go:53-68 | granted iff the number equals the promise; then the acceptor holds that number as promise and accepted number with the request's value, and the reply carries its address; otherwise nothing changes and the address is empty |
| AcceptorModel.HandlersKeepConsistent | acceptor.go:36-68 | both handlers keep the accepted number at or below the promise and never lower the promise |
| AcceptorModel.RunIsMonotone | acceptor.go:36-68 | over any sequence of requests, the promise and the accepted number never decrease and stay ordered |
| AcceptorModel.PromiseRejectsLowerAccepts | acceptor.go:56 | after promising n, no accept request numbered below n succeeds, whatever requests come in between |
| AcceptorModel.AcceptResendIsIdempotent | acceptor.go:53-68 | repeating a successful accept request succeeds again with the same reply and state |
| AcceptorModel.Acceptor.constructor | acceptor.go:11-20 | a new acceptor has zero numbers and no value, and satisfies the class invariant |
| AcceptorModel.Acceptor.RecievePrepare | acceptor.go:36-51 | the fields and reply after the call are exactly OnPrepare's; the class invariant (accepted number at or below the promise) is required and kept |
| AcceptorModel.Acceptor.RecieveAccept | acceptor.go:53-68 | the fields and reply are exactly OnAccept's; a granted accept notifies every learner, in order, with the reply, and a rejected one notifies none; the class invariant is required and kept |
| AcceptorModel.Acceptor.Clean | acceptor.go:93-97 | all three fields return to zero or nil, which satisfies the class invariant |
| ProposerModel.QuorumSize | proposer.go:43-48 | the quorum is the smallest strict majority of the acceptors |
| ProposerModel.QuorumSizeExamples | proposer.go:45 | quorum sizes for one, three, four and five acceptors are 1, 2, 3 and 3 |
| ProposerModel.Proposer.GetQuorumSize | proposer.go:43-48 | the proposer's quorum is the smallest strict majority of its acceptor list |
| ProposerModel.EachReplyCountsOnce | proposer.go:82-93 | every reply raises exactly one of the success and failure counters |
| ProposerModel.ResolveRound | proposer.go:69-108 | the phase ends at the first reply after which a counter reaches the quorum, success first; if none does, every reply was counted and the phase times out |
| ProposerModel.ResolutionIsUnique | proposer.go:101-108 | the replies determine the outcome and the stopping point |
| ProposerModel.PromiseVerdicts | proposer.go:82-93 | a promise reply is a success iff it was delivered, echoes the number and the dialled address, and is granted |
| ProposerModel.AcceptVerdicts | proposer.go:132-142 | an accepted reply is a success iff it was delivered, echoes the number and the dialled address, and is granted |
| ProposerModel.PeerSetSize | proposer.go:69-70 | one goroutine per acceptor: the replies come from distinct configured acceptors |
| ProposerModel.DistinctPeersBound | proposer.go:69-70 | a phase sees at most as many replies as there are acceptors |
| ProposerModel.QuorumsAreExclusive | proposer.go:72-79 | a success quorum and a failure quorum cannot both form in one phase |
| ProposerModel.AllRepliesResolveOddCluster | proposer.go:101-108 | with an odd number of acceptors that all answer, a phase resolves before the timeout |
| ProposerModel.EvenClusterCanTie | proposer.go:101-103 | with four acceptors, two successes and two failures reach neither quorum |
| ProposerModel.AdoptAllIsFirstMaximum | proposer.go:183-190 | after any sequence of reports, the adopted number is the maximum of the start and all reported numbers, and the pair is the start or that of the first report carrying the maximum |
| ProposerModel.AdoptedNeverDecreases | proposer.go:185 | the adopted number never decreases |
| ProposerModel.EchoedReportsComeFromArrivals | proposer.go:82-97 | every report the proposer takes in is the reply of one of the acceptors |
| ProposerModel.AdoptionComesFromReplies | proposer.go:95-97 | after a phase, the adopted value is the one before it or a value some counted reply carried |
| ProposerModel.AdoptNextArrival | proposer.go:95-97 | taking in one more reply changes the adopted pair only when that reply echoes the request and reports a non-zero accepted number, and then exactly as the strict-maximum rule says |
| ProposerModel.Proposer.constructor | proposer.go:9-18 | a new proposer has zero numbers and no values |
| ProposerModel.Proposer.Clean | proposer.go:22-28 | every per-instance field returns to zero or nil |
| ProposerModel.Proposer.Prepare | proposer.go:158-168 | the proposer's number becomes the next generated number, and the request carries it |
| ProposerModel.Proposer.Accept | proposer.go:170-181 | the accept request carries the current number, and the adopted value when one was reported, else the proposer's own value |
| ProposerModel.Proposer.SetAccepted | proposer.go:183-190 | the adopted pair is replaced only by a strictly higher reported number |
| ProposerModel.Proposer.RunPreparePhase | proposer.go:62-108 | phase 1 resolves as ResolveRound prescribes over the promise verdicts, and the adopted pair is the fold of the reports of the counted echoed replies |
| ProposerModel.Proposer.RunAcceptPhase | proposer.go:110-150 | phase 2 resolves as ResolveRound prescribes over the accepted verdicts, changing nothing |
| ProposerModel.Proposer.RunRound | proposer.go:60-155 | a round draws the next number; its trace records how phase 1 resolved, the adopted pair as the exact fold of the counted echoed reports, the accept request (number and adopted-or-own value) sent only on a promise quorum, and how phase 2 resolved; it decides iff both phases reached their success quorum, and then decides the request's value; otherwise the decision is unchanged |
| ProposerModel.Proposer.Propose | proposer.go:30-60 | returns nil; round k uses the k-th number drawn, starts from the pair the round before left, and follows its script; the proposer decides iff the last round run decided, every earlier round did not, and then it holds that round's request value; undecided, it ran every script; a decided value is the proposed one, the previously adopted one, or one an acceptor reported |
| ProposerModel.TraceSnoc | proposer.go:60-155 | a trace that follows its scripts, extended by a round that follows the next script from the number and pair the trace left, still follows them |
| ProposerModel.TraceAdoptsReported | proposer.go:60-155 | across any number of rounds, the pair the proposer ends up with carries its starting value or a value some acceptor reported in one of the rounds |
| ProposerModel.SuccessPeersCount | proposer.go:89-93 | the acceptors whose replies were counted as successes are as many as the success counter, and each of them did send a successful reply |
| ProposerModel.SuccessPeerIsNew | proposer.go:69-70 | the acceptor of the next reply is not among those whose earlier replies were counted as successes, because each acceptor answers once |
| ProposerModel.SuccessPeersSize | proposer.go:89-93 | the set of acceptors counted as successes after any prefix of replies has exactly as many members as the success counter |
| ProposerModel.QuorumOfSuccesses | proposer.go:72-74 | a success counter at the quorum means a majority set of distinct acceptors sent successful replies |
| ProposerModel.DecidingRoundHasQuorums | proposer.go:101-153 | a deciding round has a majority of acceptors that granted its promise and a majority that accepted its request |
| Agreement.QuorumsIntersect | proposer.go:43-48 | any two majorities of the acceptors share an acceptor |
| Agreement.ChosenBindsHigherProposals | proposer.go:170-181 | once a quorum accepted a proposal, every higher-numbered accept request carries its value |
| Agreement.InvImpliesAgreement | test_test.go:87-103 | in every state satisfying the invariant, all decided proposers hold the same value |
| Agreement.InitEstablishesInv | proposer.go:22-28 | fresh acceptors and proposers satisfy the invariant |
| Agreement.SafeAtIsStable | acceptor.go:56 | raising promises and adding votes at an acceptor's promise keep every safety witness valid |
| Agreement.ChosenIsStable | acceptor.go:53-68 | a chosen proposal stays chosen as acceptors accept more |
| Agreement.StartRoundKeepsInv | proposer.go:158-168 | drawing a new number keeps the invariant |
| Agreement.ReceivePromiseKeepsInv | proposer.go:95-97 | taking in a reported pair keeps the invariant |
| Agreement.RequestIsSafe | proposer.go:170-181 | the accept request sent after a promise quorum, carrying the highest reported value or the proposer's own, is safe: no other value can be chosen below its number |
| Agreement.SendAcceptKeepsInv | proposer.go:116-144 | sending the accept request keeps the invariant, including unique proposal numbers |
| Agreement.SendAcceptKeepsProposers | proposer.go:116 | sending the accept request keeps every proposer's bookkeeping consistent, and no earlier proposal carries the sender's current number |
| Agreement.NewProposalKeepsHistory | proposer.go:116-144 | adding proposals while acceptors, votes and promises stay as they were keeps every acceptor, vote and promise consistent, and every earlier proposal safe |
| Agreement.DecideKeepsInv | proposer.go:145-153 | deciding after an accept quorum keeps the invariant |
| Agreement.DeliverPrepareKeepsInv | acceptor.go:36-51 | an acceptor handling any prepare request keeps the invariant |
| Agreement.DeliverAcceptKeepsInv | acceptor.go:53-68 | an acceptor handling any sent accept request keeps the invariant |
| Agreement.NextKeepsInv | proposer.go:57-156 | every step of the cluster keeps the invariant |
| Agreement.RunsAgree | test_test.go:87-103 | along every run from fresh acceptors and proposers, all decided proposers hold the same value |
| Agreement.CountingBeforeAdoptionDisagrees | proposer.go:72-116 | with the accept request built as soon as the promise counter reaches the quorum, before every counted reply's report is taken in, a run from fresh acceptors and proposers ends with two proposers deciding different values |

## Left out

- Remote calls (`callRpc`, `sendPrepare`, `sendAccept`, `startRpc`, `close`): a reply is a parameter, either delivered or failed. Learner notifications are returned as a list, not sent.
- Goroutines, atomic counters, channels and the 200 ms timers: a phase's replies are a sequence in arrival order, counted one at a time. Running out of replies before a quorum is the timeout.
- Replies that arrive after a phase has resolved: the source's late goroutines may still call `setAccepted`, but the proposer model drops them. The cluster model does allow late adoption: `ReceivePromise` takes any granted reply to any of the proposer's earlier numbers.
- Mutexes and data races: each handler and each proposer method is one atomic step. In the source, `RecieveAccept` and `RecievePrepare` update the acceptor's fields without the lock.
- Numbers as `float32`: numbers are exact pairs. The decimal encoding is kept only to expose where it breaks. Rounding to `float32` is not modelled.
- The learner role (learner.go), logging (`logPrint`), the simulated unreliable network, persistence and cluster bootstrap are not part of this model.
- ProposerModel.Proposer.Propose: runs over a finite list of round scripts, not forever. Its per-round trace and decision flag are ghost out-parameters.
- ProposerModel.Proposer.RunRound: requires the replies of a phase to come from distinct configured acceptors, as the one goroutine per acceptor guarantees.
- Agreement: proposers propose non-nil values. A decided nil, from `propose(nil)` with nothing to adopt, is not covered.
- Agreement: a proposer's steps follow the round structure without the counting. A promise quorum is a set of acceptors whose granted replies for the current number it took in, and an accept quorum is a set that accepted its request.
- Agreement.SendAccept: requires every promise of the quorum to have had its report taken in before the request is built. The source counts a reply (proposer.go:90) before taking in its report (proposer.go:96), and another reply's deferred check (proposer.go:72-74) can let `accept` (proposer.go:116) run in between. `Agreement.RunsAgree` therefore covers the corrected ordering only. `Agreement.CountingBeforeAdoptionDisagrees` shows the ordering as written losing agreement.

## Findings

| source | as written | input that shows it | evidently intended | confidence | as-written member | corrected member |
|---|---|---|---|---|---|---|
| proposer.go:82-116 | a promise is counted (line 90) before its report is taken in (line 96), and a goroutine's deferred check (lines 72-74) can signal the quorum in between, so `accept` (line 116) can read the adopted pair without that report | three acceptors; proposer 1 has 100 accepted at (1, 1) by acceptors 1 and 2 and decides; proposer 2 prepares (1, 2); acceptor 0 grants with no report; acceptor 1 grants reporting (1, 1) and 100; both are counted, acceptor 0's deferred check fires before acceptor 1's report is taken in; proposer 2 sends 101, which acceptors 0 and 1 accept, and decides 101 | every counted promise's report is taken in before the accept request is built | medium (depends on goroutine scheduling), not executed | Agreement.CountingBeforeAdoptionDisagrees | Agreement.RunsAgree |
| messager.go:47-64 | the number is the decimal text "sequence.identity" read back as a number, so identities with different digit counts collide or misorder | proposers 1 and 10 both open with 1.1; (1, 10) encodes as 1.10, below (1, 2) as 1.2 | distinct proposers never share a number, and numbers are ordered by sequence and then identity | high, not executed | Numbering.DecimalNumbersCollide | Numbering.DistinctProposersNeverCollide |
