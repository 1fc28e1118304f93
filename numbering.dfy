/**
 * Proposal numbering: each round a proposer derives its next number from its
 * own previous one. The model works on exact (sequence, proposer) pairs; the
 * source's decimal encoding "sequence.proposer" is kept beside it, as written,
 * to show where the two agree and where the decimal one breaks.
 */
module Numbering {
  import opened Messages

  /**
   * The next proposal number of proposer `me`, given its previous number:
   * sequence 1 on first use, otherwise the integer part of the previous
   * number plus one, always tagged with `me`.
   */
  function GenerateNumber(me: nat, number: ProposalID): (r: ProposalID)
    ensures r.proposer == me
    ensures Less(number, r)
    ensures r.sequence == (if number == Zero then 1 else number.sequence + 1)
  {
    if number == Zero then ProposalID(1, me) else ProposalID(number.sequence + 1, me)
  }

  /** The number a proposer holds after `rounds` further rounds, starting from `start`. */
  function NumberAfter(me: nat, start: ProposalID, rounds: nat): ProposalID
  {
    if rounds == 0 then start else GenerateNumber(me, NumberAfter(me, start, rounds - 1))
  }

  /** Starting from 0, the k-th call of a proposer yields sequence k, tagged with its identity. */
  lemma {:induction false} NumberAfterIsSequence(me: nat, rounds: nat)
    requires rounds >= 1
    ensures NumberAfter(me, Zero, rounds) == ProposalID(rounds, me)
  {
    if rounds > 1 {
      NumberAfterIsSequence(me, rounds - 1);
    }
  }

  /** A proposer's numbers strictly increase from round to round. */
  lemma {:induction false} NumberAfterIncreases(me: nat, start: ProposalID, earlier: nat, later: nat)
    requires earlier < later
    ensures Less(NumberAfter(me, start, earlier), NumberAfter(me, start, later))
  {
    if earlier + 1 < later {
      NumberAfterIncreases(me, start, earlier, later - 1);
      LessIsStrictTotalOrder(NumberAfter(me, start, earlier), NumberAfter(me, start, later - 1), NumberAfter(me, start, later));
    }
  }

  /** Two proposers with distinct identities never hold the same number, at any pair of rounds. */
  lemma {:induction false} DistinctProposersNeverCollide(me1: nat, me2: nat, rounds1: nat, rounds2: nat)
    requires me1 != me2 && rounds1 >= 1 && rounds2 >= 1
    ensures NumberAfter(me1, Zero, rounds1) != NumberAfter(me2, Zero, rounds2)
  {
    NumberAfterIsSequence(me1, rounds1);
    NumberAfterIsSequence(me2, rounds2);
  }

  // ---------------------------------------------------------------------
  // The decimal encoding, as the source writes it: format "i.me" and parse
  // it back as a number (rounding to float32 is not modelled; the value is
  // the exact decimal).

  function Pow10(k: nat): (r: nat)
    ensures r >= 1
  {
    if k == 0 then 1 else 10 * Pow10(k - 1)
  }

  /** Number of decimal digits `%d` prints for `n`. */
  function Digits(n: nat): (d: nat)
    ensures d >= 1
  {
    if n < 10 then 1 else 1 + Digits(n / 10)
  }

  /** The exact value of the text "sequence.proposer". */
  function DecimalNumber(id: ProposalID): real
  {
    id.sequence as real + id.proposer as real / Pow10(Digits(id.proposer)) as real
  }

  /** The source's generator on decimal numbers: "1.me" first, then "(int(number)+1).me". */
  function GenerateDecimalNumber(me: nat, number: real): real
    requires number >= 0.0
  {
    if number == 0.0 then DecimalNumber(ProposalID(1, me))
    else DecimalNumber(ProposalID(number.Floor + 1, me))
  }

  /** Counterexample: proposers 1 and 10 both open with the decimal number 1.1. */
  lemma DecimalNumbersCollide()
    ensures GenerateDecimalNumber(1, 0.0) == GenerateDecimalNumber(10, 0.0)
    ensures GenerateNumber(1, Zero) != GenerateNumber(10, Zero)
  {
    assert Digits(10) == 2 by { assert Digits(1) == 1; }
    assert Pow10(2) == 100 by { assert Pow10(1) == 10; }
  }

  /** Counterexample: "1.10" is below "1.2" although proposer 10 outranks proposer 2 at sequence 1. */
  lemma DecimalNumbersMisorder()
    ensures Less(ProposalID(1, 2), ProposalID(1, 10))
    ensures DecimalNumber(ProposalID(1, 10)) < DecimalNumber(ProposalID(1, 2))
  {
    assert Digits(10) == 2 by { assert Digits(1) == 1; }
    assert Pow10(2) == 100 by { assert Pow10(1) == 10; }
  }

  /** For a one-digit identity the decimal is sequence + proposer/10, strictly below sequence + 1. */
  lemma SingleDigitDecimal(id: ProposalID)
    requires id.proposer < 10
    ensures DecimalNumber(id) == id.sequence as real + id.proposer as real / 10.0
    ensures id.sequence as real <= DecimalNumber(id) < id.sequence as real + 1.0
  {
    assert Pow10(1) == 10;
  }

  /** With one-digit identities (the range the tests configure) the decimal order is the pair order. */
  lemma {:induction false} DecimalOrderMatchesPairOrder(a: ProposalID, b: ProposalID)
    requires a.proposer < 10 && b.proposer < 10
    ensures Less(a, b) <==> DecimalNumber(a) < DecimalNumber(b)
  {
    SingleDigitDecimal(a);
    SingleDigitDecimal(b);
    if a.sequence < b.sequence {
      assert a.sequence as real + 1.0 <= b.sequence as real;
    } else if b.sequence < a.sequence {
      assert b.sequence as real + 1.0 <= a.sequence as real;
    }
  }

  /** With one-digit identities the pair generator computes exactly what the decimal one does. */
  lemma {:induction false} PairGeneratorMatchesDecimal(me: nat, number: ProposalID)
    requires me < 10 && number.proposer < 10
    ensures DecimalNumber(number) >= 0.0
    ensures DecimalNumber(GenerateNumber(me, number)) == GenerateDecimalNumber(me, DecimalNumber(number))
  {
    SingleDigitDecimal(number);
    var d := DecimalNumber(number);
    if number == Zero {
      assert d == 0.0;
    } else {
      assert d != 0.0 by {
        if number.sequence == 0 {
          assert number.proposer > 0;
        }
      }
      assert d.Floor == number.sequence;
    }
  }
}
