/** `Math.round((yes / total) * 100)` on exact rationals: round half up, as
    `(200 * yes + total) / (2 * total)` in integer division. */
module Percent {

  function RoundPercent(yes: nat, total: nat): (p: nat)
    requires total > 0
    ensures 2 * total * p <= 200 * yes + total < 2 * total * (p + 1)
  {
    DivBounds(200 * yes + total, 2 * total);
    (200 * yes + total) / (2 * total)
  }

  lemma DivBounds(a: nat, b: nat)
    requires b > 0
    ensures b * (a / b) <= a < b * (a / b + 1)
  {
  }

  /** The rounded percentage of a share lies between 0 and 100. */
  lemma RoundPercentRange(yes: nat, total: nat)
    requires total > 0 && yes <= total
    ensures RoundPercent(yes, total) <= 100
  {
    var p := RoundPercent(yes, total);
    if p > 100 {
      assert 2 * total * p >= 2 * total * 101 by {
        MulMonotone(2 * total, 101, p);
      }
      assert false;
    }
  }

  lemma MulMonotone(k: nat, a: nat, b: nat)
    requires a <= b
    ensures k * a <= k * b
  {
  }

  /** All yes is 100 and none is 0. */
  lemma RoundPercentEnds(total: nat)
    requires total > 0
    ensures RoundPercent(total, total) == 100
    ensures RoundPercent(0, total) == 0
  {
    var p := RoundPercent(total, total);
    if p < 100 {
      MulMonotone(2 * total, p + 1, 100);
      assert false;
    } else if p > 100 {
      MulMonotone(2 * total, 101, p);
      assert false;
    }
    var z := RoundPercent(0, total);
    if z > 0 {
      MulMonotone(2 * total, 1, z);
      assert false;
    }
  }

  /** The rounded share is 100 exactly when at least 99.5% of the answers are yes. */
  lemma RoundsToHundred(yes: nat, total: nat)
    requires total > 0 && yes <= total
    ensures RoundPercent(yes, total) == 100 <==> 200 * yes >= 199 * total
  {
    var p := RoundPercent(yes, total);
    RoundPercentRange(yes, total);
    if 200 * yes >= 199 * total && p < 100 {
      MulMonotone(2 * total, p + 1, 100);
      assert false;
    }
  }

  /** Rounding half up reaches 100 before every answer is yes: 199 of 200 is 99.5%, shown as 100. */
  lemma HundredBeforeAll()
    ensures RoundPercent(199, 200) == 100
  {
  }
}
