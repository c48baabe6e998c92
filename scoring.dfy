/**
 * The score shown to the user: `Math.round(correct / total * 100)` when there is at least
 * one question, and 0 otherwise. Both the quiz-state hook and the summary screen use it.
 */
module Scoring {

  /**
   * `Math.round` rounds halves up, so for `total > 0` the result is the integer `r` with
   * `r - 1/2 <= 100 * correct / total < r + 1/2`; multiplying through by `2 * total` gives
   * the integer statement below. Dafny's `/` with a positive divisor is floor division.
   */
  function Percentage(correct: int, total: int): (r: int)
    ensures total <= 0 ==> r == 0
    ensures total > 0 ==> 2 * total * r <= 200 * correct + total < 2 * total * (r + 1)
  {
    if total > 0 then (200 * correct + total) / (2 * total) else 0
  }

  /** Cancelling a positive factor from a strict product inequality. */
  lemma CancelFactor(t: int, a: int, b: int)
    requires t > 0 && t * a < t * b
    ensures a < b
  {
    assert t * (b - a) == t * b - t * a > 0;
  }

  /** With no more correct answers than questions, the score is a percentage. */
  lemma PercentageInRange(correct: int, total: int)
    requires 0 <= correct <= total
    ensures 0 <= Percentage(correct, total) <= 100
  {
    if total > 0 {
      var r := Percentage(correct, total);
      CancelFactor(2 * total, r, 101);
      CancelFactor(2 * total, -1, r + 1);
    }
  }

  /** More correct answers never give a lower score. */
  lemma PercentageMonotone(correct: int, correct': int, total: int)
    requires correct <= correct'
    ensures Percentage(correct, total) <= Percentage(correct', total)
  {
    if total > 0 {
      var r, r' := Percentage(correct, total), Percentage(correct', total);
      CancelFactor(2 * total, r, r' + 1);
    }
  }

  /** When the score is a whole number it is given exactly; in particular all correct gives 100. */
  lemma PercentageExact(correct: int, total: int, p: int)
    requires total > 0 && 100 * correct == p * total
    ensures Percentage(correct, total) == p
  {
    var r := Percentage(correct, total);
    assert 200 * correct + total == 2 * total * p + total;
    CancelFactor(2 * total, r, p + 1);
    CancelFactor(2 * total, p, r + 1);
  }
}
