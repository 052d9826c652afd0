/**
 * The completion percentage `updateProgress` computes and reports as the raw
 * score: `(visitedSlides.length / totalSlides) * 100`, in JavaScript number
 * arithmetic. The value is modelled exactly, as a real, with JavaScript's
 * `NaN` and `Infinity` for a deck of zero slides.
 */
module Completion {
  import opened Navigation

  datatype Percent = Finite(value: real) | Infinity | NaN

  /** The progress figure for `visited` out of `total` slides. */
  function Progress(visited: seq<nat>, total: nat): (r: Percent)
    ensures total == 0 ==> (r == NaN <==> visited == [])
    ensures total == 0 ==> (r == Infinity <==> visited != [])
    ensures total > 0 ==> r.Finite? && r.value * total as real == 100.0 * |visited| as real
  {
    if total == 0 then
      (if visited == [] then NaN else Infinity)
    else
      Finite(|visited| as real / total as real * 100.0)
  }

  /** Multiplying by a positive number preserves order, so it can be cancelled. */
  lemma CancelPositive(p: real, q: real, t: real)
    requires t > 0.0 && p * t <= q * t
    ensures p <= q
  {
    assert (q - p) * t == q * t - p * t;
  }

  /** Progress grows with the number of entries in the visited list. */
  lemma ProgressOrder(shorter: seq<nat>, longer: seq<nat>, total: nat)
    requires total > 0 && |shorter| <= |longer|
    ensures Progress(shorter, total).value <= Progress(longer, total).value
  {
    var t := total as real;
    var p, q := Progress(shorter, total).value, Progress(longer, total).value;
    var n, m := |shorter| as real, |longer| as real;
    assert n <= m;
    assert p * t == 100.0 * n && q * t == 100.0 * m;
    CancelPositive(p, q, t);
  }

  /** Progress never goes down as slides are visited. */
  lemma ProgressMonotone(visited: seq<nat>, ev: SlideEvent, total: nat)
    requires total > 0
    ensures Progress(visited, total).value <= Progress(Visit(visited, ev), total).value
  {
    ProgressOrder(visited, Visit(visited, ev), total);
  }

  /** On a duplicate-free list of slides of the deck, progress lies between 0 and 100. */
  lemma ProgressBounded(visited: seq<nat>, total: nat)
    requires total > 0
    requires NoDuplicates(visited)
    requires forall v :: v in visited ==> v < total
    ensures 0.0 <= Progress(visited, total).value <= 100.0
  {
    BoundedDistinct(visited, total);
    var t := total as real;
    var p := Progress(visited, total).value;
    assert p * t == 100.0 * |visited| as real;
    assert 0.0 * t <= p * t;
    CancelPositive(0.0, p, t);
    assert p * t <= 100.0 * t;
    CancelPositive(p, 100.0, t);
  }

  /** Progress reaches exactly 100 when as many distinct slides as the deck holds have been visited. */
  lemma ProgressFull(visited: seq<nat>, total: nat)
    requires total > 0
    ensures Progress(visited, total).value == 100.0 <==> |visited| == total
  {
    var t := total as real;
    var p := Progress(visited, total).value;
    assert p * t == 100.0 * |visited| as real;
    if |visited| == total {
      CancelPositive(p, 100.0, t);
      CancelPositive(100.0, p, t);
    }
  }

  /** The figure is not clamped: a restored list naming more slides than the deck has gives more than 100. */
  lemma ProgressUnclamped()
    ensures Progress([0, 1, 2], 2) == Finite(150.0)
  {
  }
}
