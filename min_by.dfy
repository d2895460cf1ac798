/**
 * `Iterator::min_by` over a non-empty sequence of scores: the accumulated
 * element is kept unless the next one compares strictly smaller, so the
 * first of several equal minima wins.
 */
module MinBy {
  import opened Wrappers
  import opened Float64

  /** The index `min_by` settles on among the first `n` scores. */
  function FirstMin(scores: seq<real>, n: nat): (k: nat)
    requires 0 < n <= |scores|
    ensures k < n
    ensures forall i :: 0 <= i < n ==> scores[k] <= scores[i]
    ensures forall i :: 0 <= i < k ==> scores[k] < scores[i]
  {
    if n == 1 then 0
    else
      var acc := FirstMin(scores, n - 1);
      if scores[acc] > scores[n - 1] then n - 1 else acc
  }

  /** The position of the first smallest score: nothing is smaller, everything before it is larger. */
  function ArgMin(scores: seq<real>): (k: nat)
    requires |scores| > 0
    ensures k < |scores|
    ensures forall i :: 0 <= i < |scores| ==> scores[k] <= scores[i]
    ensures forall i :: 0 <= i < k ==> scores[k] < scores[i]
  {
    FirstMin(scores, |scores|)
  }

  /** The first smallest score is the only index with both properties. */
  lemma ArgMinUnique(scores: seq<real>, k: nat)
    requires k < |scores|
    requires forall i :: 0 <= i < |scores| ==> scores[k] <= scores[i]
    requires forall i :: 0 <= i < k ==> scores[k] < scores[i]
    ensures ArgMin(scores) == k
  {
  }

  /**
   * `min_by(|a, b| a.partial_cmp(b).expect(..))` over the first `n` doubles:
   * each step compares the kept score with the next one and panics (None)
   * when either is NaN; otherwise the next is kept only when strictly smaller.
   */
  function FirstMinBy(scores: seq<F64>, n: nat): (r: Option<nat>)
    requires 0 < n <= |scores|
    ensures r.None? <==> n > 1 && exists i :: 0 <= i < n && scores[i].NaN?
    ensures r.Some? ==> r.value < n
                        && (forall i :: 0 <= i < n ==> !Lt(scores[i], scores[r.value]))
                        && (forall i :: 0 <= i < r.value ==> Lt(scores[r.value], scores[i]))
    ensures r.Some? && n > 1 ==> forall i :: 0 <= i < n ==> !scores[i].NaN?
  {
    if n == 1 then Some(0)
    else
      match FirstMinBy(scores, n - 1)
      case None => None
      case Some(acc) =>
        if scores[acc].NaN? || scores[n - 1].NaN? then None
        else
          FirstMinByStep(scores, n, acc);
          if Lt(scores[n - 1], scores[acc]) then Some(n - 1) else Some(acc)
  }

  /** One step of the fold: the kept minimum of the first `n - 1` scores against score `n - 1`. */
  lemma FirstMinByStep(scores: seq<F64>, n: nat, acc: nat)
    requires 1 < n <= |scores| && acc < n - 1
    requires forall i :: 0 <= i < n ==> !scores[i].NaN?
    requires forall i :: 0 <= i < n - 1 ==> !Lt(scores[i], scores[acc])
    requires forall i :: 0 <= i < acc ==> Lt(scores[acc], scores[i])
    ensures Lt(scores[n - 1], scores[acc]) ==>
              (forall i :: 0 <= i < n ==> !Lt(scores[i], scores[n - 1])) && (forall i :: 0 <= i < n - 1 ==> Lt(scores[n - 1], scores[i]))
    ensures !Lt(scores[n - 1], scores[acc]) ==> forall i :: 0 <= i < n ==> !Lt(scores[i], scores[acc])
  {
    forall i | 0 <= i < n
      ensures Lt(scores[n - 1], scores[acc]) ==> !Lt(scores[i], scores[n - 1]) && (i < n - 1 ==> Lt(scores[n - 1], scores[i]))
    {
      LtOrder(scores[i], scores[n - 1], scores[acc]);
      LtOrder(scores[n - 1], scores[acc], scores[i]);
      LtOrder(scores[acc], scores[i], scores[n - 1]);
    }
  }

  /** The index `min_by` settles on among all the scores, or None for its panic. */
  function ArgMinBy(scores: seq<F64>): (r: Option<nat>)
    requires |scores| > 0
    ensures r.None? <==> |scores| > 1 && exists i :: 0 <= i < |scores| && scores[i].NaN?
    ensures r.Some? ==> r.value < |scores|
                        && (forall i :: 0 <= i < |scores| ==> !Lt(scores[i], scores[r.value]))
                        && (forall i :: 0 <= i < r.value ==> Lt(scores[r.value], scores[i]))
    ensures r.Some? && |scores| > 1 ==> forall i :: 0 <= i < |scores| ==> !scores[i].NaN?
  {
    FirstMinBy(scores, |scores|)
  }
}
