/** The top-N ranking of `predict_disease` (backend/model.py:116-127):
    `np.argsort(probabilities)[-top_n:][::-1]`, then one prediction per index. */
module Ranking {

  /** One entry of the result: `{'disease': ..., 'probability': ...}`. */
  datatype Prediction = Prediction(disease: string, probability: real)

  /** `order` is an `np.argsort` of `probs`: a permutation of the indices of
      `probs` listing them from the smallest probability up. How ties are
      ordered is left open. */
  predicate IsArgsort(probs: seq<real>, order: seq<nat>)
  {
    && |order| == |probs|
    && (forall i :: 0 <= i < |order| ==> order[i] < |probs|)
    && (forall i, j :: 0 <= i < j < |order| ==> order[i] != order[j])
    && (forall c :: 0 <= c < |probs| ==> c in order)
    && (forall i, j :: 0 <= i <= j < |order| ==> probs[order[i]] <= probs[order[j]])
  }

  /** Python's `s[-t:]` for `t >= 1`: the last `t` elements, or all of `s`
      when it is shorter. */
  function LastN<T>(s: seq<T>, t: int): (r: seq<T>)
    requires t >= 1
    ensures |r| == (if t < |s| then t else |s|)
  {
    if t < |s| then s[|s| - t..] else s
  }

  /** Python's `s[::-1]`. */
  function Reverse<T>(s: seq<T>): (r: seq<T>)
    ensures |r| == |s|
  {
    if s == [] then [] else Reverse(s[1..]) + [s[0]]
  }

  /** `min(top_n, n)`: how many indices `[-top_n:]` keeps of `n`. */
  function TopCount(n: nat, topN: int): nat
    requires topN >= 1
  {
    if topN < n then topN else n
  }

  /** `top_indices`, read from the back of `order`. */
  function TopIndices(order: seq<nat>, topN: int): (r: seq<nat>)
    requires topN >= 1
    ensures |r| == TopCount(|order|, topN)
    ensures forall k :: 0 <= k < |r| ==> r[k] == order[|order| - 1 - k]
  {
    seq(TopCount(|order|, topN), k requires 0 <= k < TopCount(|order|, topN) => order[|order| - 1 - k])
  }

  lemma {:induction false} ReverseAt<T>(s: seq<T>)
    ensures forall k :: 0 <= k < |s| ==> Reverse(s)[k] == s[|s| - 1 - k]
    decreases |s|
  {
    if s != [] {
      ReverseAt(s[1..]);
    }
  }

  /** The closed form is `np.argsort(probabilities)[-top_n:][::-1]`. */
  lemma TopIndicesIsSlice(order: seq<nat>, topN: int)
    requires topN >= 1
    ensures TopIndices(order, topN) == Reverse(LastN(order, topN))
  {
    var tail := LastN(order, topN);
    ReverseAt(tail);
    assert forall k :: 0 <= k < |tail| ==> tail[k] == order[|order| - |tail| + k];
  }

  /** `top` lists `m` distinct class indices whose probabilities never
      increase down the list, each at least as probable as every class it
      leaves out. */
  predicate RankedTop(probs: seq<real>, top: seq<nat>, m: int)
  {
    && |top| == m
    && (forall k :: 0 <= k < |top| ==> top[k] < |probs|)
    && (forall k, l :: 0 <= k < l < |top| ==> top[k] != top[l])
    && (forall k, l :: 0 <= k <= l < |top| ==> probs[top[k]] >= probs[top[l]])
    && (forall k, c :: 0 <= k < |top| && 0 <= c < |probs| && c !in top ==> probs[top[k]] >= probs[c])
  }

  /** A class left out of the top indices sits below all of them in `order`,
      so it is no more probable than any of them. */
  lemma LeftOutBelow(probs: seq<real>, order: seq<nat>, topN: int, k: nat, c: nat)
    requires topN >= 1 && IsArgsort(probs, order)
    requires k < |TopIndices(order, topN)| && c < |probs| && c !in TopIndices(order, topN)
    ensures probs[TopIndices(order, topN)[k]] >= probs[c]
  {
    var top := TopIndices(order, topN);
    var n, m := |order|, |top|;
    assert forall q :: n - m <= q < n ==> order[q] == top[n - 1 - q];
    assert c in order;
    var p :| 0 <= p < n && order[p] == c;
    assert p < n - m;
  }

  /** The top-N indices are `min(top_n, |classes|)` distinct class indices
      from the most probable down, and each of them is at least as probable
      as every class left out. */
  lemma TopIndicesSpec(probs: seq<real>, order: seq<nat>, topN: int)
    requires topN >= 1 && IsArgsort(probs, order)
    ensures RankedTop(probs, TopIndices(order, topN), TopCount(|probs|, topN))
  {
    var top := TopIndices(order, topN);
    var n, m := |order|, |top|;
    forall k, c | 0 <= k < m && 0 <= c < |probs| && c !in top
      ensures probs[top[k]] >= probs[c]
    {
      LeftOutBelow(probs, order, topN, k, c);
    }
  }

  /** The predictions for a list of class indices, in that order. */
  function Predictions(classes: seq<string>, probs: seq<real>, indices: seq<nat>): (r: seq<Prediction>)
    requires |probs| == |classes|
    requires forall k :: 0 <= k < |indices| ==> indices[k] < |classes|
    ensures |r| == |indices|
  {
    seq(|indices|, k requires 0 <= k < |indices| => Prediction(classes[indices[k]], probs[indices[k]]))
  }

  /** The predictions for well-ranked indices name the classes they index,
      with their probabilities, from the most probable down, each at least
      as probable as every class left out. */
  lemma PredictionsRanked(classes: seq<string>, probs: seq<real>, top: seq<nat>, m: int)
    requires |probs| == |classes| && RankedTop(probs, top, m)
    ensures |Predictions(classes, probs, top)| == m
    ensures forall k :: 0 <= k < m ==> Predictions(classes, probs, top)[k] == Prediction(classes[top[k]], probs[top[k]])
    ensures forall k, l :: 0 <= k <= l < m
              ==> Predictions(classes, probs, top)[k].probability >= Predictions(classes, probs, top)[l].probability
    ensures forall k, c :: 0 <= k < m && 0 <= c < |classes| && c !in top
              ==> Predictions(classes, probs, top)[k].probability >= probs[c]
  {
  }

  /** Distinct indices into a list of distinct classes name distinct
      diseases. */
  lemma PredictionsDistinct(classes: seq<string>, probs: seq<real>, top: seq<nat>, m: int)
    requires |probs| == |classes| && RankedTop(probs, top, m)
    requires forall i, j :: 0 <= i < j < |classes| ==> classes[i] != classes[j]
    ensures forall k, l :: 0 <= k < l < m
              ==> Predictions(classes, probs, top)[k].disease != Predictions(classes, probs, top)[l].disease
  {
    forall k, l | 0 <= k < l < m
      ensures Predictions(classes, probs, top)[k].disease != Predictions(classes, probs, top)[l].disease
    {
      assert top[k] != top[l];
      if top[k] > top[l] {
        assert classes[top[l]] != classes[top[k]];
      }
    }
  }

  /** The ranking loop: one prediction per top index, in order. Under a
      valid argsort the result lists `min(top_n, |classes|)` distinct class
      indices from the most probable down. */
  method Rank(classes: seq<string>, probs: seq<real>, order: seq<nat>, topN: int)
    returns (top: seq<Prediction>)
    requires topN >= 1 && |probs| == |classes| && IsArgsort(probs, order)
    ensures top == Predictions(classes, probs, TopIndices(order, topN))
    ensures RankedTop(probs, TopIndices(order, topN), TopCount(|classes|, topN))
  {
    TopIndicesSpec(probs, order, topN);
    var indices := TopIndices(order, topN);
    top := [];
    var k := 0;
    while k < |indices|
      invariant 0 <= k <= |indices|
      invariant top == Predictions(classes, probs, indices[..k])
    {
      var idx := indices[k];
      top := top + [Prediction(classes[idx], probs[idx])];
      k := k + 1;
      assert indices[..k] == indices[..k - 1] + [idx];
    }
    assert indices[..k] == indices;
  }
}
