/** Selection weights (lib/genetical.js, `adjustScore`): the number each
    selection strategy treats as a candidate's share of the wheel. */
module Weights {
  import opened Numbers
  import opened Extended
  import opened Candidates

  /** `adjustScore`: with natural fitness the score is the weight; otherwise
      lower is better, so the weight is the reciprocal of the score and a
      perfect score of 0 gets an infinite weight. */
  function AdjustScore(natural: bool, score: real): (w: Ext)
    ensures natural ==> w == Fin(score)
    ensures !natural && score == 0.0 ==> w == PosInf
    ensures !natural && score != 0.0 ==> w.Fin? && w.v * score == 1.0
  {
    if natural then Fin(score)
    else if score == 0.0 then PosInf
    else
      DivThenMul(1.0, score);
      Fin(1.0 / score)
  }

  /** In inverted mode a strictly better (lower, positive) score earns a
      strictly larger weight. */
  lemma InvertedWeightsReverseOrder(a: real, b: real)
    requires 0.0 < a < b
    ensures AdjustScore(false, a).Fin? && AdjustScore(false, b).Fin?
    ensures AdjustScore(false, b).v < AdjustScore(false, a).v
  {
    var wa, wb := AdjustScore(false, a).v, AdjustScore(false, b).v;
    ReciprocalAntitone(a, b, wa, wb);
  }

  lemma ReciprocalAntitone(a: real, b: real, wa: real, wb: real)
    requires 0.0 < a < b && wa * a == 1.0 && wb * b == 1.0
    ensures wb < wa
  {
    assert 0.0 < wb;
    assert wb * a < wb * b;
    assert (wa - wb) * a > 0.0;
  }

  /** A non-zero score and its inverted weight have the same sign. */
  lemma InvertedWeightKeepsSign(score: real)
    requires score != 0.0
    ensures AdjustScore(false, score).Fin?
    ensures (0.0 < AdjustScore(false, score).v) == (0.0 < score)
  {
    var w := AdjustScore(false, score).v;
    assert w * score == 1.0;
  }

  /** The weight of every candidate, in population order. */
  function AdjustedWeights<P>(natural: bool, pop: seq<Candidate<P>>): (ws: seq<Ext>)
    ensures |ws| == |pop|
    ensures forall i :: 0 <= i < |pop| ==> ws[i] == AdjustScore(natural, pop[i].score)
  {
    seq(|pop|, i requires 0 <= i < |pop| => AdjustScore(natural, pop[i].score))
  }

  predicate AllFinite(ws: seq<Ext>)
  {
    forall i :: 0 <= i < |ws| ==> ws[i].Fin?
  }

  /** The reals behind finite weights. */
  function Values(ws: seq<Ext>): (xs: seq<real>)
    requires AllFinite(ws)
    ensures |xs| == |ws|
    ensures forall i :: 0 <= i < |ws| ==> ws[i] == Fin(xs[i])
  {
    seq(|ws|, i requires 0 <= i < |ws| => ws[i].v)
  }

  /** In natural mode weights are always finite; in inverted mode exactly
      when no score is zero. */
  lemma WeightsFinite<P>(natural: bool, pop: seq<Candidate<P>>)
    ensures AllFinite(AdjustedWeights(natural, pop))
        <==> natural || forall i :: 0 <= i < |pop| ==> pop[i].score != 0.0
  {
  }
}
