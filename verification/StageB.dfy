/** Stage B: the fixed-order recursive predictor (src/stage_b.rs). */
module StageB {
  import opened Words

  /** `(prev * 31) >> 5`, the product wrapping. */
  function Predict(prev: i32): (p: i32)
    ensures -0x400_0000 <= p < 0x400_0000
  {
    MulI32(prev, 31) / 32
  }

  /** The prediction is thirty-one times the previous value, wrapped to 32 bits, divided
      by 32 and rounded down. */
  lemma PredictLaw(prev: i32)
    ensures var product := WrapI32(31 * prev); 32 * Predict(prev) <= product < 32 * (Predict(prev) + 1)
  {
    hide WrapI32;
  }

  /** While the product does not wrap, the prediction is the previous value decayed by
      one thirty-second and rounded down: strictly closer to zero, except that the
      values from -31 to 0 stay where they are. */
  lemma PredictDecays(prev: i32)
    requires -0x400_0000 <= prev < 0x400_0000
    ensures 0 <= 31 * prev - 32 * Predict(prev) < 32
    ensures prev > 0 ==> 0 <= Predict(prev) < prev
    ensures prev < -31 ==> prev < Predict(prev) < 0
    ensures -31 <= prev <= 0 ==> Predict(prev) == prev
  {
    hide WrapI32;
    WrapI32Same(prev * 31);
  }

  class StageBState {
    var prev: i32

    constructor ()
      ensures prev == 0
    {
      prev := 0;
    }

    method Step(a: i32) returns (b: i32)
      modifies this
      ensures b == AddI32(a, Predict(old(prev))) && prev == b
    {
      var p := MulI32(prev, 31) / 32;
      b := AddI32(a, p);
      prev := b;
    }
  }
}
