/** Inter-channel decorrelation of one sample slot (src/decorr.rs). */
module Decorr {
  import opened Words

  /** Encoder side: successive differences, the highest channel keeping its value
      minus half the last difference. */
  function Forward(p: seq<i32>): (r: seq<i32>)
    ensures |r| == |p|
  {
    if |p| < 2 then p
    else
      var delta := SubI32(p[1], p[0]);
      if |p| == 2 then [delta, SubI32(p[1], HalfTowardZero(delta))]
      else [delta] + Forward(p[1..])
  }

  /** Decoder side: the highest channel first, then each lower one from its
      neighbour. */
  function Inverse(d: seq<i32>): (r: seq<i32>)
    ensures |r| == |d|
  {
    if |d| < 2 then d
    else if |d| == 2 then
      var top := AddI32(d[1], HalfTowardZero(d[0]));
      [SubI32(top, d[0]), top]
    else
      var upper := Inverse(d[1..]);
      [SubI32(upper[0], d[0])] + upper
  }

  lemma {:induction false} InverseForward(p: seq<i32>)
    ensures Inverse(Forward(p)) == p
  {
    hide AddI32, SubI32, HalfTowardZero;
    if |p| >= 2 {
      WrapFlip(p[0], p[1]);
      if |p| == 2 {
        WrapCancel(p[1], HalfTowardZero(SubI32(p[1], p[0])));
      } else {
        InverseForward(p[1..]);
        assert Forward(p)[1..] == Forward(p[1..]);
      }
    }
  }

  lemma {:induction false} ForwardInverse(d: seq<i32>)
    ensures Forward(Inverse(d)) == d
  {
    hide AddI32, SubI32, HalfTowardZero;
    if |d| == 2 {
      var top := AddI32(d[1], HalfTowardZero(d[0]));
      WrapFlip(d[0], top);
      WrapCancel(d[1], HalfTowardZero(d[0]));
    } else if |d| > 2 {
      ForwardInverse(d[1..]);
      WrapFlip(d[0], Inverse(d[1..])[0]);
      assert Inverse(d)[1..] == Inverse(d[1..]);
    }
  }

  /** In place, on the `n` entries from `base`. */
  method ForwardInPlace(a: array<i32>, base: nat, n: nat)
    requires base + n <= a.Length
    modifies a
    ensures a[base..base + n] == Forward(old(a[base..base + n]))
    ensures forall j :: 0 <= j < a.Length && !(base <= j < base + n) ==> a[j] == old(a[j])
  {
    hide AddI32, SubI32, HalfTowardZero;
    ghost var p := a[base..base + n];
    if n >= 2 {
      hide Forward;
      ForwardEntries(p);
      var lastDelta: i32 := 0;
      for i := 0 to n - 1
        invariant forall j :: 0 <= j < a.Length && !(base <= j < base + i) ==> a[j] == old(a[j])
        invariant forall j :: base <= j < base + i ==> a[j] == SubI32(p[j - base + 1], p[j - base])
        invariant i > 0 ==> lastDelta == SubI32(p[i], p[i - 1])
      {
        assert a[base + i] == p[i] && a[base + i + 1] == p[i + 1];
        var delta := SubI32(a[base + i + 1], a[base + i]);
        a[base + i] := delta;
        lastDelta := delta;
      }
      a[base + n - 1] := SubI32(a[base + n - 1], HalfTowardZero(lastDelta));
      forall k | 0 <= k < n
        ensures a[base..base + n][k] == Forward(p)[k]
      {
        assert a[base..base + n][k] == a[base + k];
      }
    } else {
      assert Forward(p) == p;
    }
  }

  /** Entry-wise description of the forward cascade. */
  lemma {:induction false} ForwardEntries(p: seq<i32>)
    requires |p| >= 2
    ensures forall i :: 0 <= i < |p| - 1 ==> Forward(p)[i] == SubI32(p[i + 1], p[i])
    ensures Forward(p)[|p| - 1] ==
            SubI32(p[|p| - 1], HalfTowardZero(SubI32(p[|p| - 1], p[|p| - 2])))
  {
    hide AddI32, SubI32, HalfTowardZero;
    if |p| > 2 {
      ForwardEntries(p[1..]);
    }
  }

  /** On samples of magnitude `m` no difference wraps, and the decorrelated top
      channel lies between its two source samples. */
  lemma {:induction false} ForwardBounds(p: seq<i32>, m: int)
    requires 0 < m <= 0x80_0000 && |p| >= 2
    requires forall i :: 0 <= i < |p| ==> -m <= p[i] < m
    ensures forall i :: 0 <= i < |p| - 1 ==> Forward(p)[i] == p[i + 1] - p[i]
    ensures var x, y, t := p[|p| - 2], p[|p| - 1], Forward(p)[|p| - 1];
            x <= t <= y || y <= t <= x
  {
    hide WrapI32, HalfTowardZero, Forward;
    ForwardEntries(p);
    forall i | 0 <= i < |p| - 1
      ensures Forward(p)[i] == p[i + 1] - p[i]
    {
      WrapI32Same(p[i + 1] - p[i]);
    }
    var x, y := p[|p| - 2], p[|p| - 1];
    TopBetween(x, y);
    WrapI32Same(y - x);
    WrapI32Same(y - HalfTowardZero(y - x));
  }

  lemma TopBetween(x: int, y: int)
    ensures var t := y - HalfTowardZero(y - x); x <= t <= y || y <= t <= x
  {
  }

  /** Entry-wise description of the inverse cascade. */
  lemma {:induction false} InverseEntries(d: seq<i32>)
    requires |d| >= 2
    ensures Inverse(d)[|d| - 1] == AddI32(d[|d| - 1], HalfTowardZero(d[|d| - 2]))
    ensures forall i :: 0 <= i < |d| - 1 ==> Inverse(d)[i] == SubI32(Inverse(d)[i + 1], d[i])
  {
    hide AddI32, SubI32, HalfTowardZero;
    if |d| > 2 {
      InverseEntries(d[1..]);
      assert Inverse(d)[1..] == Inverse(d[1..]);
    }
  }

  method InverseInPlace(a: array<i32>, base: nat, n: nat)
    requires base + n <= a.Length
    modifies a
    ensures a[base..base + n] == Inverse(old(a[base..base + n]))
    ensures forall j :: 0 <= j < a.Length && !(base <= j < base + n) ==> a[j] == old(a[j])
  {
    hide AddI32, SubI32, HalfTowardZero;
    ghost var d := a[base..base + n];
    if n >= 2 {
      InverseEntries(d);
      hide Inverse;
      assert a[base + n - 2] == d[n - 2] && a[base + n - 1] == d[n - 1];
      var below := a[base + n - 2];
      a[base + n - 1] := AddI32(a[base + n - 1], HalfTowardZero(below));
      for i := n - 1 downto 0
        invariant forall j :: 0 <= j < a.Length && !(base + i <= j < base + n) ==> a[j] == old(a[j])
        invariant forall j :: base + i <= j < base + n ==> a[j] == Inverse(d)[j - base]
      {
        var x := a[base + i];
        assert x == d[i];
        a[base + i] := SubI32(a[base + i + 1], x);
      }
      forall k | 0 <= k < n
        ensures a[base..base + n][k] == Inverse(d)[k]
      {
        assert a[base..base + n][k] == a[base + k];
      }
    } else {
      assert Inverse(d) == d;
    }
  }
}
