/**
 * The coverage test both scratch layers use: canvas pixel data is a flat
 * byte buffer of red, green, blue and alpha values, and a pixel counts as
 * scratched off when its alpha byte is 0. Only every few pixels are looked
 * at: the alpha bytes at 3, 3 + step, 3 + 2 step, ...
 */
module Pixels {

  newtype byte = x: int | 0 <= x < 256

  /** The first alpha byte: offset 3 of pixel 0. */
  const AlphaOffset := 3

  /** The number of sample positions `i`, `i + step`, ... below `length`. */
  function Slots(length: nat, i: nat, step: nat): nat
    requires step > 0
    decreases length - i
  {
    if i >= length then 0 else 1 + Slots(length, i + step, step)
  }

  /** The number of sampled alpha bytes from position `i` on that are 0. */
  function ClearSamples(data: seq<byte>, i: nat, step: nat): nat
    requires step > 0
    decreases |data| - i
  {
    if i >= |data| then 0
    else (if data[i] == 0 then 1 else 0) + ClearSamples(data, i + step, step)
  }

  /** The sampling loop: `for (i = 3; i < data.length; i += step) if
      (data[i] === 0) transparent++`. */
  method CountClear(data: array<byte>, step: nat) returns (transparent: nat)
    requires step > 0
    ensures transparent == ClearSamples(data[..], AlphaOffset, step)
  {
    transparent := 0;
    var i := AlphaOffset;
    while i < data.Length
      invariant AlphaOffset <= i
      invariant transparent + ClearSamples(data[..], i, step) == ClearSamples(data[..], AlphaOffset, step)
      decreases data.Length - i
    {
      if data[i] == 0 {
        transparent := transparent + 1;
      }
      i := i + step;
    }
  }

  /** `(transparent / (length / step)) * 100 > percent`, the share of
      sampled alpha bytes that are clear, with the division cleared: an
      empty buffer (where the quotient is not a number) never passes. */
  predicate Exceeds(transparent: nat, length: nat, step: nat, percent: nat) {
    transparent * 100 * step > percent * length
  }

  /** Every sampled alpha byte from position `i` on is 0. */
  predicate AllSampledClear(data: seq<byte>, i: nat, step: nat)
    requires step > 0
    decreases |data| - i
  {
    i >= |data| || (data[i] == 0 && AllSampledClear(data, i + step, step))
  }

  /** At most one hit per sample position. */
  lemma {:induction false} ClearAtMostSlots(data: seq<byte>, i: nat, step: nat)
    requires step > 0
    ensures ClearSamples(data, i, step) <= Slots(|data|, i, step)
    decreases |data| - i
  {
    if i < |data| {
      ClearAtMostSlots(data, i + step, step);
    }
  }

  /** A buffer whose sampled alpha bytes are all 0 hits every slot, and only
      such a buffer does. */
  lemma {:induction false} AllClear(data: seq<byte>, i: nat, step: nat)
    requires step > 0
    ensures ClearSamples(data, i, step) == Slots(|data|, i, step) <==> AllSampledClear(data, i, step)
    decreases |data| - i
  {
    if i < |data| {
      AllClear(data, i + step, step);
      ClearAtMostSlots(data, i + step, step);
    }
  }

  /** Scratching only ever clears alpha bytes, so it cannot lower the
      count: a buffer that is clear wherever another one is counts at least
      as many hits. */
  lemma {:induction false} ClearingIsMonotone(before: seq<byte>, after: seq<byte>, i: nat, step: nat)
    requires step > 0 && |before| == |after|
    requires forall k :: 0 <= k < |before| && before[k] == 0 ==> after[k] == 0
    ensures ClearSamples(before, i, step) <= ClearSamples(after, i, step)
    decreases |before| - i
  {
    if i < |before| {
      ClearingIsMonotone(before, after, i + step, step);
    }
  }

  lemma {:induction false} SlotsShift(length: nat, i: nat, step: nat)
    requires step > 0
    ensures Slots(length + step, i + step, step) == Slots(length, i, step)
    decreases length - i
  {
    if i < length {
      SlotsShift(length, i + step, step);
    }
  }

  /** A buffer of `groups` whole sample groups, sampled at an offset inside
      the first group, has one sample position per group. */
  lemma {:induction false} SlotsPerGroup(groups: nat, i: nat, step: nat)
    requires i < step
    ensures Slots(groups * step, i, step) == groups
  {
    if groups > 0 {
      var rest := (groups - 1) * step;
      assert groups * step == rest + step;
      SlotsPerGroup(groups - 1, i, step);
      SlotsShift(rest, i, step);
    }
  }

  /** A layer not yet scratched anywhere (no alpha byte is 0) counts no
      hits and never passes. */
  lemma {:induction false} UntouchedNeverPasses(data: seq<byte>, i: nat, step: nat, percent: nat)
    requires step > 0
    requires forall k :: 0 <= k < |data| ==> data[k] != 0
    ensures ClearSamples(data, i, step) == 0
    ensures !Exceeds(ClearSamples(data, i, step), |data|, step, percent)
    decreases |data| - i
  {
    if i < |data| {
      UntouchedNeverPasses(data, i + step, step, percent);
    }
  }

  /** A non-empty buffer of whole sample groups with every sampled byte
      clear passes any threshold below 100%. */
  lemma FullyClearedPasses(data: seq<byte>, groups: nat, step: nat, percent: nat)
    requires step > AlphaOffset && percent < 100
    requires groups > 0 && |data| == groups * step
    requires AllSampledClear(data, AlphaOffset, step)
    ensures Exceeds(ClearSamples(data, AlphaOffset, step), |data|, step, percent)
  {
    AllClear(data, AlphaOffset, step);
    SlotsPerGroup(groups, AlphaOffset, step);
    var n := |data|;
    assert groups * 100 * step == 100 * n;
    assert percent * n < 100 * n;
  }
}
