/**
 * The scratch-card component: a coated canvas that reveals the prize, a
 * completion latch that fires once the coating is mostly scratched off, and
 * a confetti latch that lets the celebration start only once.
 */
module ScratchCard {
  import opened Pixels

  /** Bytes between samples: the alpha byte of every 4th pixel. */
  const SampleStep := 16

  /** The share of sampled pixels, in percent, that must be clear. */
  const CompletePercent := 45

  /** A stroke checks completion only when the roll of `Math.random()` is
      above this. */
  const CheckChance := 0.3

  /** The completion test on the canvas bytes. */
  predicate Completes(data: seq<byte>) {
    Exceeds(ClearSamples(data, AlphaOffset, SampleStep), |data|, SampleStep, CompletePercent)
  }

  /** Completion, once reached, survives further scratching; an unscratched
      coating never completes, and a coating scratched clean always does. */
  lemma CompletesMeaning(before: seq<byte>, after: seq<byte>, groups: nat)
    requires |before| == |after|
    requires forall k :: 0 <= k < |before| && before[k] == 0 ==> after[k] == 0
    ensures Completes(before) ==> Completes(after)
    ensures (forall k :: 0 <= k < |before| ==> before[k] != 0) ==> !Completes(before)
    ensures groups > 0 && |after| == groups * SampleStep && AllSampledClear(after, AlphaOffset, SampleStep) ==>
      Completes(after)
  {
    ClearingIsMonotone(before, after, AlphaOffset, SampleStep);
    if forall k :: 0 <= k < |before| ==> before[k] != 0 {
      UntouchedNeverPasses(before, AlphaOffset, SampleStep, CompletePercent);
    }
    if groups > 0 && |after| == groups * SampleStep && AllSampledClear(after, AlphaOffset, SampleStep) {
      FullyClearedPasses(after, groups, SampleStep, CompletePercent);
    }
  }

  class Card {
    var isCompleted: bool
    var isScratching: bool
    var confettiFired: bool
    /** Whether the canvas and its 2D context are there. */
    var hasCanvas: bool
    /** How often the confetti animation was started, and how often the
        parent's `onComplete` was called. */
    var confettiBursts: nat
    var completions: nat

    /** The parent hears of completion once, together with one confetti
        burst. */
    ghost predicate Valid()
      reads this
    {
      && confettiFired == isCompleted
      && completions == (if isCompleted then 1 else 0)
      && confettiBursts == (if confettiFired then 1 else 0)
    }

    constructor(hasCanvas: bool)
      ensures Valid()
      ensures !isCompleted && !isScratching && !confettiFired
      ensures this.hasCanvas == hasCanvas && confettiBursts == 0 && completions == 0
    {
      isCompleted := false;
      isScratching := false;
      confettiFired := false;
      this.hasCanvas := hasCanvas;
      confettiBursts := 0;
      completions := 0;
    }

    /** Starts the confetti unless it has already been started. */
    method FireConfetti()
      modifies this
      ensures confettiFired
      ensures confettiBursts == if old(confettiFired) then old(confettiBursts) else old(confettiBursts) + 1
      ensures isCompleted == old(isCompleted) && isScratching == old(isScratching)
      ensures hasCanvas == old(hasCanvas) && completions == old(completions)
    {
      if confettiFired {
        return;
      }
      confettiFired := true;
      confettiBursts := confettiBursts + 1;
    }

    /** With a canvas and not yet completed: count the clear samples and,
        above 45%, complete, start the confetti and tell the parent. */
    method CheckCompletion(data: array<byte>)
      requires Valid()
      modifies this
      ensures Valid()
      ensures isCompleted == (old(isCompleted) || (hasCanvas && Completes(data[..])))
      ensures isScratching == old(isScratching) && hasCanvas == old(hasCanvas)
    {
      if !hasCanvas || isCompleted {
        return;
      }
      var transparentPixels := CountClear(data, SampleStep);
      if Exceeds(transparentPixels, data.Length, SampleStep, CompletePercent) {
        isCompleted := true;
        FireConfetti();
        completions := completions + 1;
      }
    }

    /** One brush stroke, `data` being the canvas after it: nothing happens
        once completed; otherwise the completion is checked when the roll
        is above 0.3. */
    method Scratch(roll: real, data: array<byte>)
      requires Valid()
      modifies this
      ensures Valid()
      ensures old(isCompleted) ==> isCompleted && completions == old(completions) && confettiBursts == old(confettiBursts)
      ensures isCompleted == (old(isCompleted) || (hasCanvas && roll > CheckChance && Completes(data[..])))
      ensures isScratching == old(isScratching) && hasCanvas == old(hasCanvas)
    {
      if !hasCanvas || isCompleted {
        return;
      }
      if roll > CheckChance {
        CheckCompletion(data);
      }
    }

    /** Mouse or touch move: a stroke only while scratching. */
    method HandleMove(roll: real, data: array<byte>)
      requires Valid()
      modifies this
      ensures Valid()
      ensures isCompleted == (old(isCompleted) || (isScratching && hasCanvas && roll > CheckChance && Completes(data[..])))
      ensures isScratching == old(isScratching) && hasCanvas == old(hasCanvas)
    {
      if !isScratching {
        return;
      }
      Scratch(roll, data);
    }

    /** Mouse-down or touch-start. */
    method PointerDown()
      modifies this
      ensures isScratching
      ensures isCompleted == old(isCompleted) && confettiFired == old(confettiFired) && hasCanvas == old(hasCanvas)
      ensures confettiBursts == old(confettiBursts) && completions == old(completions)
    {
      isScratching := true;
    }

    /** Mouse-up, mouse-leave or touch-end. */
    method PointerUp()
      modifies this
      ensures !isScratching
      ensures isCompleted == old(isCompleted) && confettiFired == old(confettiFired) && hasCanvas == old(hasCanvas)
      ensures confettiBursts == old(confettiBursts) && completions == old(completions)
    {
      isScratching := false;
    }
  }
}
