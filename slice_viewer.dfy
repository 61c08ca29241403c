/** The 2D slice viewer (src/components/SliceViewer.tsx): the
    brightness/contrast adjustment drawn for the current slice, the
    mouse-wheel step and the slice chosen when a new series arrives. */
module SliceViewer {
  import opened Canvas

  function Min(a: real, b: real): real { if a <= b then a else b }
  function Max(a: real, b: real): real { if a >= b then a else b }

  /** The value of one colour channel after adjustment,
      `min(255, max(0, (c - 128)·contrast + 128 + (brightness - 1)·128))`:
      always a valid channel value. */
  function AdjustChannel(c: real, brightness: real, contrast: real): (r: real)
    ensures 0.0 <= r <= 255.0
  {
    Min(255.0, Max(0.0, (c - 128.0) * contrast + 128.0 + (brightness - 1.0) * 128.0))
  }

  /** The reset values (brightness 1, contrast 1) leave every channel as it
      was. */
  lemma ResetIsIdentity(c: real)
    requires 0.0 <= c <= 255.0
    ensures AdjustChannel(c, 1.0, 1.0) == c
  {
  }

  /** With a non-negative contrast a brighter input stays at least as bright. */
  lemma AdjustChannelMonotone(c1: real, c2: real, brightness: real, contrast: real)
    requires c1 <= c2 && contrast >= 0.0
    ensures AdjustChannel(c1, brightness, contrast) <= AdjustChannel(c2, brightness, contrast)
  {
    var k := 128.0 + (brightness - 1.0) * 128.0;
    var x1, x2 := (c1 - 128.0) * contrast + k, (c2 - 128.0) * contrast + k;
    assert x2 - x1 == (c2 - c1) * contrast;
    MulNonNegative(c2 - c1, contrast);
    assert AdjustChannel(c1, brightness, contrast) == Min(255.0, Max(0.0, x1));
    assert AdjustChannel(c2, brightness, contrast) == Min(255.0, Max(0.0, x2));
  }

  lemma MulNonNegative(x: real, y: real)
    requires x >= 0.0 && y >= 0.0
    ensures x * y >= 0.0
  {
  }

  /** Raising the brightness never darkens a channel. */
  lemma BrightnessMonotone(c: real, b1: real, b2: real, contrast: real)
    requires b1 <= b2
    ensures AdjustChannel(c, b1, contrast) <= AdjustChannel(c, b2, contrast)
  {
  }

  /** The adjustment of a single channel at the given settings. */
  function ChannelAdjustment(brightness: real, contrast: real): real -> real {
    c => AdjustChannel(c, brightness, contrast)
  }

  /** A buffer with `channel` applied: every fourth value (alpha) copied,
      every other value mapped through `channel`. */
  function Adjusted(s: seq<real>, channel: real -> real): (r: seq<real>)
    ensures |r| == |s|
    ensures forall p :: 0 <= p < |s| && p % 4 == 3 ==> r[p] == s[p]
    ensures forall p :: 0 <= p < |s| && p % 4 != 3 ==> r[p] == channel(s[p])
  {
    seq(|s|, p requires 0 <= p < |s| => if p % 4 == 3 then s[p] else channel(s[p]))
  }

  /** Every colour channel of an adjusted buffer is a valid channel value;
      alpha is untouched. */
  lemma AdjustedChannelsInRange(s: seq<real>, brightness: real, contrast: real)
    ensures var r := Adjusted(s, ChannelAdjustment(brightness, contrast));
      forall p :: 0 <= p < |s| ==> (if p % 4 == 3 then r[p] == s[p] else 0.0 <= r[p] <= 255.0)
  {
  }

  /** At the reset values an image whose channels are bytes is redrawn
      unchanged. */
  lemma ResetReproducesImage(s: seq<real>)
    requires forall p :: 0 <= p < |s| ==> 0.0 <= s[p] <= 255.0
    ensures Adjusted(s, ChannelAdjustment(1.0, 1.0)) == s
  {
    forall p | 0 <= p < |s| ensures Adjusted(s, ChannelAdjustment(1.0, 1.0))[p] == s[p] {
      if p % 4 != 3 {
        ResetIsIdentity(s[p]);
      }
    }
  }

  /** The drawing effect: the stored slice is only read; the adjusted pixels
      go to a fresh buffer of the same size. */
  method DrawAdjusted(img: ImageData, brightness: real, contrast: real) returns (out: ImageData)
    requires img.Valid()
    ensures fresh(out) && fresh(out.data) && out.Valid()
    ensures out.width == img.width && out.height == img.height
    ensures out.data[..] == Adjusted(img.data[..], ChannelAdjustment(brightness, contrast))
  {
    out := new ImageData(img.width, img.height);
    assert img.data.Length % 4 == 0 by {
      assert img.data.Length == 4 * (img.width * img.height);
    }
    AdjustPixels(img.data, out.data, ChannelAdjustment(brightness, contrast));
  }

  /** The stride-4 loop of the drawing effect, from `data` into `adjusted`. */
  method AdjustPixels(data: array<real>, adjusted: array<real>, channel: real -> real)
    requires data != adjusted && data.Length == adjusted.Length && data.Length % 4 == 0
    modifies adjusted
    ensures adjusted[..] == Adjusted(data[..], channel)
  {
    var i := 0;
    while i < data.Length
      invariant 0 <= i <= data.Length && i % 4 == 0
      invariant forall p :: 0 <= p < i ==> adjusted[p] == if p % 4 == 3 then data[p] else channel(data[p])
    {
      var r, g, b, a := data[i], data[i + 1], data[i + 2], data[i + 3];
      adjusted[i] := channel(r);
      adjusted[i + 1] := channel(g);
      adjusted[i + 2] := channel(b);
      adjusted[i + 3] := a;
      i := i + 4;
    }
    assert adjusted[..] == Adjusted(data[..], channel);
  }

  /** `handleWheel`: one slice forward for a positive wheel delta, one back
      otherwise, kept within [0, count - 1]. */
  function WheelStep(current: int, count: nat, deltaY: real): (next: int)
    ensures count > 0 ==> 0 <= next < count
    ensures count == 0 ==> next == 0
    ensures count > 0 && 0 <= current < count && deltaY > 0.0 ==>
      next == (if current + 1 < count then current + 1 else current)
    ensures count > 0 && 0 <= current < count && deltaY <= 0.0 ==>
      next == (if current > 0 then current - 1 else current)
  {
    var delta := if deltaY > 0.0 then 1 else -1;
    var upper := if count - 1 <= current + delta then count - 1 else current + delta;
    if upper >= 0 then upper else 0
  }

  /** The slice selected when the slice list changes: the middle one of a
      non-empty list, so the slices before it and after it differ in number
      by at most one; an empty list keeps the current index. */
  function MiddleSlice(count: nat, current: int): (r: int)
    ensures count > 0 ==> 0 <= r < count && count - 1 - r <= r <= count - r
    ensures count == 0 ==> r == current
  {
    if count > 0 then count / 2 else current
  }

  /** The drawing effect runs only for an index inside a non-empty list. */
  predicate ShouldDraw(count: nat, current: int) {
    count > 0 && current < count
  }

  /** Selecting the middle slice, then any run of wheel steps, always leaves
      an index that is drawn. */
  lemma {:induction false} NavigationKeepsDrawable(count: nat, start: int, deltas: seq<real>)
    requires count > 0
    ensures var first := MiddleSlice(count, start);
      ShouldDraw(count, first) && ShouldDraw(count, WheelSteps(first, count, deltas))
      && 0 <= WheelSteps(first, count, deltas)
  {
    var first := MiddleSlice(count, start);
    WheelStepsInRange(first, count, deltas);
  }

  /** The index after a run of wheel events. */
  function WheelSteps(current: int, count: nat, deltas: seq<real>): int
    decreases |deltas|
  {
    if |deltas| == 0 then current else WheelSteps(WheelStep(current, count, deltas[0]), count, deltas[1..])
  }

  lemma {:induction false} WheelStepsInRange(current: int, count: nat, deltas: seq<real>)
    requires 0 <= current < count
    ensures 0 <= WheelSteps(current, count, deltas) < count
    decreases |deltas|
  {
    if |deltas| > 0 {
      WheelStepsInRange(WheelStep(current, count, deltas[0]), count, deltas[1..]);
    }
  }
}
