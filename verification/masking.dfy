/** Colour-range computation from sampled points and its application as a highlight mask. */
module Masking {
  import opened Wrappers
  import opened Images
  import opened Points

  /** Why a mask cannot be computed: numpy's min/max of an empty sample array raises. */
  datatype MaskError = EmptySelection

  /** A named preset colour box, one entry of the program's `masks` table. */
  datatype Preset = Preset(name: string, range: ColorRange)

  /** The built-in presets, in BGR order. */
  const Presets: seq<Preset> :=
    [Preset("background", ColorRange(Color(120, 208, 253), Color(124, 208, 255)))]

  /** Every registered point addresses a pixel of `img`. */
  predicate RegistryInside(reg: Registry, img: Image)
  {
    forall k, p :: 0 <= k < |reg| && p in reg[k].points ==> InImage(img, p.x, p.y)
  }

  /** The original colour under every registered point, in the order `mask_img` gathers them. */
  function Samples(reg: Registry, origin: Image): (s: seq<Color>)
    requires RegistryInside(reg, origin)
    ensures |s| == |AllPoints(reg)|
    ensures forall i :: 0 <= i < |s| ==>
      InImage(origin, AllPoints(reg)[i].x, AllPoints(reg)[i].y) &&
      s[i] == origin[AllPoints(reg)[i].y][AllPoints(reg)[i].x]
  {
    var pts := AllPoints(reg);
    assert forall i :: 0 <= i < |pts| ==> InImage(origin, pts[i].x, pts[i].y) by {
      forall i | 0 <= i < |pts|
        ensures InImage(origin, pts[i].x, pts[i].y)
      {
        AllPointsMember(reg, pts[i]);
      }
    }
    seq(|pts|, i requires 0 <= i < |pts| => origin[pts[i].y][pts[i].x])
  }

  /** Each of the six channel bounds of `range` is the matching channel of some sample. */
  predicate Attained(range: ColorRange, samples: seq<Color>)
  {
    && (exists c :: c in samples && c.b == range.lo.b)
    && (exists c :: c in samples && c.g == range.lo.g)
    && (exists c :: c in samples && c.r == range.lo.r)
    && (exists c :: c in samples && c.b == range.hi.b)
    && (exists c :: c in samples && c.g == range.hi.g)
    && (exists c :: c in samples && c.r == range.hi.r)
  }

  /** Elementwise min and max over a non-empty sample list (numpy `min(axis=0)`, `max(axis=0)`). */
  function Bounds(samples: seq<Color>): (range: ColorRange)
    requires |samples| > 0
    ensures forall c :: c in samples ==> InRange(c, range)
    ensures Attained(range, samples)
  {
    if |samples| == 1 then ColorRange(samples[0], samples[0])
    else
      var rest := Bounds(samples[1..]);
      assert samples == [samples[0]] + samples[1..];
      ColorRange(Meet(samples[0], rest.lo), Join(samples[0], rest.hi))
  }

  /** The colour range of `mask_img`: fails exactly when nothing was sampled; otherwise
      the box contains every sample, its bounds are ordered, and each bound is attained. */
  function ComputeRange(samples: seq<Color>): (r: Result<ColorRange, MaskError>)
    ensures r.Failure? <==> |samples| == 0
    ensures r.Success? ==> forall c :: c in samples ==> InRange(c, r.value)
    ensures r.Success? ==> Attained(r.value, samples)
    ensures r.Success? ==> Below(r.value.lo, r.value.hi)
  {
    if |samples| == 0 then Failure(EmptySelection)
    else
      var range := Bounds(samples);
      assert InRange(samples[0], range);
      Success(range)
  }

  /** The computed box is the smallest one holding all samples: any box that holds them
      all contains it. */
  lemma BoundsTightest(samples: seq<Color>, box: ColorRange)
    requires |samples| > 0
    requires forall c :: c in samples ==> InRange(c, box)
    ensures Below(box.lo, Bounds(samples).lo) && Below(Bounds(samples).hi, box.hi)
  {
  }

  /** The two sample colours of the built-in background preset give back that preset. */
  lemma PresetSamples()
    ensures ComputeRange([Color(120, 208, 253), Color(124, 208, 255)]) == Success(Presets[0].range)
  {
  }

  /** cv2.inRange: the per-pixel indicator of "original colour inside the box". */
  function InRangeMask(origin: Image, range: ColorRange): (m: seq<seq<bool>>)
    ensures SameShape(m, origin)
    ensures forall y, x :: InImage(origin, x, y) ==> (m[y][x] <==> InRange(origin[y][x], range))
  {
    seq(|origin|, y requires 0 <= y < |origin| =>
      seq(|origin[y]|, x requires 0 <= x < |origin[y]| => InRange(origin[y][x], range)))
  }

  /** `img[mask != 0] = [255, 255, 255]`: paint the selected pixels white. */
  function Paint(work: Image, mask: seq<seq<bool>>): (out: Image)
    requires SameShape(work, mask)
    ensures SameShape(out, work)
    ensures forall y, x :: InImage(work, x, y) ==> out[y][x] == (if mask[y][x] then White else work[y][x])
  {
    seq(|work|, y requires 0 <= y < |work| =>
      seq(|work[y]|, x requires 0 <= x < |work[y]| => if mask[y][x] then White else work[y][x]))
  }

  /** One range applied to the working image: a pixel turns white exactly when the ORIGINAL
      pixel lies in the box; every other working pixel keeps its value. */
  function ApplyRange(work: Image, origin: Image, range: ColorRange): (out: Image)
    requires SameShape(work, origin)
    ensures SameShape(out, origin)
    ensures forall y, x :: InImage(origin, x, y) ==>
      (InRange(origin[y][x], range) ==> out[y][x] == White) &&
      (!InRange(origin[y][x], range) ==> out[y][x] == work[y][x])
  {
    Paint(work, InRangeMask(origin, range))
  }

  /** Applying a range twice is applying it once: membership is read from the original. */
  lemma ApplyRangeIdempotent(work: Image, origin: Image, range: ColorRange)
    requires SameShape(work, origin)
    ensures ApplyRange(ApplyRange(work, origin, range), origin, range) == ApplyRange(work, origin, range)
  {
    var once := ApplyRange(work, origin, range);
    var twice := ApplyRange(once, origin, range);
    assert |twice| == |once|;
    forall y | 0 <= y < |once|
      ensures twice[y] == once[y]
    {
      assert |twice[y]| == |once[y]|;
      forall x | 0 <= x < |once[y]|
        ensures twice[y][x] == once[y][x]
      {
        assert InImage(origin, x, y);
      }
    }
  }

  /** The preset table applied in order (`apply_existing_mask`). */
  function ApplyPresets(work: Image, origin: Image, presets: seq<Preset>): (out: Image)
    requires SameShape(work, origin)
    ensures SameShape(out, origin)
    decreases |presets|
  {
    if |presets| == 0 then work
    else ApplyPresets(ApplyRange(work, origin, presets[0].range), origin, presets[1..])
  }

  /** Some preset box holds colour `c`. */
  predicate InSomePreset(c: Color, presets: seq<Preset>)
  {
    exists k :: 0 <= k < |presets| && InRange(c, presets[k].range)
  }

  /** Presets accumulate as a union: a pixel ends up white exactly when its original colour
      lies in some preset box, and keeps its working value otherwise. */
  lemma {:induction false} ApplyPresetsPixel(work: Image, origin: Image, presets: seq<Preset>, x: int, y: int)
    requires SameShape(work, origin)
    requires InImage(origin, x, y)
    ensures InSomePreset(origin[y][x], presets) ==> ApplyPresets(work, origin, presets)[y][x] == White
    ensures !InSomePreset(origin[y][x], presets) ==> ApplyPresets(work, origin, presets)[y][x] == work[y][x]
    decreases |presets|
  {
    if |presets| > 0 {
      var next := ApplyRange(work, origin, presets[0].range);
      ApplyPresetsPixel(next, origin, presets[1..], x, y);
      if InSomePreset(origin[y][x], presets[1..]) {
        var k :| 0 <= k < |presets[1..]| && InRange(origin[y][x], presets[1..][k].range);
        assert InRange(origin[y][x], presets[k + 1].range);
      }
      if InSomePreset(origin[y][x], presets) && !InRange(origin[y][x], presets[0].range) {
        var k :| 0 <= k < |presets| && InRange(origin[y][x], presets[k].range);
        assert presets[1..][k - 1] == presets[k];
      }
    }
  }

  /** `mask_img`: compute the range of every registered point's original colour and paint it;
      fails exactly when no point is registered. */
  function MaskImg(work: Image, origin: Image, reg: Registry): (r: Result<Image, MaskError>)
    requires SameShape(work, origin)
    requires RegistryInside(reg, origin)
    ensures r.Failure? <==> AllPoints(reg) == []
    ensures r.Success? ==> SameShape(r.value, origin)
  {
    match ComputeRange(Samples(reg, origin))
    case Failure(e) => Failure(e)
    case Success(range) => Success(ApplyRange(work, origin, range))
  }

  /** Pixel law of a successful `mask_img`: white where the original colour lies in the box
      spanned by the registered samples, unchanged elsewhere. */
  lemma MaskImgPixel(work: Image, origin: Image, reg: Registry, x: int, y: int)
    requires SameShape(work, origin)
    requires RegistryInside(reg, origin)
    requires AllPoints(reg) != []
    requires InImage(origin, x, y)
    ensures MaskImg(work, origin, reg).Success?
    ensures InRange(origin[y][x], Bounds(Samples(reg, origin))) ==> MaskImg(work, origin, reg).value[y][x] == White
    ensures !InRange(origin[y][x], Bounds(Samples(reg, origin))) ==> MaskImg(work, origin, reg).value[y][x] == work[y][x]
  {
  }
}
