/**
  The preview-size selection rule of the camera preview widget
  (CameraPreview.getOptimalPreviewSize).

  Given the preview sizes a camera supports and the viewport w × h it is to be
  shown in, the rule picks the size whose height is closest to h among the
  sizes whose aspect ratio is within 0.1 of w/h; when no size passes that
  aspect test it picks the size whose height is closest to h among all sizes.
  Ties go to the size that comes first in the list. A null list gives null.

  The specification is the recursive reference Closest, characterised by the
  predicate IsClosest (the first index of minimal height difference among the
  eligible sizes); GetOptimalPreviewSize is the two-loop Java method,
  proved to return what OptimalPreviewSize specifies.
*/
module CameraPreview {

  import opened Wrappers

  /** A camera preview size (Camera.Size): width × height in pixels. */
  datatype Size = Size(width: int, height: int)

  /** Camera sizes and viewports have positive dimensions. */
  predicate ValidSize(s: Size) {
    s.width > 0 && s.height > 0
  }

  predicate AllValid(sizes: seq<Size>) {
    forall i :: 0 <= i < |sizes| ==> ValidSize(sizes[i])
  }

  /** ASPECT_TOLERANCE: the largest accepted difference between two aspect ratios. */
  const AspectTolerance: real := 0.1

  function AbsReal(x: real): real {
    if x < 0.0 then -x else x
  }

  function AbsInt(x: int): nat {
    if x < 0 then -x else x
  }

  /** |size.height − targetHeight|, the quantity both passes minimise. */
  function HeightDiff(s: Size, targetHeight: int): nat {
    AbsInt(s.height - targetHeight)
  }

  /**
    The aspect test, |s.width/s.height − w/h| <= 0.1, stated exactly over the
    integers by multiplying out both denominators; AspectTestExact proves the
    two forms agree for positive dimensions.
  */
  predicate AspectCompatible(s: Size, w: int, h: int) {
    10 * AbsInt(s.width * h - w * s.height) <= s.height * h
  }

  /** The ratio test as getOptimalPreviewSize writes it, |width/height − w/h|, on real numbers. */
  function RatioDistance(s: Size, w: int, h: int): real
    requires s.height > 0 && h > 0
  {
    AbsReal(s.width as real / s.height as real - w as real / h as real)
  }

  /**
    For positive dimensions, the integer form of the aspect test accepts
    exactly the sizes whose ratio lies within the tolerance of w/h, and
    rejects exactly those strictly farther away (the Java code skips a size
    only when the difference is strictly above 0.1).
  */
  lemma AspectTestExact(s: Size, w: int, h: int)
    requires s.height > 0 && h > 0
    ensures AspectCompatible(s, w, h) <==> RatioDistance(s, w, h) <= AspectTolerance
  {
    var x := s.width * h - w * s.height;
    var d := s.height * h;
    CommonDenominator(s.width as real, s.height as real, w as real, h as real);
    assert (s.width * h) as real == s.width as real * h as real;
    assert (w * s.height) as real == w as real * s.height as real;
    assert d as real == s.height as real * h as real;
    assert s.width as real / s.height as real - w as real / h as real == x as real / d as real;
    WithinTolerance(x as real, d as real);
    assert AbsReal(x as real) == AbsInt(x) as real;
  }

  lemma CommonDenominator(a: real, b: real, c: real, e: real)
    requires b > 0.0 && e > 0.0
    ensures a / b - c / e == (a * e - c * b) / (b * e)
  {
  }

  lemma WithinTolerance(x: real, d: real)
    requires d > 0.0
    ensures AbsReal(x / d) <= 0.1 <==> 10.0 * AbsReal(x) <= d
  {
    assert AbsReal(x / d) == AbsReal(x) / d;
  }

  /** The two passes of the rule: the aspect-aware one and the fallback. */
  datatype Pass = AspectAware | Fallback

  /** A size takes part in a pass: every size in the fallback, only aspect-compatible ones otherwise. */
  predicate Eligible(pass: Pass, s: Size, w: int, h: int) {
    pass == Fallback || AspectCompatible(s, w, h)
  }

  /**
    Index i is the pass's choice: an eligible size whose height difference is
    at most that of every eligible size, and strictly less than that of every
    eligible size before it (the earliest wins a tie).
  */
  ghost predicate IsClosest(sizes: seq<Size>, pass: Pass, w: int, h: int, i: int) {
    && 0 <= i < |sizes|
    && Eligible(pass, sizes[i], w, h)
    && (forall j :: 0 <= j < |sizes| && Eligible(pass, sizes[j], w, h) ==>
          HeightDiff(sizes[i], h) <= HeightDiff(sizes[j], h))
    && (forall j :: 0 <= j < i && Eligible(pass, sizes[j], w, h) ==>
          HeightDiff(sizes[i], h) < HeightDiff(sizes[j], h))
  }

  ghost predicate NoneEligible(sizes: seq<Size>, pass: Pass, w: int, h: int) {
    forall j :: 0 <= j < |sizes| ==> !Eligible(pass, sizes[j], w, h)
  }

  /**
    Reference definition of one pass, from the front of the list: the head is
    chosen when it is eligible and no farther from h than the choice among the
    rest. The result is the index IsClosest describes, and there is none
    exactly when no size is eligible.
  */
  function Closest(sizes: seq<Size>, pass: Pass, w: int, h: int): (r: Option<nat>)
    ensures r.None? <==> NoneEligible(sizes, pass, w, h)
    ensures r.Some? ==> IsClosest(sizes, pass, w, h, r.value)
    ensures forall i :: IsClosest(sizes, pass, w, h, i) ==> r == Some(i)
    decreases |sizes|
  {
    if sizes == [] then None
    else
      var rest := Closest(sizes[1..], pass, w, h);
      if !Eligible(pass, sizes[0], w, h) then
        if rest.None? then None else Some(rest.value + 1)
      else if rest.None? || HeightDiff(sizes[0], h) <= HeightDiff(sizes[rest.value + 1], h) then
        Some(0)
      else
        Some(rest.value + 1)
  }

  /**
    The index the rule selects: the aspect-aware choice when there is one,
    otherwise the fallback choice. There is a choice exactly when the list is
    non-empty; when some size is aspect-compatible the choice is the first
    closest of those, otherwise the first closest of all.
  */
  function OptimalIndex(sizes: seq<Size>, w: int, h: int): (r: Option<nat>)
    ensures r.None? <==> sizes == []
    ensures r.Some? ==> r.value < |sizes|
    ensures !NoneEligible(sizes, AspectAware, w, h) ==>
              r.Some? && IsClosest(sizes, AspectAware, w, h, r.value)
    ensures NoneEligible(sizes, AspectAware, w, h) && r.Some? ==>
              IsClosest(sizes, Fallback, w, h, r.value)
  {
    var first := Closest(sizes, AspectAware, w, h);
    if first.Some? then first
    else
      assert sizes != [] ==> Eligible(Fallback, sizes[0], w, h);
      Closest(sizes, Fallback, w, h)
  }

  /**
    The size the rule returns: null for a null list, otherwise the size at
    OptimalIndex. The result is null exactly when the list is null or empty,
    and a non-null result is always one of the listed sizes.
  */
  function OptimalPreviewSize(sizes: Option<seq<Size>>, w: int, h: int): (r: Option<Size>)
    ensures r.None? <==> sizes.None? || sizes.value == []
    ensures r.Some? ==> sizes.Some? && r.value in sizes.value
  {
    match sizes
    case None => None
    case Some(list) =>
      match OptimalIndex(list, w, h)
      case None => None
      case Some(i) => Some(list[i])
  }

  /**
    When at least one size is aspect-compatible the rule returns an
    aspect-compatible size, one whose height is closest to h among them,
    and the first such size in list order.
  */
  lemma PrefersAspectCompatible(sizes: seq<Size>, w: int, h: int, k: int)
    requires 0 <= k < |sizes| && AspectCompatible(sizes[k], w, h)
    ensures exists i :: 0 <= i < |sizes| && OptimalPreviewSize(Some(sizes), w, h) == Some(sizes[i]) &&
                        IsClosest(sizes, AspectAware, w, h, i)
    ensures AspectCompatible(OptimalPreviewSize(Some(sizes), w, h).value, w, h)
    ensures HeightDiff(OptimalPreviewSize(Some(sizes), w, h).value, h) <= HeightDiff(sizes[k], h)
  {
  }

  /**
    When no size is aspect-compatible the rule returns the first size whose
    height is closest to h over the whole list.
  */
  lemma FallsBackToClosestHeight(sizes: seq<Size>, w: int, h: int)
    requires sizes != []
    requires forall j :: 0 <= j < |sizes| ==> !AspectCompatible(sizes[j], w, h)
    ensures exists i :: 0 <= i < |sizes| && OptimalPreviewSize(Some(sizes), w, h) == Some(sizes[i]) &&
                        IsClosest(sizes, Fallback, w, h, i)
  {
    assert NoneEligible(sizes, AspectAware, w, h);
    var i := OptimalIndex(sizes, w, h).value;
    assert IsClosest(sizes, Fallback, w, h, i);
  }

  /** minDiff in getOptimalPreviewSize: the sentinel Double.MAX_VALUE, above every height difference, or a difference. */
  datatype MinDiff = Infinite | Finite(value: nat)

  /** The strict comparison Math.abs(size.height - targetHeight) < minDiff in getOptimalPreviewSize. */
  predicate Below(d: nat, m: MinDiff) {
    match m
    case Infinite => true
    case Finite(v) => d < v
  }

  /**
    getOptimalPreviewSize: two passes over the list that keep the best size so
    far in optimalSize and its height difference in minDiff; the second pass
    runs only when the first chose nothing. The result is the one
    OptimalPreviewSize specifies.
  */
  method GetOptimalPreviewSize(sizes: Option<seq<Size>>, w: int, h: int) returns (optimalSize: Option<Size>)
    requires w > 0 && h > 0
    requires sizes.Some? ==> AllValid(sizes.value)
    ensures optimalSize == OptimalPreviewSize(sizes, w, h)
  {
    var targetRatio := w as real / h as real;
    if sizes.None? {
      return None;
    }
    var list := sizes.value;

    optimalSize := None;
    var minDiff := Infinite;
    var targetHeight := h;
    ghost var chosen: nat := 0;

    // Try the sizes whose aspect ratio matches the viewport's.
    for k := 0 to |list|
      invariant optimalSize.None? ==> minDiff == Infinite && NoneEligible(list[..k], AspectAware, w, h)
      invariant optimalSize.Some? ==>
                  && chosen < k
                  && optimalSize.value == list[chosen]
                  && minDiff == Finite(HeightDiff(list[chosen], h))
                  && IsClosest(list[..k], AspectAware, w, h, chosen)
    {
      var size := list[k];
      var ratio := size.width as real / size.height as real;
      AspectTestExact(size, w, h);
      if AbsReal(ratio - targetRatio) > AspectTolerance {
        continue;
      }
      if Below(AbsInt(size.height - targetHeight), minDiff) {
        optimalSize := Some(size);
        minDiff := Finite(AbsInt(size.height - targetHeight));
        chosen := k;
      }
    }
    assert list[..|list|] == list;

    // No size matches the aspect ratio: ignore the requirement.
    if optimalSize.None? {
      minDiff := Infinite;
      for k := 0 to |list|
        invariant optimalSize.None? <==> k == 0
        invariant optimalSize.None? ==> minDiff == Infinite
        invariant optimalSize.Some? ==>
                    && chosen < k
                    && optimalSize.value == list[chosen]
                    && minDiff == Finite(HeightDiff(list[chosen], h))
                    && IsClosest(list[..k], Fallback, w, h, chosen)
      {
        var size := list[k];
        if Below(AbsInt(size.height - targetHeight), minDiff) {
          optimalSize := Some(size);
          minDiff := Finite(AbsInt(size.height - targetHeight));
          chosen := k;
        }
      }
      assert list[..|list|] == list;
    }
  }
}
