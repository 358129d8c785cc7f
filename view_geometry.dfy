/**
  * The pure parts of a View: the orientation and wrap-mode bit vocabulary,
  * the orientation transform, per-axis wrapping and clipping, the colorAt
  * pipeline as a function of the view's appearance, the next-call fold and
  * the fade arithmetic.
  */
module ViewGeometry {
  import opened Pixel
  import opened WebColor

  /** Orientation and WrapMode are uint8_t bit sets. */
  type Orientation = byte
  type WrapMode = byte

  /** Whether the single-bit flag (a power of two) is set in m: m & flag != 0. */
  predicate HasFlag(m: byte, flag: byte)
    requires flag in {1, 2, 4, 8, 16, 32, 64, 128}
  {
    (m / flag) % 2 == 1
  }

  // basic orientation transformation flags
  const XySwap: Orientation := 0x01
  const XFlip: Orientation := 0x02
  const YFlip: Orientation := 0x04
  // the four named directions of the X axis
  const Right: Orientation := 0
  const Down: Orientation := XySwap + XFlip
  const Left: Orientation := XFlip + YFlip
  const Up: Orientation := XySwap + YFlip

  const NoWrap: WrapMode := 0
  const WrapXmin: WrapMode := 0x01
  const WrapXmax: WrapMode := 0x02
  const WrapX: WrapMode := WrapXmin + WrapXmax
  const WrapYmin: WrapMode := 0x04
  const WrapYmax: WrapMode := 0x08
  const WrapY: WrapMode := WrapYmin + WrapYmax
  const WrapXY: WrapMode := WrapX + WrapY
  const ClipXmin: WrapMode := 0x10
  const ClipXmax: WrapMode := 0x20
  const ClipX: WrapMode := ClipXmin + ClipXmax
  // the Y clip bits have the same values as the X clip bits
  const ClipYmin: WrapMode := 0x10
  const ClipYmax: WrapMode := 0x20
  const ClipY: WrapMode := ClipYmin + ClipYmax
  const ClipXY: WrapMode := 0x30

  /** Main-loop time in microseconds; Never (0) and Infinite (-2) are its special values. */
  type MLMicroSeconds = int
  const Never: MLMicroSeconds := 0
  const Infinite: MLMicroSeconds := -2

  /** Conversion of an int to uint8_t (modulo 256). */
  function ToUint8(v: int): byte {
    v % 256
  }

  /** The named orientations are compositions of the three flags. */
  lemma NamedOrientations()
    ensures !HasFlag(Right, XySwap) && !HasFlag(Right, XFlip) && !HasFlag(Right, YFlip)
    ensures HasFlag(Down, XySwap) && HasFlag(Down, XFlip) && !HasFlag(Down, YFlip)
    ensures !HasFlag(Left, XySwap) && HasFlag(Left, XFlip) && HasFlag(Left, YFlip)
    ensures HasFlag(Up, XySwap) && !HasFlag(Up, XFlip) && HasFlag(Up, YFlip)
  {
  }

  /** The wrap bits fill the low nibble; both clip pairs are the bits 0x30. */
  lemma WrapAndClipBits()
    ensures WrapXY == 0x0F
    ensures ClipX == ClipY == ClipXY == 0x30
    ensures forall m: byte :: HasFlag(m, ClipYmin) == HasFlag(m, ClipXmin) && HasFlag(m, ClipYmax) == HasFlag(m, ClipXmax)
  {
  }

  // ----- orientation -----

  /** orientPoint: swap x/y, then flip x within content.dx, then flip y within content.dy. */
  function OrientPoint(o: Orientation, content: PixelRect, c: PixelCoord): (r: PixelCoord)
    ensures var area := PixelRect(0, 0, content.dx, content.dy);
            (!HasFlag(o, XySwap) || content.dx == content.dy) && InRect(area, c) ==> InRect(area, r)
  {
    var swapped := if HasFlag(o, XySwap) then PixelCoord(c.y, c.x) else c;
    var xFlipped := if HasFlag(o, XFlip) then swapped.(x := content.dx - swapped.x - 1) else swapped;
    if HasFlag(o, YFlip) then xFlipped.(y := content.dy - xFlipped.y - 1) else xFlipped
  }

  lemma OrientRightIsIdentity(content: PixelRect, c: PixelCoord)
    ensures OrientPoint(Right, content, c) == c
  {
  }

  /** Flips alone, or the swap alone, undo themselves for a fixed content size. */
  lemma OrientInvolutive(o: Orientation, content: PixelRect, c: PixelCoord)
    requires !HasFlag(o, XySwap) || (!HasFlag(o, XFlip) && !HasFlag(o, YFlip))
    ensures OrientPoint(o, content, OrientPoint(o, content, c)) == c
  {
  }

  /** down and up are inverse to each other when the content is square. */
  lemma DownUpInverse(content: PixelRect, c: PixelCoord)
    requires content.dx == content.dy
    ensures OrientPoint(Up, content, OrientPoint(Down, content, c)) == c
    ensures OrientPoint(Down, content, OrientPoint(Up, content, c)) == c
  {
  }

  /** down applied twice is the half turn left when the content is square. */
  lemma DownTwiceIsLeft(content: PixelRect, c: PixelCoord)
    requires content.dx == content.dy
    ensures OrientPoint(Down, content, OrientPoint(Down, content, c)) == OrientPoint(Left, content, c)
  {
  }

  /** So down is not its own inverse. */
  lemma DownNotSelfInverse()
    ensures OrientPoint(Down, PixelRect(0, 0, 2, 2), OrientPoint(Down, PixelRect(0, 0, 2, 2), PixelCoord(0, 0)))
         != PixelCoord(0, 0)
  {
  }

  /**
    * sizeFrameToContent's frame: the content size passed through orientPoint,
    * which flips a size as if it were a point.
    */
  function SizedToContent(frame: PixelRect, content: PixelRect, o: Orientation): PixelRect {
    var sz := OrientPoint(o, content, PixelCoord(content.dx, content.dy));
    frame.(dx := sz.x, dy := sz.y)
  }

  lemma SizedToContentRight(frame: PixelRect, content: PixelRect)
    ensures SizedToContent(frame, content, Right) == frame.(dx := content.dx, dy := content.dy)
  {
  }

  /**
    * Sizing to content for every orientation: an unflipped axis takes the
    * content extent (the other one when x and y are swapped); a flipped axis
    * gets -1 without a swap, and the difference of the content extents minus 1
    * with one (so -1 again on square content).
    */
  lemma SizedToContentExtents(frame: PixelRect, content: PixelRect, o: Orientation)
    ensures var r := SizedToContent(frame, content, o);
            r.x == frame.x && r.y == frame.y
    ensures !HasFlag(o, XySwap) ==>
              SizedToContent(frame, content, o).dx == (if HasFlag(o, XFlip) then -1 else content.dx) &&
              SizedToContent(frame, content, o).dy == (if HasFlag(o, YFlip) then -1 else content.dy)
    ensures HasFlag(o, XySwap) ==>
              SizedToContent(frame, content, o).dx ==
                (if HasFlag(o, XFlip) then content.dx - content.dy - 1 else content.dy) &&
              SizedToContent(frame, content, o).dy ==
                (if HasFlag(o, YFlip) then content.dy - content.dx - 1 else content.dx)
  {
  }

  // ----- wrapping and clipping -----

  /**
    * The wrap loops of colorAt for one axis, in closed form: with a positive
    * size, a coordinate below 0 (min bit) or at/after size (max bit) is folded
    * back into [0, size); otherwise it is left alone.
    */
  function WrapAxis(v: int, size: int, wrapMin: bool, wrapMax: bool): (r: int)
    ensures size > 0 && (wrapMin || v >= 0) && (wrapMax || v < size) ==> 0 <= r < size
  {
    if size <= 0 then v
    else if wrapMin && v < 0 then v % size
    else if wrapMax && v >= size then v % size
    else v
  }

  lemma WrapAxisBoth(v: int, size: int)
    requires size > 0
    ensures 0 <= WrapAxis(v, size, true, true) < size
    ensures WrapAxis(v, size, true, true) == v % size
  {
    if 0 <= v < size {
      ModOfShift(v, 0, size);
    }
  }

  /** Wrapping moves a coordinate by whole content sizes only. */
  lemma WrapAxisCongruent(v: int, size: int, wrapMin: bool, wrapMax: bool)
    requires size > 0
    ensures WrapAxis(v, size, wrapMin, wrapMax) % size == v % size
  {
    var w := v % size;
    ModOfShift(w, 0, size);
  }

  /** If v + k*size lies in [0, size) it is v's Euclidean remainder. */
  lemma ModOfShift(v: int, k: int, size: int)
    requires size > 0 && 0 <= v + k * size < size
    ensures v % size == v + k * size
  {
    var q, m := v / size, v % size;
    assert v == q * size + m;
    var x := v + k * size;
    assert x - m == (q + k) * size;
    if q + k > 0 {
      MulLeftMono(1, q + k, size);
    } else if q + k < 0 {
      MulLeftMono(1, -(q + k), size);
    }
  }


  /** colorAt's clip test, in content coordinates. */
  predicate Clipped(mode: WrapMode, content: PixelRect, q: PixelCoord)
    ensures Clipped(mode, content, q) ==> !InRect(PixelRect(0, 0, content.dx, content.dy), q)
  {
    (HasFlag(mode, ClipXmin) || HasFlag(mode, ClipXmax)) &&  // mode & clipXY
    ((HasFlag(mode, ClipXmin) && q.x < 0) ||
     (HasFlag(mode, ClipXmax) && q.x >= content.dx) ||
     (HasFlag(mode, ClipYmin) && q.y < 0) ||
     (HasFlag(mode, ClipYmax) && q.y >= content.dy))
  }

  /** Because the Y clip bits alias the X ones, clipXmin alone also clips below y = 0. */
  lemma ClipXminAlsoClipsY()
    ensures Clipped(ClipXmin, PixelRect(0, 0, 10, 10), PixelCoord(5, -1))
    ensures !Clipped(WrapXY, PixelRect(0, 0, 10, 10), PixelCoord(5, -1))
  {
  }

  // ----- the colorAt pipeline -----

  /** What colorAt reads of a view. */
  datatype Appearance = Appearance(
    frame: PixelRect,
    content: PixelRect,
    orientation: Orientation,
    wrapMode: WrapMode,
    backgroundColor: PixelColor,
    foregroundColor: PixelColor,
    alpha: byte,
    contentIsMask: bool)

  /** Frame-relative point turned into content coordinates. */
  function OrientedPoint(ap: Appearance, pt: PixelCoord): PixelCoord {
    OrientPoint(ap.orientation, ap.content, PixelCoord(pt.x - ap.frame.x, pt.y - ap.frame.y))
  }

  /** The point handed to contentColorAt: wrapped, then shifted by the content origin. */
  function SourcePoint(ap: Appearance, pt: PixelCoord): PixelCoord {
    var q := OrientedPoint(ap, pt);
    PixelCoord(
      WrapAxis(q.x, ap.content.dx, HasFlag(ap.wrapMode, WrapXmin), HasFlag(ap.wrapMode, WrapXmax)) + ap.content.x,
      WrapAxis(q.y, ap.content.dy, HasFlag(ap.wrapMode, WrapYmin), HasFlag(ap.wrapMode, WrapYmax)) + ap.content.y)
  }

  /**
    * colorAt: invisible view or clipped point gives the background with alpha 0;
    * otherwise the content colour (its r, g, b replaced by the foreground in
    * mask mode), the background where that is fully transparent, and the
    * alpha dimmed by the view's alpha.
    */
  function Render(ap: Appearance, contentColorAt: PixelCoord -> PixelColor, pt: PixelCoord): (r: PixelColor)
    ensures ap.alpha == 0 || Clipped(ap.wrapMode, ap.content, OrientedPoint(ap, pt)) ==> r.a == 0
  {
    if ap.alpha == 0 then ap.backgroundColor.(a := 0)
    else if Clipped(ap.wrapMode, ap.content, OrientedPoint(ap, pt)) then ap.backgroundColor.(a := 0)
    else Shade(ap, contentColorAt(SourcePoint(ap, pt)))
  }

  /** What colorAt makes of a fetched content colour: mask, background substitution, alpha dim. */
  function Shade(ap: Appearance, fetched: PixelColor): (r: PixelColor)
    ensures r.a <= (if fetched.a == 0 then ap.backgroundColor.a else fetched.a)
  {
    DimValBounds(if fetched.a == 0 then ap.backgroundColor.a else fetched.a, ap.alpha);
    var masked :=
      if ap.contentIsMask then fetched.(r := ap.foregroundColor.r, g := ap.foregroundColor.g, b := ap.foregroundColor.b)
      else fetched;
    var shown := if masked.a == 0 then ap.backgroundColor else masked;
    if ap.alpha != 255 then shown.(a := DimVal(shown.a, ap.alpha)) else shown
  }

  /** The base View's content source: the background colour everywhere. */
  function BaseContent(backgroundColor: PixelColor): PixelCoord -> PixelColor {
    _ => backgroundColor
  }

  /** With both X wrap bits and a positive width, the content is queried inside its width. */
  lemma RenderWrapsX(ap: Appearance, pt: PixelCoord)
    requires ap.content.dx > 0 && HasFlag(ap.wrapMode, WrapXmin) && HasFlag(ap.wrapMode, WrapXmax)
    ensures ap.content.x <= SourcePoint(ap, pt).x < ap.content.x + ap.content.dx
  {
    WrapAxisBoth(OrientedPoint(ap, pt).x, ap.content.dx);
  }

  lemma RenderWrapsY(ap: Appearance, pt: PixelCoord)
    requires ap.content.dy > 0 && HasFlag(ap.wrapMode, WrapYmin) && HasFlag(ap.wrapMode, WrapYmax)
    ensures ap.content.y <= SourcePoint(ap, pt).y < ap.content.y + ap.content.dy
  {
    WrapAxisBoth(OrientedPoint(ap, pt).y, ap.content.dy);
  }

  /** In mask mode a content pixel that is not fully transparent shows the foreground colour. */
  lemma RenderMask(ap: Appearance, src: PixelCoord -> PixelColor, pt: PixelCoord)
    requires ap.alpha != 0 && !Clipped(ap.wrapMode, ap.content, OrientedPoint(ap, pt))
    requires ap.contentIsMask && src(SourcePoint(ap, pt)).a != 0
    ensures var c := Render(ap, src, pt);
            c.r == ap.foregroundColor.r && c.g == ap.foregroundColor.g && c.b == ap.foregroundColor.b
  {
  }

  /** A fully transparent content pixel is replaced by the background colour. */
  lemma RenderBackgroundFallback(ap: Appearance, src: PixelCoord -> PixelColor, pt: PixelCoord)
    requires ap.alpha != 0 && !Clipped(ap.wrapMode, ap.content, OrientedPoint(ap, pt))
    requires src(SourcePoint(ap, pt)).a == 0
    ensures var c := Render(ap, src, pt);
            c.r == ap.backgroundColor.r && c.g == ap.backgroundColor.g && c.b == ap.backgroundColor.b
    ensures ap.alpha == 255 ==> Render(ap, src, pt) == ap.backgroundColor
  {
  }

  /** The view's own alpha never raises the alpha of what is shown. */
  lemma RenderAlphaNotRaised(ap: Appearance, src: PixelCoord -> PixelColor, pt: PixelCoord)
    requires ap.alpha != 0 && !Clipped(ap.wrapMode, ap.content, OrientedPoint(ap, pt))
    ensures var fetched := src(SourcePoint(ap, pt));
            var shownAlpha := if fetched.a == 0 then ap.backgroundColor.a else fetched.a;
            Render(ap, src, pt).a <= shownAlpha && (ap.alpha == 255 ==> Render(ap, src, pt).a == shownAlpha)
  {
    var fetched := src(SourcePoint(ap, pt));
    DimValBounds(if fetched.a == 0 then ap.backgroundColor.a else fetched.a, ap.alpha);
  }

  /** A plain View shows its background colour wherever it is visible and not clipped. */
  lemma RenderBaseView(ap: Appearance, pt: PixelCoord)
    requires ap.alpha == 255 && !ap.contentIsMask && !Clipped(ap.wrapMode, ap.content, OrientedPoint(ap, pt))
    ensures Render(ap, BaseContent(ap.backgroundColor), pt) == ap.backgroundColor
  {
  }

  // ----- next-call bookkeeping -----

  /** updateNextCall's choice: values <= 0 mean "no call needed"; otherwise the earlier time wins. */
  function NextCall(nextCall: MLMicroSeconds, candidate: MLMicroSeconds): (r: MLMicroSeconds)
    ensures r == nextCall || r == candidate
    ensures nextCall > 0 ==> 0 < r <= nextCall
  {
    if nextCall <= 0 || (candidate > 0 && candidate < nextCall) then candidate else nextCall
  }

  lemma NextCallIsMinimum(nextCall: MLMicroSeconds, candidate: MLMicroSeconds)
    ensures nextCall > 0 && candidate > 0 ==> NextCall(nextCall, candidate) == Min(nextCall, candidate)
    ensures nextCall > 0 && candidate <= 0 ==> NextCall(nextCall, candidate) == nextCall
    ensures nextCall <= 0 ==> NextCall(nextCall, candidate) == candidate
  {
  }

  /** A sequence of candidates folded through updateNextCall, as a view folds its children's step results. */
  function FoldNextCall(nextCall: MLMicroSeconds, candidates: seq<MLMicroSeconds>): (r: MLMicroSeconds)
    decreases |candidates|
    ensures r == nextCall || r in candidates
    ensures nextCall > 0 ==> 0 < r <= nextCall
  {
    if candidates == [] then nextCall else FoldNextCall(NextCall(nextCall, candidates[0]), candidates[1..])
  }

  /** Starting from a pending call, the fold keeps the earliest positive time. */
  lemma {:induction false} FoldFromPending(nextCall: MLMicroSeconds, cs: seq<MLMicroSeconds>)
    requires nextCall > 0
    decreases |cs|
    ensures var r := FoldNextCall(nextCall, cs);
            && 0 < r <= nextCall
            && (r == nextCall || r in cs)
            && forall i :: 0 <= i < |cs| && cs[i] > 0 ==> r <= cs[i]
  {
    if cs != [] {
      var n := NextCall(nextCall, cs[0]);
      FoldFromPending(n, cs[1..]);
      var r := FoldNextCall(n, cs[1..]);
      forall i | 0 <= i < |cs| && cs[i] > 0
        ensures r <= cs[i]
      {
        if i > 0 { assert cs[1..][i - 1] == cs[i]; }
      }
      assert r in cs[1..] ==> r in cs;
    }
  }

  /** Starting from "none", the fold needs a call exactly when some candidate does, at the earliest such time. */
  lemma {:induction false} FoldFromNone(nextCall: MLMicroSeconds, cs: seq<MLMicroSeconds>)
    requires nextCall <= 0
    decreases |cs|
    ensures var r := FoldNextCall(nextCall, cs);
            && (r > 0 <==> exists i :: 0 <= i < |cs| && cs[i] > 0)
            && (r > 0 ==> r in cs && forall i :: 0 <= i < |cs| && cs[i] > 0 ==> r <= cs[i])
  {
    if cs != [] {
      var n := NextCall(nextCall, cs[0]);
      var r := FoldNextCall(n, cs[1..]);
      if n > 0 {
        FoldFromPending(n, cs[1..]);
        forall i | 0 <= i < |cs| && cs[i] > 0
          ensures r <= cs[i]
        {
          if i > 0 { assert cs[1..][i - 1] == cs[i]; }
        }
        assert r in cs[1..] ==> r in cs;
      } else {
        FoldFromNone(n, cs[1..]);
        if exists i :: 0 <= i < |cs| && cs[i] > 0 {
          var i :| 0 <= i < |cs| && cs[i] > 0;
          assert cs[1..][i - 1] == cs[i];
        }
        if r > 0 {
          forall i | 0 <= i < |cs| && cs[i] > 0
            ensures r <= cs[i]
          {
            assert cs[1..][i - 1] == cs[i];
          }
          assert r in cs;
        }
      }
    }
  }

  // ----- fade arithmetic -----

  function Abs(v: int): nat {
    if v < 0 then -v else v
  }

  /** C integer division, truncating toward zero: the remainder is smaller than the divisor and has the sign of a. */
  function CDiv(a: int, b: int): (r: int)
    requires b != 0
    ensures var m := a - r * b; Abs(m) < Abs(b) && (m == 0 || (m < 0) == (a < 0))
  {
    var q := Abs(a) / Abs(b);
    var r := if (a < 0) != (b < 0) then -q else q;
    TruncatedRemainder(a, b, q, r);
    r
  }

  /** With q the quotient of the magnitudes and r carrying the sign, a - r * b is C's remainder. */
  lemma TruncatedRemainder(a: int, b: int, q: int, r: int)
    requires b != 0 && q == Abs(a) / Abs(b)
    requires r == if (a < 0) != (b < 0) then -q else q
    ensures var m := a - r * b; Abs(m) < Abs(b) && (m == 0 || (m < 0) == (a < 0))
  {
    var p := q * Abs(b);
    assert 0 <= Abs(a) - p < Abs(b);
    if b < 0 {
      assert r * b == (-r) * (-b);
    }
    assert r * b == if a < 0 then -p else p;
  }

  /**
    * The alpha step sets while fading: targetAlpha - (1 - elapsed/fadeTime) * fadeDist,
    * truncated toward zero, computed exactly instead of in double precision.
    */
  function InterpolatedAlpha(target: int, dist: int, elapsed: int, fadeTime: int): (r: int)
    requires fadeTime > 0
    ensures elapsed == 0 ==> r == target - dist
    ensures elapsed == fadeTime ==> r == target
  {
    assert elapsed == 0 ==> target * fadeTime - (fadeTime - elapsed) * dist == (target - dist) * fadeTime;
    CDivExact(target - dist, fadeTime);
    assert elapsed == fadeTime ==> target * fadeTime - (fadeTime - elapsed) * dist == target * fadeTime;
    CDivExact(target, fadeTime);
    CDiv(target * fadeTime - (fadeTime - elapsed) * dist, fadeTime)
  }

  lemma CDivExact(k: int, d: int)
    requires d > 0
    ensures CDiv(k * d, d) == k
  {
    if k >= 0 {
      DivModOf(k, 0, d);
    } else {
      assert Abs(k * d) == (-k) * d;
      DivModOf(-k, 0, d);
    }
  }

  /** When fading down over at least one microsecond per alpha step, the suggested next call is in the past. */
  lemma FadeDownSuggestsPastTime(fadeTime: int, dist: int, now: int)
    requires dist < 0 && fadeTime >= -dist
    ensures now + CDiv(fadeTime, dist) < now
  {
    var q := fadeTime / (-dist);
    assert fadeTime == q * (-dist) + fadeTime % (-dist);
  }
}
