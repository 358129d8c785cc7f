/**
  * Pixel value types and the colour arithmetic of view.cpp: dimming,
  * saturating add, alpha overlay, the energy-weighted cross-fade and the
  * rectangle predicates. Every function here is total on its byte inputs.
  */
module Pixel {

  /** An 8-bit unsigned intensity (uint8_t). */
  type byte = x: int | 0 <= x < 0x100

  /** A 16-bit unsigned dimming factor (uint16_t). */
  type uint16 = x: int | 0 <= x < 0x1_0000

  datatype PixelColor = PixelColor(r: byte, g: byte, b: byte, a: byte)

  /** Origin may be negative; the size is meant to be non-negative but nothing enforces it. */
  datatype PixelRect = PixelRect(x: int, y: int, dx: int, dy: int)

  datatype PixelCoord = PixelCoord(x: int, y: int)

  const Transparent := PixelColor(0, 0, 0, 0)
  const Black := PixelColor(0, 0, 0, 255)
  const ZeroRect := PixelRect(0, 0, 0, 0)

  /** The size assumption every piece of geometry code makes. */
  predicate WellSized(r: PixelRect) {
    r.dx >= 0 && r.dy >= 0
  }

  lemma ZeroRectIsEmpty()
    ensures WellSized(ZeroRect) && ZeroRect.dx == 0 && ZeroRect.dy == 0
  {
  }

  // ----- rectangles -----

  /** The point lies in the half-open area [x, x+dx) x [y, y+dy). */
  predicate InRect(rect: PixelRect, pt: PixelCoord) {
    rect.x <= pt.x < rect.x + rect.dx && rect.y <= pt.y < rect.y + rect.dy
  }

  /** rectContainsRect: the child's area lies within the parent's on both axes. */
  predicate RectContainsRect(parent: PixelRect, child: PixelRect)
    ensures RectContainsRect(parent, child) ==> forall pt :: InRect(child, pt) ==> InRect(parent, pt)
  {
    && child.x >= parent.x
    && child.x + child.dx <= parent.x + parent.dx
    && child.y >= parent.y
    && child.y + child.dy <= parent.y + parent.dy
  }

  /** rectIntersectsRect: the two areas overlap on both axes. */
  predicate RectIntersectsRect(r1: PixelRect, r2: PixelRect)
    ensures (exists pt :: InRect(r1, pt) && InRect(r2, pt)) ==> RectIntersectsRect(r1, r2)
  {
    && r1.x + r1.dx > r2.x
    && r1.x < r2.x + r2.dx
    && r1.y + r1.dy > r2.y
    && r1.y < r2.y + r2.dy
  }

  lemma ContainsReflexive(r: PixelRect)
    ensures RectContainsRect(r, r)
  {
  }

  lemma IntersectsSymmetric(r1: PixelRect, r2: PixelRect)
    ensures RectIntersectsRect(r1, r2) == RectIntersectsRect(r2, r1)
  {
  }

  /** A child with positive size inside a parent meets that parent. */
  lemma ContainedIntersects(parent: PixelRect, child: PixelRect)
    requires child.dx > 0 && child.dy > 0
    requires RectContainsRect(parent, child)
    ensures RectIntersectsRect(parent, child)
  {
  }

  /** For a non-empty child, containment is exactly "every point of the child is a point of the parent". */
  lemma ContainsIffPointwise(parent: PixelRect, child: PixelRect)
    requires child.dx > 0 && child.dy > 0
    ensures RectContainsRect(parent, child) <==> forall pt :: InRect(child, pt) ==> InRect(parent, pt)
  {
    if forall pt :: InRect(child, pt) ==> InRect(parent, pt) {
      assert InRect(child, PixelCoord(child.x, child.y));
      assert InRect(child, PixelCoord(child.x + child.dx - 1, child.y + child.dy - 1));
    }
  }

  /** For rectangles of positive size, intersection is exactly "some point lies in both". */
  lemma IntersectsIffCommonPoint(r1: PixelRect, r2: PixelRect)
    requires r1.dx > 0 && r1.dy > 0 && r2.dx > 0 && r2.dy > 0
    ensures RectIntersectsRect(r1, r2) <==> exists pt :: InRect(r1, pt) && InRect(r2, pt)
  {
    if RectIntersectsRect(r1, r2) {
      var pt := PixelCoord(if r1.x < r2.x then r2.x else r1.x, if r1.y < r2.y then r2.y else r1.y);
      assert InRect(r1, pt) && InRect(r2, pt);
    }
  }

  // ----- dimming -----

  /** Scale aVal by (aDim+1)/256, capped at 255: 255 is identity, less dims, more lights up. */
  function DimVal(v: byte, dim: uint16): (r: byte)
    ensures v == 0 ==> r == 0
    ensures dim == 0xFFFF ==> r == (if v == 0 then 0 else 0xFF)
  {
    var d := (dim + 1) * v;
    if d > 0xFFFF then 0xFF else d / 0x100
  }

  lemma DimValBounds(v: byte, dim: uint16)
    ensures dim == 255 ==> DimVal(v, dim) == v
    ensures dim <= 255 ==> DimVal(v, dim) <= v
    ensures dim >= 255 ==> DimVal(v, dim) >= v
  {
    if dim <= 255 {
      assert (dim + 1) * v <= 256 * v by { MulLeftMono(dim + 1, 256, v); }
    } else {
      assert (dim + 1) * v >= 256 * v by { MulLeftMono(256, dim + 1, v); }
    }
  }

  /** More dimming factor never gives a darker value. */
  lemma DimValMonotone(v: byte, d1: uint16, d2: uint16)
    requires d1 <= d2
    ensures DimVal(v, d1) <= DimVal(v, d2)
  {
    MulLeftMono(d1 + 1, d2 + 1, v);
  }

  lemma MulLeftMono(a: int, b: int, c: nat)
    requires a <= b
    ensures a * c <= b * c
  {
    assert b * c - a * c == (b - a) * c;
    MulNonneg(b - a, c);
  }

  lemma MulNonneg(a: nat, b: nat)
    ensures a * b >= 0
  {
  }

  /** dimPixel / dimmedPixel: r, g, b dimmed, alpha untouched. */
  function DimmedPixel(p: PixelColor, dim: uint16): (q: PixelColor)
    ensures q.a == p.a
  {
    p.(r := DimVal(p.r, dim), g := DimVal(p.g, dim), b := DimVal(p.b, dim))
  }

  /** alpahDimPixel: dim r, g, b by the pixel's own alpha, unless it is opaque. */
  function AlphaDimmedPixel(p: PixelColor): (q: PixelColor)
    ensures q.a == p.a
    ensures q.r <= p.r && q.g <= p.g && q.b <= p.b
    ensures p.a == 255 ==> q == p
  {
    DimValBounds(p.r, p.a);
    DimValBounds(p.g, p.a);
    DimValBounds(p.b, p.a);
    if p.a != 255 then DimmedPixel(p, p.a) else p
  }

  // ----- saturating arithmetic -----

  /** reduce: subtract, but not below aMin. */
  function Reduce(v: byte, amount: byte, min: byte): (r: byte)
    ensures r >= min
    ensures v - amount >= min ==> r == v - amount
    ensures v - amount < min ==> r == min
  {
    var d := v - amount;
    if d < min then min else d
  }

  /** increase: add, but not above aMax. */
  function Increase(v: byte, amount: byte, max: byte): (r: byte)
    ensures r <= max
    ensures v + amount <= max ==> r == v + amount
    ensures v + amount > max ==> r == max
  {
    var s := v + amount;
    if s > max then max else s
  }

  function Min(a: int, b: int): int {
    if a < b then a else b
  }

  /**
    * addToPixel: each of r, g, b goes through increase (so it saturates at 255
    * although the header's note says no overflow check is made); alpha is kept.
    */
  function AddToPixel(p: PixelColor, add: PixelColor): (r: PixelColor)
    ensures r.a == p.a && p.r <= r.r && p.g <= r.g && p.b <= r.b
  {
    p.(r := Increase(p.r, add.r, 255), g := Increase(p.g, add.g, 255), b := Increase(p.b, add.b, 255))
  }

  lemma AddToPixelSaturates(p: PixelColor, add: PixelColor)
    ensures AddToPixel(p, add).r == Min(p.r + add.r, 255)
    ensures AddToPixel(p, add).g == Min(p.g + add.g, 255)
    ensures AddToPixel(p, add).b == Min(p.b + add.b, 255)
    ensures AddToPixel(p, add).a == p.a
  {
  }

  /** overlayPixel: an opaque overlay replaces, otherwise both are dimmed by the overlay's alpha and added. */
  function OverlayPixel(base: PixelColor, overlay: PixelColor): (r: PixelColor)
    ensures r.a == 255
  {
    var mixed :=
      if overlay.a == 255 then overlay
      else AddToPixel(DimmedPixel(base, 255 - overlay.a), DimmedPixel(overlay, overlay.a));
    mixed.(a := 255)
  }

  lemma OverlayOpaque(base: PixelColor, overlay: PixelColor)
    requires overlay.a == 255
    ensures OverlayPixel(base, overlay) == overlay
  {
  }

  /** A fully transparent overlay leaves the base colour showing, made opaque. */
  lemma OverlayTransparent(base: PixelColor, overlay: PixelColor)
    requires overlay.a == 0
    ensures OverlayPixel(base, overlay) == base.(a := 255)
  {
    DimValBounds(base.r, 255);
    DimValBounds(base.g, 255);
    DimValBounds(base.b, 255);
  }

  /** Overlaying never darkens a channel below the base dimmed by the overlay's transparency. */
  lemma OverlayChannelsBounded(base: PixelColor, overlay: PixelColor)
    requires overlay.a < 255
    ensures OverlayPixel(base, overlay).r >= DimVal(base.r, 255 - overlay.a)
    ensures OverlayPixel(base, overlay).r <= Min(DimVal(base.r, 255 - overlay.a) + DimVal(overlay.r, overlay.a), 255)
  {
  }

  // ----- energy-weighted cross-fade -----

  /**
    * One channel blended in the linear (PWM) domain: each side converted by
    * toPwm, offset by one, weighted by 255-amount and amount, then >>8.
    * The sum is at most 256*255, so the channel always fits a byte.
    */
  function MixChannel(toPwm: byte -> byte, mainV: byte, outV: byte, amount: byte): (e: byte)
  {
    EnergySumBound(toPwm(mainV), toPwm(outV), amount);
    ((toPwm(mainV) + 1) * (255 - amount) + (toPwm(outV) + 1) * amount) / 0x100
  }

  lemma EnergySumBound(p: byte, q: byte, amount: byte)
    ensures 0 <= (p + 1) * (255 - amount) + (q + 1) * amount < 256 * 256
  {
    var pp: int, qq: int, w: int := p + 1, q + 1, 255 - amount;
    MulLeftMono(pp, 256, w);
    MulLeftMono(qq, 256, amount);
    MulNonneg(pp, w);
    MulNonneg(qq, amount);
    assert 256 * w + 256 * amount == 256 * 255;
  }

  /** Channel brightness back from the linear domain, scaled by the alpha boost ab. */
  function BoostedChannel(toBrightness: byte -> byte, e: byte, ab: nat): nat {
    MulNonneg(toBrightness(e) + 1, ab);
    ((toBrightness(e) + 1) * ab) / 0x100
  }

  /** The down-scaling of one boosted channel by cr = 65025/m (line 452). */
  function ScaledChannel(v: nat, cr: nat): nat {
    MulNonneg(v, cr);
    v * cr / 0x100
  }

  /** The boosted alpha (line 456), truncated to a uint8_t. */
  function BoostedAlpha(alpha: byte, m: nat): byte {
    MulNonneg(alpha + 1, m);
    ((alpha + 1) * m / 0x100) % 0x100
  }

  function Max3(a: int, b: int, c: int): int {
    var m := if b > a then b else a;
    if c > m then c else m
  }

  function Cap255(v: int): byte
    requires v >= 0
  {
    if v > 255 then 255 else v
  }

  /**
    * mixinPixel: cross-fade main towards outside by amount/255.
    * toPwm and toBrightness stand for brightnessToPwm and pwmToBrightness,
    * tables this model does not contain. The combined alpha (line 433) and the
    * boosted alpha (line 456) are stored in a uint8_t and so wrap modulo 256.
    */
  function MixinPixel(main: PixelColor, outside: PixelColor, amount: byte,
                      toPwm: byte -> byte, toBrightness: byte -> byte): (r: PixelColor)
    ensures amount == 0 ==> r == main
    ensures main.a == 255 && outside.a == 255 ==> r.a == 255
  {
    if amount == 0 then main
    else if main.a != 255 || outside.a != 255 then
      var alpha := (DimVal(main.a, toBrightness(255 - amount)) + DimVal(outside.a, toBrightness(amount))) % 0x100;
      if alpha > 0 then
        var ab := 65025 / alpha;
        var re := MixChannel(toPwm, DimVal(main.r, main.a), DimVal(outside.r, outside.a), amount);
        var ge := MixChannel(toPwm, DimVal(main.g, main.a), DimVal(outside.g, outside.a), amount);
        var be := MixChannel(toPwm, DimVal(main.b, main.a), DimVal(outside.b, outside.a), amount);
        var r := BoostedChannel(toBrightness, re, ab);
        var g := BoostedChannel(toBrightness, ge, ab);
        var b := BoostedChannel(toBrightness, be, ab);
        var m := Max3(r, g, b);
        if m > 255 then
          var cr := 65025 / m;
          PixelColor(Cap255(ScaledChannel(r, cr)), Cap255(ScaledChannel(g, cr)), Cap255(ScaledChannel(b, cr)),
                     BoostedAlpha(alpha, m))
        else
          PixelColor(r, g, b, alpha)
      else
        Transparent
    else
      // both opaque; the channel sums never exceed 255, so the source's "> 255" guards never fire
      PixelColor(toBrightness(MixChannel(toPwm, main.r, outside.r, amount)),
                 toBrightness(MixChannel(toPwm, main.g, outside.g, amount)),
                 toBrightness(MixChannel(toPwm, main.b, outside.b, amount)),
                 255)
  }

  /** Mixed transparency whose combined (wrapped) alpha is 0 yields transparent. */
  lemma MixinZeroAlphaIsTransparent(main: PixelColor, outside: PixelColor, amount: byte,
                                    toPwm: byte -> byte, toBrightness: byte -> byte)
    requires amount > 0 && (main.a != 255 || outside.a != 255)
    requires (DimVal(main.a, toBrightness(255 - amount)) + DimVal(outside.a, toBrightness(amount))) % 0x100 == 0
    ensures MixinPixel(main, outside, amount, toPwm, toBrightness) == Transparent
  {
  }

  /** Blending a channel with itself returns its own linear value, whatever the weight. */
  lemma MixChannelSame(toPwm: byte -> byte, v: byte, amount: byte)
    ensures MixChannel(toPwm, v, v, amount) == toPwm(v)
  {
    var p: int := toPwm(v);
    calc {
      (p + 1) * (255 - amount) + (p + 1) * amount;
      { Distribute(p + 1, 255 - amount, amount); }
      (p + 1) * 255;
      256 * p + (255 - p);
    }
  }

  /** With the whole weight outside, a channel takes the outside's linear value. */
  lemma MixChannelAllOutside(toPwm: byte -> byte, mainV: byte, outV: byte)
    ensures MixChannel(toPwm, mainV, outV, 255) == toPwm(outV)
  {
    var p: int, q: int := toPwm(mainV), toPwm(outV);
    assert (p + 1) * (255 - 255) == 0;
    assert (q + 1) * 255 == 256 * q + (255 - q);
  }

  lemma Distribute(a: int, b: int, c: int)
    ensures a * b + a * c == a * 255 + a * (b + c - 255)
  {
  }

  /** Cross-fading an opaque pixel with itself is the identity when the two tables invert each other on its channels. */
  lemma MixinSelfOpaque(p: PixelColor, amount: byte, toPwm: byte -> byte, toBrightness: byte -> byte)
    requires p.a == 255
    requires toBrightness(toPwm(p.r)) == p.r && toBrightness(toPwm(p.g)) == p.g && toBrightness(toPwm(p.b)) == p.b
    ensures MixinPixel(p, p, amount, toPwm, toBrightness) == p
  {
    MixChannelSame(toPwm, p.r, amount);
    MixChannelSame(toPwm, p.g, amount);
    MixChannelSame(toPwm, p.b, amount);
  }

  /** An opaque pair with full weight outside yields the outside pixel, given inverse tables on its channels. */
  lemma MixinAllOutsideOpaque(main: PixelColor, outside: PixelColor, toPwm: byte -> byte, toBrightness: byte -> byte)
    requires main.a == 255 && outside.a == 255
    requires toBrightness(toPwm(outside.r)) == outside.r
    requires toBrightness(toPwm(outside.g)) == outside.g
    requires toBrightness(toPwm(outside.b)) == outside.b
    ensures MixinPixel(main, outside, 255, toPwm, toBrightness) == outside
  {
    MixChannelAllOutside(toPwm, main.r, outside.r);
    MixChannelAllOutside(toPwm, main.g, outside.g);
    MixChannelAllOutside(toPwm, main.b, outside.b);
  }
}
