/**
  * The View object: frame and content geometry with a re-entrant
  * geometry-change transaction, the dirty flag, alpha fading driven by step,
  * the colorAt rendering query, next-call bookkeeping and configureView.
  * The main-loop clock is passed in as `now`; a completion callback is an
  * opaque token whose invocation is reported to the caller.
  */
module Views {
  import opened Wrappers
  import opened Pixel
  import opened WebColor
  import opened ViewGeometry

  /** A SimpleCB, known only by identity. */
  datatype Callback = Callback(id: nat)

  /** One childGeometryChanged call made on the parent: the old frame and content. */
  datatype GeometryNotice = GeometryNotice(parent: View, oldFrame: PixelRect, oldContent: PixelRect)

  function NoticeTo(parent: View?, oldFrame: PixelRect, oldContent: PixelRect): seq<GeometryNotice> {
    if parent == null then [] else [GeometryNotice(parent, oldFrame, oldContent)]
  }

  type int32 = x: int | -0x8000_0000 <= x < 0x8000_0000

  /** A JSON property value as configureView reads it: as a string, a bool or an int32. */
  datatype ConfigValue = ConfigValue(stringValue: string, boolValue: bool, int32Value: int32)

  type ViewConfig = map<string, ConfigValue>

  function IntOr(config: ViewConfig, key: string, default: int): int {
    if key in config then config[key].int32Value else default
  }

  function BoolOr(config: ViewConfig, key: string, default: bool): bool {
    if key in config then config[key].boolValue else default
  }

  /** A key that triggers an action only when present and true ("clear", "fullframe"). */
  predicate Flag(config: ViewConfig, key: string) {
    key in config && config[key].boolValue
  }

  /** The keys of configureView that count as a geometry change. */
  predicate TouchesGeometry(config: ViewConfig) {
    "x" in config || "y" in config || "dx" in config || "dy" in config ||
    "content_x" in config || "content_y" in config || "content_dx" in config || "content_dy" in config ||
    Flag(config, "clear") || Flag(config, "fullframe")
  }

  /** The content rectangle after the content keys (and "clear") are applied, without "fullframe". */
  function ConfiguredContent(config: ViewConfig, content: PixelRect): PixelRect {
    var cleared := if Flag(config, "clear") then content.(dx := 0, dy := 0) else content;
    PixelRect(
      IntOr(config, "content_x", cleared.x), IntOr(config, "content_y", cleared.y),
      IntOr(config, "content_dx", cleared.dx), IntOr(config, "content_dy", cleared.dy))
  }

  /**
    * The look keys that mark the view dirty: "bgcolor" and "color" always,
    * "wrapmode" through its setter, and "alpha" when it differs from the current alpha.
    */
  predicate LookDirties(config: ViewConfig, alpha: byte) {
    "bgcolor" in config || "color" in config || "wrapmode" in config ||
    ("alpha" in config && config["alpha"].int32Value != alpha)
  }

  /**
    * The frame after "clear" and the frame keys: a true "clear" empties the
    * content, which resizes the frame when sizeToContent is on; then each of
    * "x", "y", "dx", "dy" that is present overrides its field.
    */
  function FrameAfterKeys(config: ViewConfig, frame: PixelRect, content: PixelRect,
                          orientation: Orientation, sizeToContent: bool): PixelRect {
    var f := if Flag(config, "clear") && sizeToContent
             then SizedToContent(frame, content.(dx := 0, dy := 0), orientation) else frame;
    PixelRect(IntOr(config, "x", f.x), IntOr(config, "y", f.y), IntOr(config, "dx", f.dx), IntOr(config, "dy", f.dy))
  }

  /** The wrap loops of colorAt for one axis with a positive size. */
  method WrapCoordinate(v: int, size: int, wrapMin: bool, wrapMax: bool) returns (w: int)
    requires size > 0
    ensures w == WrapAxis(v, size, wrapMin, wrapMax)
  {
    w := v;
    ghost var k: nat := 0;
    while wrapMin && w < 0
      invariant w == v + k * size
      invariant !wrapMin || v >= 0 ==> k == 0
      invariant k > 0 ==> w < size
      decreases -w
    {
      w := w + size;
      k := k + 1;
    }
    if k > 0 {
      ModOfShift(v, k, size);
    }
    ghost var w1 := w;
    ghost var j: nat := 0;
    while wrapMax && w >= size
      invariant w == w1 - j * size
      invariant !wrapMax || w1 < size ==> j == 0
      invariant j > 0 ==> w >= 0
      decreases w
    {
      w := w - size;
      j := j + 1;
    }
    if j > 0 {
      ModOfShift(w1, -(j as int), size);
    }
  }

  class View {
    var dirty: bool
    // fading: targetAlpha < 0 means not fading
    var targetAlpha: int
    var fadeDist: int
    var startTime: MLMicroSeconds
    var fadeTime: MLMicroSeconds
    var fadeCompleteCB: Option<Callback>
    // geometry-change transaction
    var geometryChanging: int
    var changedGeometry: bool
    var previousFrame: PixelRect
    var previousContent: PixelRect
    var sizeToContent: bool
    var parentView: View?
    var frame: PixelRect
    var content: PixelRect
    var contentOrientation: Orientation
    var contentWrapMode: WrapMode
    var backgroundColor: PixelColor
    var foregroundColor: PixelColor
    var alpha: byte
    var contentIsMask: bool
    var localTimingPriority: bool
    var maskChildDirtyUntil: MLMicroSeconds
    var viewLabel: string
    /** The childGeometryChanged calls this view has made on its parents, oldest first. */
    var parentNotices: seq<GeometryNotice>

    /** The transaction counter is never negative; a running fade has a duration and a distance. */
    predicate Valid()
      reads this
    {
      geometryChanging >= 0 && (targetAlpha >= 0 ==> fadeTime > 0 && fadeDist != 0)
    }

    predicate Fading()
      reads this
    {
      targetAlpha >= 0
    }

    function Look(): Appearance
      reads this
    {
      Appearance(frame, content, contentOrientation, contentWrapMode,
                 backgroundColor, foregroundColor, alpha, contentIsMask)
    }

    function GetContentSize(): PixelCoord
      reads this
    {
      PixelCoord(content.dx, content.dy)
    }

    /**
      * A setter's transaction has closed: the counter is back where it was and
      * the view is dirty; opened from 0, the parent got exactly one notice with
      * the geometry from before the call, and nested, no notice yet.
      */
    twostate predicate GeometryCommitted()
      reads this
    {
      && geometryChanging == old(geometryChanging)
      && dirty
      && changedGeometry
      && (old(geometryChanging) == 0 ==>
            parentNotices == old(parentNotices) + NoticeTo(parentView, old(frame), old(content)))
      && (old(geometryChanging) > 0 ==>
            && parentNotices == old(parentNotices)
            && previousFrame == old(previousFrame) && previousContent == old(previousContent))
    }

    constructor ()
      ensures Valid() && geometryChanging == 0 && dirty
      ensures frame == ZeroRect && content == ZeroRect && !sizeToContent
      ensures contentOrientation == Right && contentWrapMode == NoWrap
      ensures backgroundColor == Transparent && foregroundColor == PixelColor(255, 255, 255, 255)
      ensures alpha == 255 && !contentIsMask && !Fading() && fadeCompleteCB == None
      ensures localTimingPriority && maskChildDirtyUntil == Never
      ensures parentView == null && parentNotices == [] && viewLabel == ""
    {
      geometryChanging := 0;
      changedGeometry := false;
      sizeToContent := false;
      contentOrientation := Right;
      contentWrapMode := NoWrap;
      backgroundColor := Transparent;
      foregroundColor := PixelColor(255, 255, 255, 255);
      alpha := 255;
      contentIsMask := false;
      targetAlpha := -1;
      fadeCompleteCB := None;
      localTimingPriority := true;
      maskChildDirtyUntil := Never;
      parentView := null;
      parentNotices := [];
      viewLabel := "";
      new;
      SetFrame(ZeroRect);
      SetContent(ZeroRect);
    }

    method MakeDirty()
      modifies this`dirty
      ensures dirty
    {
      dirty := true;
    }

    /** Opens (start) or closes a geometry-change transaction. */
    method GeometryChange(start: bool)
      requires geometryChanging >= 0
      modifies this`geometryChanging, this`changedGeometry, this`previousFrame, this`previousContent,
               this`dirty, this`parentNotices
      ensures start ==>
        && geometryChanging == old(geometryChanging) + 1
        && dirty == old(dirty) && parentNotices == old(parentNotices)
        && (old(geometryChanging) == 0 ==> !changedGeometry && previousFrame == frame && previousContent == content)
        && (old(geometryChanging) > 0 ==>
              changedGeometry == old(changedGeometry)
              && previousFrame == old(previousFrame) && previousContent == old(previousContent))
      ensures !start ==>
        && geometryChanging == (if old(geometryChanging) > 0 then old(geometryChanging) - 1 else 0)
        && changedGeometry == old(changedGeometry)
        && previousFrame == old(previousFrame) && previousContent == old(previousContent)
        && (if old(geometryChanging) == 1 && changedGeometry
            then dirty && parentNotices == old(parentNotices) + NoticeTo(parentView, previousFrame, previousContent)
            else dirty == old(dirty) && parentNotices == old(parentNotices))
    {
      if start {
        if geometryChanging <= 0 {
          changedGeometry := false;
          previousFrame := frame;
          previousContent := content;
        }
        geometryChanging := geometryChanging + 1;
      } else {
        if geometryChanging > 0 {
          geometryChanging := geometryChanging - 1;
          if geometryChanging == 0 {
            if changedGeometry {
              MakeDirty();
              if parentView != null {
                parentNotices := parentNotices + [GeometryNotice(parentView, previousFrame, previousContent)];
              }
            }
          }
        }
      }
    }

    method SetFrame(f: PixelRect)
      requires geometryChanging >= 0
      modifies this`frame, this`geometryChanging, this`changedGeometry, this`previousFrame,
               this`previousContent, this`dirty, this`parentNotices
      ensures frame == f && GeometryCommitted()
    {
      GeometryChange(true);
      changedGeometry := true;
      frame := f;
      MakeDirty();
      GeometryChange(false);
    }

    method SetParent(p: View?)
      modifies this`parentView
      ensures parentView == p
    {
      parentView := p;
    }

    method SizeFrameToContent()
      requires geometryChanging >= 0
      modifies this`frame, this`geometryChanging, this`changedGeometry, this`previousFrame,
               this`previousContent, this`dirty, this`parentNotices
      ensures frame == SizedToContent(old(frame), content, contentOrientation)
      ensures GeometryCommitted()
    {
      GeometryChange(true);
      changedGeometry := true;
      var sz := OrientPoint(contentOrientation, content, GetContentSize());
      frame := frame.(dx := sz.x, dy := sz.y);
      MakeDirty();
      GeometryChange(false);
    }

    method SetContent(c: PixelRect)
      requires geometryChanging >= 0
      modifies this`content, this`frame, this`geometryChanging, this`changedGeometry, this`previousFrame,
               this`previousContent, this`dirty, this`parentNotices
      ensures content == c
      ensures frame == if sizeToContent then SizedToContent(old(frame), c, contentOrientation) else old(frame)
      ensures GeometryCommitted()
    {
      GeometryChange(true);
      changedGeometry := true;
      content := c;
      if sizeToContent {
        SizeFrameToContent();
      }
      MakeDirty();
      GeometryChange(false);
    }

    method SetContentSize(size: PixelCoord)
      requires geometryChanging >= 0
      modifies this`content, this`frame, this`geometryChanging, this`changedGeometry, this`previousFrame,
               this`previousContent, this`dirty, this`parentNotices
      ensures content == old(content).(dx := size.x, dy := size.y) && GetContentSize() == size
      ensures frame == if sizeToContent then SizedToContent(old(frame), content, contentOrientation) else old(frame)
      ensures GeometryCommitted()
    {
      GeometryChange(true);
      changedGeometry := true;
      content := content.(dx := size.x, dy := size.y);
      if sizeToContent {
        SizeFrameToContent();
      }
      MakeDirty();
      GeometryChange(false);
    }

    /** Content origin 0,0 with the frame's size, orientation right; the frame itself stays. */
    method SetFullFrameContent()
      requires geometryChanging >= 0
      modifies this`contentOrientation, this`content, this`frame, this`geometryChanging, this`changedGeometry,
               this`previousFrame, this`previousContent, this`dirty, this`parentNotices
      ensures contentOrientation == Right
      ensures content == PixelRect(0, 0, old(frame).dx, old(frame).dy) && frame == old(frame)
      ensures GeometryCommitted()
    {
      SetOrientation(Right);
      SetContent(PixelRect(0, 0, frame.dx, frame.dy));
    }

    method Clear()
      requires geometryChanging >= 0
      modifies this`content, this`frame, this`geometryChanging, this`changedGeometry, this`previousFrame,
               this`previousContent, this`dirty, this`parentNotices
      ensures GetContentSize() == PixelCoord(0, 0) && content.x == old(content).x && content.y == old(content).y
      ensures frame == if sizeToContent then SizedToContent(old(frame), content, contentOrientation) else old(frame)
      ensures GeometryCommitted()
    {
      SetContentSize(PixelCoord(0, 0));
    }

    method SetBackgroundColor(c: PixelColor)
      modifies this`backgroundColor, this`dirty
      ensures backgroundColor == c && dirty
    {
      backgroundColor := c;
      MakeDirty();
    }

    method SetForegroundColor(c: PixelColor)
      modifies this`foregroundColor, this`dirty
      ensures foregroundColor == c && dirty
    {
      foregroundColor := c;
      MakeDirty();
    }

    method SetWrapMode(mode: WrapMode)
      modifies this`contentWrapMode, this`dirty
      ensures contentWrapMode == mode && dirty
    {
      contentWrapMode := mode;
      MakeDirty();
    }

    method SetOrientation(o: Orientation)
      modifies this`contentOrientation, this`dirty
      ensures contentOrientation == o && dirty
    {
      contentOrientation := o;
      MakeDirty();
    }

    /** The int is stored as uint8_t; the view gets dirty only when the value differs. */
    method SetAlpha(a: int)
      modifies this`alpha, this`dirty
      ensures alpha == a % 256
      ensures dirty == (old(dirty) || old(alpha) != a)
    {
      if alpha != a {
        alpha := a % 256;
        MakeDirty();
      }
    }

    method Hide()
      modifies this`alpha, this`dirty
      ensures alpha == 0 && dirty == (old(dirty) || old(alpha) != 0)
    {
      SetAlpha(0);
    }

    method Show()
      modifies this`alpha, this`dirty
      ensures alpha == 255 && dirty == (old(dirty) || old(alpha) != 255)
    {
      SetAlpha(255);
    }

    method SetVisible(visible: bool)
      modifies this`alpha, this`dirty
      ensures alpha == (if visible then 255 else 0)
      ensures dirty == (old(dirty) || old(alpha) != alpha)
    {
      if visible {
        Show();
      } else {
        Hide();
      }
    }

    /**
      * fadeTo: with no time or nothing to fade, alpha is set at once and the
      * callback is called before returning; otherwise the fade is armed.
      */
    method FadeTo(a: int, within: MLMicroSeconds, cb: Option<Callback>, now: MLMicroSeconds)
      returns (called: Option<Callback>)
      requires Valid()
      modifies this`fadeDist, this`startTime, this`fadeTime, this`alpha, this`dirty, this`targetAlpha,
               this`fadeCompleteCB
      ensures Valid()
      ensures fadeDist == a - old(alpha) && startTime == now && fadeTime == within
      ensures within <= 0 || a == old(alpha) ==>
        && alpha == a % 256 && !Fading() && called == cb
        && fadeCompleteCB == old(fadeCompleteCB) && dirty == (old(dirty) || old(alpha) != a)
      ensures within > 0 && a != old(alpha) ==>
        && targetAlpha == a && fadeCompleteCB == cb && called == None
        && alpha == old(alpha) && dirty == old(dirty)
    {
      fadeDist := a - alpha;
      startTime := now;
      fadeTime := within;
      if fadeTime <= 0 || fadeDist == 0 {
        SetAlpha(a);
        targetAlpha := -1;
        called := cb;
      } else {
        targetAlpha := a;
        fadeCompleteCB := cb;
        called := None;
      }
    }

    /** Ends a fade; its callback is dropped without being called. */
    method StopFading()
      modifies this`targetAlpha, this`fadeCompleteCB
      ensures !Fading() && fadeCompleteCB == None
    {
      targetAlpha := -1;
      fadeCompleteCB := None;
    }

    /**
      * step: while the fade runs, alpha follows the interpolation and the next
      * call is suggested one alpha step later; at or after the fade time the
      * target is set, fading ends and the callback is handed out once.
      */
    method Step(priorityUntil: MLMicroSeconds, now: MLMicroSeconds)
      returns (next: MLMicroSeconds, called: Option<Callback>)
      requires Valid()
      modifies this`alpha, this`dirty, this`targetAlpha, this`fadeCompleteCB
      ensures Valid()
      ensures !old(Fading()) ==>
        && next == Infinite && called == None && alpha == old(alpha) && dirty == old(dirty)
        && targetAlpha == old(targetAlpha) && fadeCompleteCB == old(fadeCompleteCB)
      ensures old(Fading()) && now - startTime < fadeTime ==>
        var v := InterpolatedAlpha(old(targetAlpha), fadeDist, now - startTime, fadeTime);
        && alpha == v % 256 && dirty == (old(dirty) || old(alpha) != v)
        && targetAlpha == old(targetAlpha) && fadeCompleteCB == old(fadeCompleteCB)
        && called == None && next == now + CDiv(fadeTime, fadeDist)
      ensures old(Fading()) && now - startTime >= fadeTime ==>
        && alpha == old(targetAlpha) % 256 && dirty == (old(dirty) || old(alpha) != old(targetAlpha))
        && !Fading() && fadeCompleteCB == None && called == old(fadeCompleteCB) && next == Infinite
    {
      called := None;
      if targetAlpha >= 0 {
        if now - startTime < fadeTime {
          var currentAlpha := InterpolatedAlpha(targetAlpha, fadeDist, now - startTime, fadeTime);
          SetAlpha(currentAlpha);
          next := now + CDiv(fadeTime, fadeDist);
          return;
        } else {
          SetAlpha(targetAlpha);
          targetAlpha := -1;
          if fadeCompleteCB != None {
            called := fadeCompleteCB;
            fadeCompleteCB := None;
          }
        }
      }
      next := Infinite;
    }

    /**
      * updateNextCall: the earlier positive time wins; a prioritised candidate
      * masks dirty children until twice its distance from now has passed.
      */
    method UpdateNextCall(nextCall: MLMicroSeconds, candidate: MLMicroSeconds,
                          priorityUntil: MLMicroSeconds, now: MLMicroSeconds)
      returns (r: MLMicroSeconds)
      modifies this`maskChildDirtyUntil
      ensures r == NextCall(nextCall, candidate)
      ensures var prioritised := localTimingPriority && priorityUntil > 0 && 0 <= candidate < priorityUntil;
              && (prioritised ==> maskChildDirtyUntil == (candidate - now) * 2 + now)
              && (prioritised && candidate >= now ==> maskChildDirtyUntil >= candidate)
              && (!prioritised ==> maskChildDirtyUntil == old(maskChildDirtyUntil))
    {
      if localTimingPriority && priorityUntil > 0 && candidate >= 0 && candidate < priorityUntil {
        maskChildDirtyUntil := (candidate - now) * 2 + now;
      }
      r := nextCall;
      if r <= 0 || (candidate > 0 && candidate < r) {
        r := candidate;
      }
    }

    /** Dirty children are reported unless a mask is set and still in the future; an expired mask is cleared. */
    method ReportDirtyChilds(now: MLMicroSeconds) returns (report: bool)
      modifies this`maskChildDirtyUntil
      ensures report == !(old(maskChildDirtyUntil) != Never && now < old(maskChildDirtyUntil))
      ensures report ==> maskChildDirtyUntil == Never
      ensures !report ==> maskChildDirtyUntil == old(maskChildDirtyUntil)
    {
      if maskChildDirtyUntil != Never {
        if now < maskChildDirtyUntil {
          return false;
        }
        maskChildDirtyUntil := Never;
      }
      return true;
    }

    predicate IsDirty()
      reads this
    {
      dirty
    }

    method Updated()
      modifies this`dirty
      ensures !IsDirty()
    {
      dirty := false;
    }

    /** colorAt, with the content source hook (contentColorAt) passed in. */
    method ColorAt(pt: PixelCoord, contentColorAt: PixelCoord -> PixelColor) returns (pc: PixelColor)
      ensures pc == Render(Look(), contentColorAt, pt)
    {
      pc := backgroundColor;
      if alpha == 0 {
        pc := pc.(a := 0);
      } else {
        var q := OrientPoint(contentOrientation, content, PixelCoord(pt.x - frame.x, pt.y - frame.y));
        assert q == OrientedPoint(Look(), pt);
        if Clipped(contentWrapMode, content, q) {
          pc := pc.(a := 0);
        } else {
          var sp := ContentPoint(pt, q);
          pc := contentColorAt(sp);
          pc := ShadeContent(pc);
        }
      }
    }

    /** The content point colorAt reads for pt, oriented to q: each axis wrapped where content has an extent. */
    method ContentPoint(pt: PixelCoord, q: PixelCoord) returns (sp: PixelCoord)
      requires q == OrientedPoint(Look(), pt)
      ensures sp == SourcePoint(Look(), pt)
    {
      var x, y := q.x, q.y;
      if content.dx > 0 {
        x := WrapCoordinate(x, content.dx, HasFlag(contentWrapMode, WrapXmin), HasFlag(contentWrapMode, WrapXmax));
      }
      if content.dy > 0 {
        y := WrapCoordinate(y, content.dy, HasFlag(contentWrapMode, WrapYmin), HasFlag(contentWrapMode, WrapYmax));
      }
      sp := PixelCoord(x + content.x, y + content.y);
    }

    /** What colorAt makes of the fetched content colour: mask, background where transparent, alpha dim. */
    method ShadeContent(fetched: PixelColor) returns (pc: PixelColor)
      ensures pc == Shade(Look(), fetched)
    {
      pc := fetched;
      if contentIsMask {
        pc := pc.(r := foregroundColor.r, g := foregroundColor.g, b := foregroundColor.b);
      }
      if pc.a == 0 {
        pc := backgroundColor;
      }
      if alpha != 255 {
        pc := pc.(a := DimVal(pc.a, alpha));
      }
    }

    /** getView: this view when the label matches, otherwise none. */
    function GetView(l: string): (v: View?)
      reads this
      ensures v != null <==> l == viewLabel
      ensures v != null ==> v == this
    {
      if l == viewLabel then this else null
    }

    /**
      * configureView: every present key is applied, in source order, inside
      * one geometry transaction; the result is always "no error".
      */
    method ConfigureView(config: ViewConfig) returns (err: Option<string>)
      requires geometryChanging >= 0
      modifies this`viewLabel, this`content, this`frame, this`geometryChanging, this`changedGeometry,
               this`previousFrame, this`previousContent, this`dirty, this`parentNotices,
               this`backgroundColor, this`foregroundColor, this`alpha, this`contentWrapMode, this`contentIsMask,
               this`contentOrientation, this`sizeToContent, this`localTimingPriority
      ensures err == None
      ensures geometryChanging == old(geometryChanging)
      ensures changedGeometry == (TouchesGeometry(config) || (old(geometryChanging) > 0 && old(changedGeometry)))
      ensures viewLabel == (if "label" in config then config["label"].stringValue else old(viewLabel))
      ensures backgroundColor ==
        (if "bgcolor" in config then WebColorToPixel(config["bgcolor"].stringValue) else old(backgroundColor))
      ensures foregroundColor ==
        (if "color" in config then WebColorToPixel(config["color"].stringValue) else old(foregroundColor))
      ensures alpha == (if "alpha" in config then config["alpha"].int32Value % 256 else old(alpha))
      ensures contentWrapMode ==
        (if "wrapmode" in config then ToUint8(config["wrapmode"].int32Value) else old(contentWrapMode))
      ensures contentIsMask == BoolOr(config, "mask", old(contentIsMask))
      ensures sizeToContent == BoolOr(config, "sizetocontent", old(sizeToContent))
      ensures localTimingPriority == BoolOr(config, "timingpriority", old(localTimingPriority))
      ensures contentOrientation ==
        (if Flag(config, "fullframe") then Right
         else if "orientation" in config then ToUint8(config["orientation"].int32Value)
         else old(contentOrientation))
      ensures Flag(config, "fullframe") ==> content == PixelRect(0, 0, frame.dx, frame.dy)
      ensures !Flag(config, "fullframe") ==> content == ConfiguredContent(config, old(content))
      ensures var f := FrameAfterKeys(config, old(frame), old(content), old(contentOrientation), old(sizeToContent));
              frame == if sizeToContent && changedGeometry then SizedToContent(f, content, contentOrientation) else f
      ensures dirty == (old(dirty) || TouchesGeometry(config) || LookDirties(config, old(alpha))
                        || "orientation" in config || (sizeToContent && changedGeometry))
      ensures old(geometryChanging) == 0 ==>
        parentNotices == old(parentNotices) + (if changedGeometry then NoticeTo(parentView, old(frame), old(content)) else [])
      ensures old(geometryChanging) > 0 ==> parentNotices == old(parentNotices)
    {
      GeometryChange(true);
      ApplyConfig(config);
      GeometryChange(false);
      err := None;
    }

    /** The body of configureView inside its transaction: all key groups, then the resize to content. */
    method ApplyConfig(config: ViewConfig)
      requires geometryChanging > 0
      modifies this`viewLabel, this`content, this`frame, this`geometryChanging, this`changedGeometry,
               this`previousFrame, this`previousContent, this`dirty, this`parentNotices,
               this`backgroundColor, this`foregroundColor, this`alpha, this`contentWrapMode, this`contentIsMask,
               this`contentOrientation, this`sizeToContent, this`localTimingPriority
      ensures geometryChanging == old(geometryChanging) && parentNotices == old(parentNotices)
      ensures previousFrame == old(previousFrame) && previousContent == old(previousContent)
      ensures changedGeometry == (old(changedGeometry) || TouchesGeometry(config))
      ensures viewLabel == (if "label" in config then config["label"].stringValue else old(viewLabel))
      ensures backgroundColor ==
        (if "bgcolor" in config then WebColorToPixel(config["bgcolor"].stringValue) else old(backgroundColor))
      ensures foregroundColor ==
        (if "color" in config then WebColorToPixel(config["color"].stringValue) else old(foregroundColor))
      ensures alpha == (if "alpha" in config then config["alpha"].int32Value % 256 else old(alpha))
      ensures contentWrapMode ==
        (if "wrapmode" in config then ToUint8(config["wrapmode"].int32Value) else old(contentWrapMode))
      ensures contentIsMask == BoolOr(config, "mask", old(contentIsMask))
      ensures sizeToContent == BoolOr(config, "sizetocontent", old(sizeToContent))
      ensures localTimingPriority == BoolOr(config, "timingpriority", old(localTimingPriority))
      ensures contentOrientation ==
        (if Flag(config, "fullframe") then Right
         else if "orientation" in config then ToUint8(config["orientation"].int32Value)
         else old(contentOrientation))
      ensures Flag(config, "fullframe") ==> content == PixelRect(0, 0, frame.dx, frame.dy)
      ensures !Flag(config, "fullframe") ==> content == ConfiguredContent(config, old(content))
      ensures var f := FrameAfterKeys(config, old(frame), old(content), old(contentOrientation), old(sizeToContent));
              frame == if sizeToContent && changedGeometry then SizedToContent(f, content, contentOrientation) else f
      ensures dirty == (old(dirty) || TouchesGeometry(config) || LookDirties(config, old(alpha))
                        || "orientation" in config || (sizeToContent && changedGeometry))
    {
      ApplyKeys(config);
      if changedGeometry && sizeToContent {
        SizeFrameToContent();
      }
    }

    /** The keys of configureView in source order, before the resize to content. */
    method ApplyKeys(config: ViewConfig)
      requires geometryChanging > 0
      modifies this`viewLabel, this`content, this`frame, this`geometryChanging, this`changedGeometry,
               this`previousFrame, this`previousContent, this`dirty, this`parentNotices,
               this`backgroundColor, this`foregroundColor, this`alpha, this`contentWrapMode, this`contentIsMask,
               this`contentOrientation, this`sizeToContent, this`localTimingPriority
      ensures geometryChanging == old(geometryChanging) && parentNotices == old(parentNotices)
      ensures previousFrame == old(previousFrame) && previousContent == old(previousContent)
      ensures changedGeometry == (old(changedGeometry) || TouchesGeometry(config))
      ensures viewLabel == (if "label" in config then config["label"].stringValue else old(viewLabel))
      ensures backgroundColor ==
        (if "bgcolor" in config then WebColorToPixel(config["bgcolor"].stringValue) else old(backgroundColor))
      ensures foregroundColor ==
        (if "color" in config then WebColorToPixel(config["color"].stringValue) else old(foregroundColor))
      ensures alpha == (if "alpha" in config then config["alpha"].int32Value % 256 else old(alpha))
      ensures contentWrapMode ==
        (if "wrapmode" in config then ToUint8(config["wrapmode"].int32Value) else old(contentWrapMode))
      ensures contentIsMask == BoolOr(config, "mask", old(contentIsMask))
      ensures sizeToContent == BoolOr(config, "sizetocontent", old(sizeToContent))
      ensures localTimingPriority == BoolOr(config, "timingpriority", old(localTimingPriority))
      ensures contentOrientation ==
        (if Flag(config, "fullframe") then Right
         else if "orientation" in config then ToUint8(config["orientation"].int32Value)
         else old(contentOrientation))
      ensures Flag(config, "fullframe") ==> content == PixelRect(0, 0, frame.dx, frame.dy)
      ensures !Flag(config, "fullframe") ==> content == ConfiguredContent(config, old(content))
      ensures frame == FrameAfterKeys(config, old(frame), old(content), old(contentOrientation), old(sizeToContent))
      ensures dirty == (old(dirty) || TouchesGeometry(config) || LookDirties(config, old(alpha)) || "orientation" in config)
    {
      ApplyFrameKeys(config);
      ApplyLookKeys(config);
      ApplyContentKeys(config);
    }

    /** configureView, first group: "label", "clear", then the frame keys. */
    method ApplyFrameKeys(config: ViewConfig)
      requires geometryChanging > 0
      modifies this`viewLabel, this`content, this`frame, this`geometryChanging, this`changedGeometry,
               this`previousFrame, this`previousContent, this`dirty, this`parentNotices
      ensures geometryChanging == old(geometryChanging) && parentNotices == old(parentNotices)
      ensures previousFrame == old(previousFrame) && previousContent == old(previousContent)
      ensures viewLabel == (if "label" in config then config["label"].stringValue else old(viewLabel))
      ensures content == if Flag(config, "clear") then old(content).(dx := 0, dy := 0) else old(content)
      ensures frame == FrameAfterKeys(config, old(frame), old(content), contentOrientation, sizeToContent)
      ensures var touched := Flag(config, "clear") || "x" in config || "y" in config || "dx" in config || "dy" in config;
              changedGeometry == (old(changedGeometry) || touched) && dirty == (old(dirty) || touched)
    {
      ApplyLabelAndClear(config);
      ApplyFrameRect(config);
    }

    /** configureView, last group: the content keys, then orientation and the flags. */
    method ApplyContentKeys(config: ViewConfig)
      requires geometryChanging > 0
      modifies this`content, this`contentOrientation, this`frame, this`sizeToContent, this`localTimingPriority,
               this`geometryChanging, this`changedGeometry, this`previousFrame, this`previousContent,
               this`dirty, this`parentNotices
      ensures geometryChanging == old(geometryChanging) && parentNotices == old(parentNotices)
      ensures previousFrame == old(previousFrame) && previousContent == old(previousContent)
      ensures frame == old(frame)
      ensures contentOrientation ==
        (if Flag(config, "fullframe") then Right
         else if "orientation" in config then ToUint8(config["orientation"].int32Value)
         else old(contentOrientation))
      ensures content ==
        if Flag(config, "fullframe") then PixelRect(0, 0, frame.dx, frame.dy)
        else PixelRect(
          IntOr(config, "content_x", old(content).x), IntOr(config, "content_y", old(content).y),
          IntOr(config, "content_dx", old(content).dx), IntOr(config, "content_dy", old(content).dy))
      ensures sizeToContent == BoolOr(config, "sizetocontent", old(sizeToContent))
      ensures localTimingPriority == BoolOr(config, "timingpriority", old(localTimingPriority))
      ensures var touched := "content_x" in config || "content_y" in config || "content_dx" in config
                             || "content_dy" in config || Flag(config, "fullframe");
              changedGeometry == (old(changedGeometry) || touched) && dirty == (old(dirty) || touched || "orientation" in config)
    {
      ApplyContentRect(config);
      ApplyContentMode(config);
    }

    /** configureView, keys "label" and "clear". */
    method ApplyLabelAndClear(config: ViewConfig)
      requires geometryChanging > 0
      modifies this`viewLabel, this`content, this`frame, this`geometryChanging, this`changedGeometry,
               this`previousFrame, this`previousContent, this`dirty, this`parentNotices
      ensures geometryChanging == old(geometryChanging) && parentNotices == old(parentNotices)
      ensures previousFrame == old(previousFrame) && previousContent == old(previousContent)
      ensures viewLabel == (if "label" in config then config["label"].stringValue else old(viewLabel))
      ensures Flag(config, "clear") ==>
        && content == old(content).(dx := 0, dy := 0) && changedGeometry && dirty
        && frame == if sizeToContent then SizedToContent(old(frame), content, contentOrientation) else old(frame)
      ensures !Flag(config, "clear") ==>
        && content == old(content) && frame == old(frame)
        && changedGeometry == old(changedGeometry) && dirty == old(dirty)
    {
      if "label" in config {
        viewLabel := config["label"].stringValue;
      }
      if "clear" in config {
        if config["clear"].boolValue { Clear(); }
      }
    }

    /** configureView, keys "x", "y", "dx" and "dy": each assigned directly, making the view dirty. */
    method ApplyFrameRect(config: ViewConfig)
      modifies this`frame, this`changedGeometry, this`dirty
      ensures frame == PixelRect(IntOr(config, "x", old(frame).x), IntOr(config, "y", old(frame).y),
                                 IntOr(config, "dx", old(frame).dx), IntOr(config, "dy", old(frame).dy))
      ensures var touched := "x" in config || "y" in config || "dx" in config || "dy" in config;
              changedGeometry == (old(changedGeometry) || touched) && dirty == (old(dirty) || touched)
    {
      if "x" in config {
        frame := frame.(x := config["x"].int32Value); MakeDirty();
        changedGeometry := true;
      }
      if "y" in config {
        frame := frame.(y := config["y"].int32Value); MakeDirty();
        changedGeometry := true;
      }
      if "dx" in config {
        frame := frame.(dx := config["dx"].int32Value); MakeDirty();
        changedGeometry := true;
      }
      if "dy" in config {
        frame := frame.(dy := config["dy"].int32Value); MakeDirty();
        changedGeometry := true;
      }
    }

    /** configureView, colours, alpha, wrap mode and mask. */
    method ApplyLookKeys(config: ViewConfig)
      modifies this`backgroundColor, this`foregroundColor, this`alpha, this`contentWrapMode,
               this`contentIsMask, this`dirty
      ensures backgroundColor ==
        (if "bgcolor" in config then WebColorToPixel(config["bgcolor"].stringValue) else old(backgroundColor))
      ensures foregroundColor ==
        (if "color" in config then WebColorToPixel(config["color"].stringValue) else old(foregroundColor))
      ensures alpha == (if "alpha" in config then config["alpha"].int32Value % 256 else old(alpha))
      ensures contentWrapMode ==
        (if "wrapmode" in config then ToUint8(config["wrapmode"].int32Value) else old(contentWrapMode))
      ensures contentIsMask == BoolOr(config, "mask", old(contentIsMask))
      ensures dirty == (old(dirty) || LookDirties(config, old(alpha)))
    {
      if "bgcolor" in config {
        backgroundColor := WebColorToPixel(config["bgcolor"].stringValue); MakeDirty();
      }
      if "color" in config {
        foregroundColor := WebColorToPixel(config["color"].stringValue); MakeDirty();
      }
      if "alpha" in config {
        SetAlpha(config["alpha"].int32Value);
      }
      if "wrapmode" in config {
        SetWrapMode(ToUint8(config["wrapmode"].int32Value));
      }
      if "mask" in config {
        contentIsMask := config["mask"].boolValue;
      }
    }

    /** configureView, keys "content_x" to "content_dy": each assigned directly, making the view dirty. */
    method ApplyContentRect(config: ViewConfig)
      modifies this`content, this`changedGeometry, this`dirty
      ensures content == PixelRect(
        IntOr(config, "content_x", old(content).x), IntOr(config, "content_y", old(content).y),
        IntOr(config, "content_dx", old(content).dx), IntOr(config, "content_dy", old(content).dy))
      ensures var touched := "content_x" in config || "content_y" in config
                             || "content_dx" in config || "content_dy" in config;
              changedGeometry == (old(changedGeometry) || touched) && dirty == (old(dirty) || touched)
    {
      if "content_x" in config {
        content := content.(x := config["content_x"].int32Value); MakeDirty();
        changedGeometry := true;
      }
      if "content_y" in config {
        content := content.(y := config["content_y"].int32Value); MakeDirty();
        changedGeometry := true;
      }
      if "content_dx" in config {
        content := content.(dx := config["content_dx"].int32Value); MakeDirty();
        changedGeometry := true;
      }
      if "content_dy" in config {
        content := content.(dy := config["content_dy"].int32Value); MakeDirty();
        changedGeometry := true;
      }
    }

    /** configureView, keys "orientation", "fullframe", "sizetocontent" and "timingpriority". */
    method ApplyContentMode(config: ViewConfig)
      requires geometryChanging > 0
      modifies this`content, this`contentOrientation, this`frame, this`sizeToContent, this`localTimingPriority,
               this`geometryChanging, this`changedGeometry, this`previousFrame, this`previousContent,
               this`dirty, this`parentNotices
      ensures geometryChanging == old(geometryChanging) && parentNotices == old(parentNotices)
      ensures previousFrame == old(previousFrame) && previousContent == old(previousContent)
      ensures frame == old(frame)
      ensures contentOrientation ==
        (if Flag(config, "fullframe") then Right
         else if "orientation" in config then ToUint8(config["orientation"].int32Value)
         else old(contentOrientation))
      ensures content == if Flag(config, "fullframe") then PixelRect(0, 0, frame.dx, frame.dy) else old(content)
      ensures changedGeometry == (old(changedGeometry) || Flag(config, "fullframe"))
      ensures sizeToContent == BoolOr(config, "sizetocontent", old(sizeToContent))
      ensures localTimingPriority == BoolOr(config, "timingpriority", old(localTimingPriority))
      ensures dirty == (old(dirty) || "orientation" in config || Flag(config, "fullframe"))
    {
      if "orientation" in config {
        SetOrientation(ToUint8(config["orientation"].int32Value));
      }
      if "fullframe" in config {
        if config["fullframe"].boolValue { SetFullFrameContent(); }
      }
      if "sizetocontent" in config {
        sizeToContent := config["sizetocontent"].boolValue;
      }
      if "timingpriority" in config {
        localTimingPriority := config["timingpriority"].boolValue;
      }
    }
  }

  /** Nested transactions coalesce: two frame changes inside an open transaction notify the parent once. */
  method NestedTransactionNotifiesOnce(v: View, f1: PixelRect, f2: PixelRect)
    requires v.geometryChanging == 0 && v.parentView != null
    modifies v
    ensures v.frame == f2 && v.geometryChanging == 0
    ensures v.parentNotices == old(v.parentNotices) + [GeometryNotice(old(v.parentView), old(v.frame), old(v.content))]
  {
    v.GeometryChange(true);
    v.SetFrame(f1);
    v.SetFrame(f2);
    v.GeometryChange(false);
  }

  /** A completed fade hands out its callback once; the next step finds nothing to do. */
  method FadeCompletesOnce(v: View, now1: MLMicroSeconds, now2: MLMicroSeconds)
    returns (first: Option<Callback>, second: Option<Callback>, next2: MLMicroSeconds)
    requires v.Valid() && v.Fading() && now1 - v.startTime >= v.fadeTime
    modifies v
    ensures first == old(v.fadeCompleteCB) && second == None && next2 == Infinite
    ensures v.alpha == old(v.targetAlpha) % 256 && !v.Fading()
  {
    var next1;
    next1, first := v.Step(0, now1);
    next2, second := v.Step(0, now2);
  }

  /** After stopFading, stepping never hands out the dropped callback. */
  method StopFadingDropsCallback(v: View, now: MLMicroSeconds) returns (called: Option<Callback>)
    requires v.Valid()
    modifies v
    ensures called == None && v.fadeCompleteCB == None && v.alpha == old(v.alpha)
  {
    v.StopFading();
    var next;
    next, called := v.Step(0, now);
  }
}
