/**
 * Placement and sizing arithmetic of the window-preview popup: the slide
 * offset, the clip band along the panel, the popup's position centred on
 * the launcher icon, the per-window thumbnail size and the popup extent.
 * Pixel quantities are exact rationals (`real`); `.Floor` models Math.floor.
 */
module Geometry {

  datatype Side = Top | Bottom | Left | Right

  datatype Size = Size(width: real, height: real)

  datatype Rect = Rect(x: real, y: real, width: real, height: real)

  datatype Point = Point(x: real, y: real)

  /** The thumbnail size in whole pixels. */
  datatype CloneSize = CloneSize(width: int, height: int)

  /** The launcher icon's screen bounds: the transformed allocation's origin and its content box size. */
  datatype IconBox = IconBox(x1: real, y1: real, contentWidth: real, contentHeight: real)

  /** One child of the popup as the extent computation sees it. */
  datatype Slot = Slot(size: Size, animatingOut: bool)

  const MaxTranslation: int := 40
  const TitleHeaderHeight: real := 38.0
  const RatioWidth: real := 160.0
  const RatioHeight: real := 90.0

  function Min(a: real, b: real): real { if a <= b then a else b }
  function Max(a: real, b: real): real { if a >= b then a else b }

  /** A panel on the left or right edge lays previews out in a column. */
  predicate IsLeftOrRight(side: Side) { side == Left || side == Right }

  /** Height of the title header: 38 scaled pixels when titles are shown, none otherwise. */
  function HeaderHeight(showTitle: bool, scale: real): real {
    if showTitle then TitleHeaderHeight * scale else 0.0
  }

  /**
   * Distance the hidden popup is translated off its resting place: the panel
   * thickness capped at 40 pixels, pointing towards the screen edge the panel
   * sits on (negative for top and left).
   */
  function TranslationOffset(panelSize: nat, side: Side): (r: int)
    ensures -MaxTranslation <= r <= MaxTranslation
    ensures (side == Top || side == Left) ==> r <= 0
    ensures (side == Bottom || side == Right) ==> r >= 0
    ensures panelSize <= MaxTranslation ==> r == panelSize || r == -(panelSize as int)
    ensures panelSize >= MaxTranslation ==> r == MaxTranslation || r == -MaxTranslation
  {
    var magnitude := if panelSize <= MaxTranslation then panelSize else MaxTranslation;
    magnitude * (if side == Top || side == Left then -1 else 1)
  }

  /**
   * Maximum thumbnail box: 160:90, with the configured size taken as the
   * width of a column layout or the height of a row layout, but never below
   * the 160 x 90 default.
   */
  function PreviewDimensions(size: real, leftOrRight: bool): (d: Size)
    ensures d.width * RatioHeight == d.height * RatioWidth
    ensures leftOrRight ==> d.width >= RatioWidth && d.width >= size && (d.width == RatioWidth || d.width == size)
    ensures !leftOrRight ==> d.height >= RatioHeight && d.height >= size && (d.height == RatioHeight || d.height == size)
    ensures d.width >= RatioWidth && d.height >= RatioHeight
  {
    if leftOrRight then
      var w := Max(RatioWidth, size);
      Size(w, w * RatioHeight / RatioWidth)
    else
      var h := Max(RatioHeight, size);
      Size(h * RatioWidth / RatioHeight, h)
  }

  /**
   * Fixed size of a preview's bin: the box plus padding on the cross axis of
   * the layout; along the layout axis the bin is left to its natural size,
   * which the toolkit spells -1.
   */
  function BinSize(dims: Size, padding: real, leftOrRight: bool): (b: Size)
    ensures leftOrRight ==> b.height == -1.0 && b.width == dims.width + 2.0 * padding
    ensures !leftOrRight ==> b.width == -1.0 && b.height == dims.height + 2.0 * padding
  {
    if leftOrRight then Size(dims.width + 2.0 * padding, -1.0)
    else Size(-1.0, dims.height + 2.0 * padding)
  }

  /**
   * Scale factor of a thumbnail: the smaller of the two box-to-window ratios,
   * never above 1. A zero extent divides to Infinity and so never wins the
   * minimum; both extents zero leave the ratio at 1.
   */
  function CloneRatio(srcW: real, srcH: real, maxW: real, maxH: real): (r: real)
    requires srcW >= 0.0 && srcH >= 0.0 && maxW > 0.0 && maxH > 0.0
    ensures 0.0 < r <= 1.0
    ensures r * srcW <= maxW && r * srcH <= maxH
    ensures r == 1.0 || (srcW > 0.0 && r * srcW == maxW) || (srcH > 0.0 && r * srcH == maxH)
  {
    var byWidth := if srcW == 0.0 then 1.0 else Min(maxW / srcW, 1.0);
    var byHeight := if srcH == 0.0 then 1.0 else Min(maxH / srcH, 1.0);
    Min(byWidth, byHeight)
  }

  /**
   * Displayed thumbnail size: the window scaled by CloneRatio, each side
   * floored. It fits the box and the window, and it touches the box on one
   * side unless the window is shown at its natural size.
   */
  function ResizeClone(srcW: real, srcH: real, maxW: real, maxH: real): (c: CloneSize)
    requires srcW >= 0.0 && srcH >= 0.0 && maxW > 0.0 && maxH > 0.0
    ensures 0 <= c.width && c.width as real <= srcW && c.width as real <= maxW
    ensures 0 <= c.height && c.height as real <= srcH && c.height as real <= maxH
    ensures (c.width == srcW.Floor && c.height == srcH.Floor) || c.width == maxW.Floor || c.height == maxH.Floor
    ensures var r := CloneRatio(srcW, srcH, maxW, maxH);
      c.width == (srcW * r).Floor && c.height == (srcH * r).Floor
  {
    var r := CloneRatio(srcW, srcH, maxW, maxH);
    ScaledFloorBounds(srcW, r, maxW);
    ScaledFloorBounds(srcH, r, maxH);
    CloneSize((srcW * r).Floor, (srcH * r).Floor)
  }

  /** Floor of a scaled extent stays below the extent, the bound and zero. */
  lemma ScaledFloorBounds(src: real, r: real, bound: real)
    requires src >= 0.0 && 0.0 < r <= 1.0 && r * src <= bound
    ensures 0 <= (src * r).Floor
    ensures (src * r).Floor as real <= src && (src * r).Floor as real <= bound
  {
    assert src * r <= src;
  }

  /** The worked example: an 800 x 600 window in a 160 x 90 box is limited by height. */
  lemma ResizeCloneExample()
    ensures ResizeClone(800.0, 600.0, 160.0, 90.0) == CloneSize(120, 90)
  {
    assert CloneRatio(800.0, 600.0, 160.0, 90.0) == 0.15;
  }

  /**
   * Size a preview claims: for each axis the larger of the bin size and the
   * clone plus padding.
   */
  function PreviewSize(bin: Size, clone: CloneSize, padding: real): (s: Size)
    ensures s.width >= bin.width && s.width >= clone.width as real + 2.0 * padding
    ensures s.width == bin.width || s.width == clone.width as real + 2.0 * padding
    ensures s.height >= bin.height && s.height >= clone.height as real + 2.0 * padding
    ensures s.height == bin.height || s.height == clone.height as real + 2.0 * padding
  {
    Size(Max(bin.width, clone.width as real + 2.0 * padding),
         Max(bin.height, clone.height as real + 2.0 * padding))
  }

  /**
   * For a thumbnail that fits the box, the preview's cross-axis size is the
   * fixed bin size (so all previews line up) and its size along the layout
   * axis is the clone plus padding.
   */
  lemma PreviewSizeAlongLayout(dims: Size, clone: CloneSize, padding: real, leftOrRight: bool)
    requires padding >= 0.0 && 0 <= clone.width && 0 <= clone.height
    requires clone.width as real <= dims.width && clone.height as real <= dims.height
    ensures var s := PreviewSize(BinSize(dims, padding, leftOrRight), clone, padding);
      if leftOrRight then
        s.width == dims.width + 2.0 * padding && s.height == clone.height as real + 2.0 * padding
      else
        s.height == dims.height + 2.0 * padding && s.width == clone.width as real + 2.0 * padding
  {
  }

  /**
   * Extent of the visible previews, in child order: along the layout axis the
   * sizes add up, across it the largest one counts; previews that are
   * animating out take no room.
   */
  function PreviewsSize(slots: seq<Slot>, leftOrRight: bool): (s: Size)
    ensures NonNegative(slots) ==> s.width >= 0.0 && s.height >= 0.0
    ensures forall i :: 0 <= i < |slots| && !slots[i].animatingOut ==>
      if leftOrRight then slots[i].size.width <= s.width else slots[i].size.height <= s.height
    decreases |slots|
  {
    if slots == [] then Size(0.0, 0.0)
    else
      var acc := PreviewsSize(slots[..|slots| - 1], leftOrRight);
      var last := slots[|slots| - 1];
      if last.animatingOut then acc
      else if leftOrRight then Size(Max(last.size.width, acc.width), acc.height + last.size.height)
      else Size(acc.width + last.size.width, Max(last.size.height, acc.height))
  }

  /** Sum of the layout-axis extents of the previews that are not animating out. */
  function LayoutSum(slots: seq<Slot>, leftOrRight: bool): real
    decreases |slots|
  {
    if slots == [] then 0.0
    else
      var last := slots[|slots| - 1];
      LayoutSum(slots[..|slots| - 1], leftOrRight)
        + (if last.animatingOut then 0.0 else if leftOrRight then last.size.height else last.size.width)
  }

  predicate NonNegative(slots: seq<Slot>) {
    forall i :: 0 <= i < |slots| ==> slots[i].size.width >= 0.0 && slots[i].size.height >= 0.0
  }

  /**
   * The popup extent covers every visible preview: its layout-axis extent is
   * the sum of theirs, its cross-axis extent the largest of theirs (zero when
   * none is visible).
   */
  lemma {:induction false} PreviewsSizeCovers(slots: seq<Slot>, leftOrRight: bool)
    requires NonNegative(slots)
    ensures var s := PreviewsSize(slots, leftOrRight);
      (if leftOrRight then s.height else s.width) == LayoutSum(slots, leftOrRight)
    ensures var s := PreviewsSize(slots, leftOrRight);
      forall i :: 0 <= i < |slots| && !slots[i].animatingOut ==>
        slots[i].size.width <= s.width && slots[i].size.height <= s.height
    ensures var s := PreviewsSize(slots, leftOrRight);
      s.width >= 0.0 && s.height >= 0.0 &&
      ((if leftOrRight then s.width else s.height) == 0.0 ||
       exists i :: 0 <= i < |slots| && !slots[i].animatingOut &&
         (if leftOrRight then s.width == slots[i].size.width else s.height == slots[i].size.height))
    decreases |slots|
  {
    if slots != [] {
      var init := slots[..|slots| - 1];
      assert NonNegative(init) by {
        forall i | 0 <= i < |init| ensures init[i] == slots[i] { }
      }
      PreviewsSizeCovers(init, leftOrRight);
      var acc := PreviewsSize(init, leftOrRight);
      var s := PreviewsSize(slots, leftOrRight);
      forall i | 0 <= i < |slots| && !slots[i].animatingOut
        ensures slots[i].size.width <= s.width && slots[i].size.height <= s.height
      {
        if i < |init| {
          assert slots[i] == init[i];
          LayoutSumBelow(init, i, leftOrRight);
        }
      }
      if (if leftOrRight then s.width else s.height) != 0.0 {
        var last := slots[|slots| - 1];
        if !last.animatingOut && (if leftOrRight then s.width == last.size.width else s.height == last.size.height) {
        } else {
          var i :| 0 <= i < |init| && !init[i].animatingOut &&
            (if leftOrRight then acc.width == init[i].size.width else acc.height == init[i].size.height);
          assert slots[i] == init[i];
        }
      }
    }
  }

  /** One visible preview's layout-axis extent is at most the sum. */
  lemma {:induction false} LayoutSumBelow(slots: seq<Slot>, i: nat, leftOrRight: bool)
    requires NonNegative(slots) && i < |slots| && !slots[i].animatingOut
    ensures (if leftOrRight then slots[i].size.height else slots[i].size.width) <= LayoutSum(slots, leftOrRight)
    decreases |slots|
  {
    var init := slots[..|slots| - 1];
    assert NonNegative(init) by {
      forall j | 0 <= j < |init| ensures init[j] == slots[j] { }
    }
    LayoutSumNonNegative(init, leftOrRight);
    if i < |init| {
      assert slots[i] == init[i];
      LayoutSumBelow(init, i, leftOrRight);
    }
  }

  lemma {:induction false} LayoutSumNonNegative(slots: seq<Slot>, leftOrRight: bool)
    requires NonNegative(slots)
    ensures LayoutSum(slots, leftOrRight) >= 0.0
    decreases |slots|
  {
    if slots != [] {
      var init := slots[..|slots| - 1];
      assert NonNegative(init) by {
        forall j | 0 <= j < |init| ensures init[j] == slots[j] { }
      }
      LayoutSumNonNegative(init, leftOrRight);
    }
  }

  /** Clamp of the centred offset into [0, bound] as the source writes it: max with 0, then min with the bound. */
  function ClampOffset(centred: real, bound: real): (r: real)
    requires bound >= 0.0
    ensures 0.0 <= r <= bound
    ensures 0.0 <= centred <= bound ==> r == centred
    ensures centred < 0.0 ==> r == 0.0
    ensures centred > bound ==> r == bound
  {
    Min(Max(centred, 0.0), bound)
  }

  /**
   * Position of the popup inside its clip band (relative to the monitor):
   * the popup is centred on the icon's content box along the panel, after its
   * extent has been capped at the monitor's, and clamped so it never leaves
   * the monitor; the other coordinate is 0.
   */
  function PopupPosition(leftOrRight: bool, monitor: Rect, icon: IconBox, previews: Size): (p: Point)
    ensures leftOrRight ==> p.x == 0.0
    ensures !leftOrRight ==> p.y == 0.0
    ensures leftOrRight ==>
      var h := Min(previews.height, monitor.height);
      var centred := icon.y1 - monitor.y + (icon.contentHeight - h) * 0.5;
      0.0 <= p.y <= monitor.height - h &&
      (0.0 <= centred <= monitor.height - h ==> p.y == centred) &&
      (centred < 0.0 ==> p.y == 0.0) && (centred > monitor.height - h ==> p.y == monitor.height - h)
    ensures !leftOrRight ==>
      var w := Min(previews.width, monitor.width);
      var centred := icon.x1 - monitor.x + (icon.contentWidth - w) * 0.5;
      0.0 <= p.x <= monitor.width - w &&
      (0.0 <= centred <= monitor.width - w ==> p.x == centred) &&
      (centred < 0.0 ==> p.x == 0.0) && (centred > monitor.width - w ==> p.x == monitor.width - w)
  {
    var w := Min(previews.width, monitor.width);
    var h := Min(previews.height, monitor.height);
    if leftOrRight then
      Point(0.0, ClampOffset(icon.y1 - monitor.y + (icon.contentHeight - h) * 0.5, monitor.height - h))
    else
      Point(ClampOffset(icon.x1 - monitor.x + (icon.contentWidth - w) * 0.5, monitor.width - w), 0.0)
  }

  /**
   * The popup's clip band: a strip as long as the monitor and as thick as one
   * preview slot (plus the title header for a row), placed against the inner
   * edge of the panel.
   */
  function ClipRect(side: Side, monitor: Rect, panelSize: real, previewSize: real, padding: real,
                    scale: real, headerHeight: real): (r: Rect)
    ensures var panelPx := panelSize * scale; var slotPx := (previewSize + padding * 2.0) * scale;
      match side
      case Left => r.x == monitor.x + panelPx && r.y == monitor.y && r.width == slotPx && r.height == monitor.height
      case Right => r.x + r.width == monitor.x + monitor.width - panelPx && r.y == monitor.y
                    && r.width == slotPx && r.height == monitor.height
      case Top => r.y == monitor.y + panelPx && r.x == monitor.x
                  && r.width == monitor.width && r.height == slotPx + headerHeight
      case Bottom => r.y + r.height == monitor.y + monitor.height - panelPx && r.x == monitor.x
                     && r.width == monitor.width && r.height == slotPx + headerHeight
  {
    var panelPx := panelSize * scale;
    var slotPx := (previewSize + padding * 2.0) * scale;
    match side
    case Left => Rect(monitor.x + panelPx, monitor.y, slotPx, monitor.height)
    case Right => Rect(monitor.x + monitor.width - (panelPx + slotPx), monitor.y, slotPx, monitor.height)
    case Top => Rect(monitor.x, monitor.y + panelPx, monitor.width, slotPx + headerHeight)
    case Bottom => Rect(monitor.x, monitor.y + monitor.height - (panelPx + slotPx + headerHeight),
                        monitor.width, slotPx + headerHeight)
  }

  predicate Inside(inner: Rect, outer: Rect) {
    outer.x <= inner.x && inner.x + inner.width <= outer.x + outer.width &&
    outer.y <= inner.y && inner.y + inner.height <= outer.y + outer.height
  }

  /** When the panel and one preview slot fit on the monitor, the clip band lies on the monitor. */
  lemma ClipRectOnMonitor(side: Side, monitor: Rect, panelSize: real, previewSize: real, padding: real,
                          scale: real, headerHeight: real)
    requires panelSize >= 0.0 && previewSize >= 0.0 && padding >= 0.0 && scale > 0.0 && headerHeight >= 0.0
    requires IsLeftOrRight(side) ==> panelSize * scale + (previewSize + padding * 2.0) * scale <= monitor.width
    requires !IsLeftOrRight(side) ==>
      panelSize * scale + (previewSize + padding * 2.0) * scale + headerHeight <= monitor.height
    requires monitor.width >= 0.0 && monitor.height >= 0.0
    ensures Inside(ClipRect(side, monitor, panelSize, previewSize, padding, scale, headerHeight), monitor)
  {
    var r := ClipRect(side, monitor, panelSize, previewSize, padding, scale, headerHeight);
    assert panelSize * scale >= 0.0 && (previewSize + padding * 2.0) * scale >= 0.0;
  }
}
