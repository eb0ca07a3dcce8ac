/**
 * The anchor-to-coordinate resolver: from the image size, the measured text
 * box and one of nine anchors, the top-left pixel at which the text is drawn.
 * The margin is a fixed 10 px, centring truncates and nothing is clamped.
 *
 * `Resolve` is the release-build behaviour (every overflow wraps);
 * `ResolveChecked` is the debug-build behaviour, where an overflow panics.
 */
module Placement {
  import opened Wrappers
  import opened RustInt

  /** The inset from each image edge, in pixels. */
  const MARGIN: int := 10

  datatype Position =
    | TopLeft | TopCenter | TopRight
    | MiddleLeft | MiddleCenter | MiddleRight
    | BottomLeft | BottomCenter | BottomRight

  datatype Column = Left | Center | Right
  datatype Row = Top | Middle | Bottom

  /** Where an axis puts the text: at the near margin, centred, or at the far margin. */
  datatype Side = Near | Mid | Far

  /** The text origin, as the `(i32, i32)` pair the source returns. */
  datatype Point = Point(x: I32, y: I32)

  function ColumnOf(p: Position): Column
  {
    match p
    case TopLeft | MiddleLeft | BottomLeft => Left
    case TopCenter | MiddleCenter | BottomCenter => Center
    case TopRight | MiddleRight | BottomRight => Right
  }

  function RowOf(p: Position): Row
  {
    match p
    case TopLeft | TopCenter | TopRight => Top
    case MiddleLeft | MiddleCenter | MiddleRight => Middle
    case BottomLeft | BottomCenter | BottomRight => Bottom
  }

  function ColumnSide(c: Column): Side
  {
    match c
    case Left => Near
    case Center => Mid
    case Right => Far
  }

  function RowSide(r: Row): Side
  {
    match r
    case Top => Near
    case Middle => Mid
    case Bottom => Far
  }

  /** The anchor in row `r` and column `c`. */
  function At(r: Row, c: Column): (p: Position)
    ensures RowOf(p) == r && ColumnOf(p) == c
  {
    match (r, c)
    case (Top, Left) => TopLeft
    case (Top, Center) => TopCenter
    case (Top, Right) => TopRight
    case (Middle, Left) => MiddleLeft
    case (Middle, Center) => MiddleCenter
    case (Middle, Right) => MiddleRight
    case (Bottom, Left) => BottomLeft
    case (Bottom, Center) => BottomCenter
    case (Bottom, Right) => BottomRight
  }

  /** The nine anchors are exactly the three rows times the three columns. */
  lemma AnchorGrid(p: Position)
    ensures At(RowOf(p), ColumnOf(p)) == p
  {
  }

  // ---------------------------------------------------------------------
  // Release build: the two expression shapes of the source, with wrapping
  // ---------------------------------------------------------------------

  /** The value of one axis over unbounded integers, with truncating division. */
  function IdealOffset(extent: int, size: int, s: Side): int
  {
    match s
    case Near => MARGIN
    case Mid => TruncDiv2(extent - size)
    case Far => extent - size - MARGIN
  }

  /** The difference of the sizes, and that difference less the margin, both fit an `i32`. */
  predicate FitsI32Margin(extent: int, size: int)
  {
    -TWO_31 + MARGIN <= extent - size < TWO_31
  }

  /** Two integers that differ by 0 or 2^32 reduce to the same `i32`. */
  lemma WrapI32OfShifted(x: int, y: int)
    requires x - y == 0 || x - y == TWO_32 || x - y == -TWO_32
    ensures WrapI32(x) == WrapI32(y)
  {
  }

  /**
   * `(extent - size) as i32 / 2`, `extent - size` wrapping as a `u32`: the
   * true difference reduced to an `i32`, then halved toward zero.
   */
  function Centred(extent: U32, size: U32): (x: I32)
    ensures x == TruncDiv2(WrapI32(extent - size))
    ensures -TWO_31 <= extent - size < TWO_31 ==> x == TruncDiv2(extent - size)
  {
    var d := CastU32ToI32(WrappingSubU32(extent, size));
    TruncDiv2Bounds(d);
    TruncDiv2(d)
  }

  /**
   * `(extent - size) as i32 - 10`, both subtractions wrapping: the true
   * value `extent - size - 10` reduced to an `i32`.
   */
  function FarSide(extent: U32, size: U32): (x: I32)
    ensures x == WrapI32(extent - size - MARGIN)
    ensures FitsI32Margin(extent, size) ==> x == extent - size - MARGIN
  {
    var d := CastU32ToI32(WrappingSubU32(extent, size));
    assert d == WrapI32(extent - size);
    WrapI32OfShifted(d - MARGIN, extent - size - MARGIN);
    WrappingSubI32(d, MARGIN)
  }

  /** The horizontal coordinate for a column, on its own. */
  function ColumnX(width: U32, textWidth: U32, c: Column): (x: I32)
    ensures FitsI32Margin(width, textWidth) ==> x == IdealOffset(width, textWidth, ColumnSide(c))
  {
    match c
    case Left => MARGIN
    case Center => Centred(width, textWidth)
    case Right => FarSide(width, textWidth)
  }

  /** The vertical coordinate for a row, on its own. */
  function RowY(height: U32, textHeight: U32, r: Row): (y: I32)
    ensures FitsI32Margin(height, textHeight) ==> y == IdealOffset(height, textHeight, RowSide(r))
  {
    match r
    case Top => MARGIN
    case Middle => Centred(height, textHeight)
    case Bottom => FarSide(height, textHeight)
  }

  /**
   * The position computation, case by case as the source writes it. The
   * nine-way match is two independent three-way computations: x from the
   * column alone and y from the row alone.
   */
  function Resolve(width: U32, height: U32, textWidth: U32, textHeight: U32, p: Position): (r: Point)
    ensures r == Point(ColumnX(width, textWidth, ColumnOf(p)), RowY(height, textHeight, RowOf(p)))
  {
    match p
    case TopLeft => Point(MARGIN, MARGIN)
    case TopCenter => Point(Centred(width, textWidth), MARGIN)
    case TopRight => Point(FarSide(width, textWidth), MARGIN)
    case MiddleLeft => Point(MARGIN, Centred(height, textHeight))
    case MiddleCenter => Point(Centred(width, textWidth), Centred(height, textHeight))
    case MiddleRight => Point(FarSide(width, textWidth), Centred(height, textHeight))
    case BottomLeft => Point(MARGIN, FarSide(height, textHeight))
    case BottomCenter => Point(Centred(width, textWidth), FarSide(height, textHeight))
    case BottomRight => Point(FarSide(width, textWidth), FarSide(height, textHeight))
  }

  /** x depends on the width, the text width and the column; not on the row or the heights. */
  lemma XIgnoresRow(width: U32, height: U32, textWidth: U32, textHeight: U32, p: Position,
                    height': U32, textHeight': U32, q: Position)
    requires ColumnOf(p) == ColumnOf(q)
    ensures Resolve(width, height, textWidth, textHeight, p).x
         == Resolve(width, height', textWidth, textHeight', q).x
  {
  }

  /** y depends on the height, the text height and the row; not on the column or the widths. */
  lemma YIgnoresColumn(width: U32, height: U32, textWidth: U32, textHeight: U32, p: Position,
                       width': U32, textWidth': U32, q: Position)
    requires RowOf(p) == RowOf(q)
    ensures Resolve(width, height, textWidth, textHeight, p).y
         == Resolve(width', height, textWidth', textHeight, q).y
  {
  }

  /** The top-left anchor ignores every size; every left anchor sits at x = 10 and every top anchor at y = 10. */
  lemma NearEdgesAtMargin(width: U32, height: U32, textWidth: U32, textHeight: U32, p: Position)
    ensures p == TopLeft ==> Resolve(width, height, textWidth, textHeight, p) == Point(10, 10)
    ensures ColumnOf(p) == Left ==> Resolve(width, height, textWidth, textHeight, p).x == 10
    ensures RowOf(p) == Top ==> Resolve(width, height, textWidth, textHeight, p).y == 10
  {
  }

  /**
   * When the text fits the image and the differences fit an i32, the
   * resolver computes the textbook formulas (Dafny's `/` and Rust's agree
   * on the non-negative numerators here).
   */
  lemma ResolveFormulas(width: U32, height: U32, textWidth: U32, textHeight: U32, p: Position)
    requires textWidth <= width && width - textWidth < TWO_31
    requires textHeight <= height && height - textHeight < TWO_31
    ensures var r := Resolve(width, height, textWidth, textHeight, p);
      && r.x == (match ColumnOf(p)
                 case Left => 10
                 case Center => (width - textWidth) / 2
                 case Right => (width - textWidth) - 10)
      && r.y == (match RowOf(p)
                 case Top => 10
                 case Middle => (height - textHeight) / 2
                 case Bottom => (height - textHeight) - 10)
  {
    TruncDiv2VersusEuclidean(width - textWidth);
    TruncDiv2VersusEuclidean(height - textHeight);
  }

  /** A 100x50 image with a 30x10 text box at the bottom-right anchor gives (60, 30). */
  lemma WorkedExample()
    ensures Resolve(100, 50, 30, 10, BottomRight) == Point(60, 30)
  {
    assert FarSide(100, 30) == 60;
    assert FarSide(50, 10) == 30;
  }

  /** With at least a margin's room on each side, every anchor keeps the text box inside the margins. */
  lemma InsideMargins(width: U32, height: U32, textWidth: U32, textHeight: U32, p: Position)
    requires textWidth + 2 * MARGIN <= width && width - textWidth < TWO_31
    requires textHeight + 2 * MARGIN <= height && height - textHeight < TWO_31
    ensures var r := Resolve(width, height, textWidth, textHeight, p);
      && MARGIN <= r.x && r.x + textWidth <= width - MARGIN
      && MARGIN <= r.y && r.y + textHeight <= height - MARGIN
  {
    ResolveFormulas(width, height, textWidth, textHeight, p);
  }

  /** Under the same room, left, centre and right are ordered, and so are top, middle and bottom. */
  lemma AnchorsOrdered(width: U32, height: U32, textWidth: U32, textHeight: U32, r: Row, c: Column)
    requires textWidth + 2 * MARGIN <= width && width - textWidth < TWO_31
    requires textHeight + 2 * MARGIN <= height && height - textHeight < TWO_31
    ensures Resolve(width, height, textWidth, textHeight, At(r, Left)).x
         <= Resolve(width, height, textWidth, textHeight, At(r, Center)).x
         <= Resolve(width, height, textWidth, textHeight, At(r, Right)).x
    ensures Resolve(width, height, textWidth, textHeight, At(Top, c)).y
         <= Resolve(width, height, textWidth, textHeight, At(Middle, c)).y
         <= Resolve(width, height, textWidth, textHeight, At(Bottom, c)).y
  {
    ResolveFormulas(width, height, textWidth, textHeight, At(r, Left));
    ResolveFormulas(width, height, textWidth, textHeight, At(r, Center));
    ResolveFormulas(width, height, textWidth, textHeight, At(r, Right));
    ResolveFormulas(width, height, textWidth, textHeight, At(Top, c));
    ResolveFormulas(width, height, textWidth, textHeight, At(Middle, c));
    ResolveFormulas(width, height, textWidth, textHeight, At(Bottom, c));
  }

  /** Nothing is clamped: with less than a margin's room, right and bottom anchors go negative. */
  lemma NoClamping(width: U32, height: U32, textWidth: U32, textHeight: U32, p: Position)
    ensures textWidth <= width < textWidth + MARGIN && ColumnOf(p) == Right ==>
      var x := Resolve(width, height, textWidth, textHeight, p).x;
      x == (width - textWidth) - 10 && x < 0
    ensures textHeight <= height < textHeight + MARGIN && RowOf(p) == Bottom ==>
      var y := Resolve(width, height, textWidth, textHeight, p).y;
      y == (height - textHeight) - 10 && y < 0
  {
  }

  /**
   * Text wider than the image (release build): the u32 difference wraps, the
   * cast turns it back into the negative difference, and the centred x is
   * that difference halved toward zero, one more than Euclidean halving when
   * the difference is odd.
   */
  lemma WideTextCentred(width: U32, textWidth: U32)
    requires width < textWidth && textWidth - width <= TWO_31
    ensures Centred(width, textWidth) == -((textWidth - width) / 2)
    ensures (textWidth - width) % 2 == 1 ==> Centred(width, textWidth) == (width - textWidth) / 2 + 1
  {
    TruncDiv2VersusEuclidean(width - textWidth);
  }

  /** A 10 px image with 21 px text centres at x = -5, not at -6. */
  lemma WideTextExample()
    ensures Resolve(10, 10, 21, 0, TopCenter).x == -5
  {
    WideTextCentred(10, 21);
  }

  /**
   * An image at least 2^31 px wider than the text (release build). The cast
   * to i32 makes the difference d negative, d - 2^32. The centre x is then
   * half of that, at or left of the left edge, and 0 only for d = 2^32 - 1.
   * The right x is d - 10 - 2^32, left of the image, once d is at least
   * 2^31 + 10; below that the `- 10` wraps back and gives the intended d - 10.
   */
  lemma HugeImageWraps(width: U32, textWidth: U32)
    requires textWidth <= width && TWO_31 <= width - textWidth
    ensures Centred(width, textWidth) == TruncDiv2(width - textWidth - TWO_32)
    ensures Centred(width, textWidth) <= 0
    ensures Centred(width, textWidth) == 0 <==> width - textWidth == TWO_32 - 1
    ensures width - textWidth < TWO_31 + MARGIN ==> FarSide(width, textWidth) == width - textWidth - MARGIN
    ensures TWO_31 + MARGIN <= width - textWidth ==>
      FarSide(width, textWidth) == width - textWidth - MARGIN - TWO_32 < 0
  {
    TruncDiv2Bounds(width - textWidth - TWO_32);
  }

  // ---------------------------------------------------------------------
  // Debug build: u32 underflow and i32 overflow panic
  // ---------------------------------------------------------------------

  /**
   * When one axis of a debug build panics: never for the near side; for the
   * centre when the text is larger than the image; for the far side also when
   * the wrapped i32 difference is within 10 of the i32 minimum.
   */
  predicate AxisPanics(extent: int, size: int, s: Side)
  {
    match s
    case Near => false
    case Mid => extent < size
    case Far => extent < size || TWO_31 <= extent - size < TWO_31 + MARGIN
  }

  /** The centre in a debug build: it panics exactly on the `u32` underflow, and otherwise agrees with a release build. */
  function CheckedCentred(extent: U32, size: U32): (x: Option<I32>)
    ensures x.None? <==> AxisPanics(extent, size, Mid)
    ensures x.Some? ==> x.value == Centred(extent, size)
  {
    match CheckedSubU32(extent, size)
    case None => None
    case Some(d) =>
      var v := CastU32ToI32(d);
      TruncDiv2Bounds(v);
      Some(TruncDiv2(v))
  }

  /**
   * The right or bottom side in a debug build: it panics exactly on the
   * `u32` underflow or when `- 10` leaves the `i32` range, and otherwise
   * agrees with a release build.
   */
  function CheckedFarSide(extent: U32, size: U32): (x: Option<I32>)
    ensures x.None? <==> AxisPanics(extent, size, Far)
    ensures x.Some? ==> x.value == FarSide(extent, size)
  {
    match CheckedSubU32(extent, size)
    case None => None
    case Some(d) =>
      var v := CastU32ToI32(d);
      assert TWO_31 <= d ==> v == d - TWO_32;
      CheckedSubI32(v, MARGIN)
  }

  function Pair(x: Option<I32>, y: Option<I32>): Option<Point>
  {
    if x.Some? && y.Some? then Some(Point(x.value, y.value)) else None
  }

  /**
   * The position computation in a debug build; `None` stands for a panic. It
   * panics exactly when one of the two axes its anchor evaluates overflows,
   * and otherwise computes what a release build computes.
   */
  function ResolveChecked(width: U32, height: U32, textWidth: U32, textHeight: U32, p: Position): (r: Option<Point>)
    ensures r.None?
        <==> (|| AxisPanics(width, textWidth, ColumnSide(ColumnOf(p)))
              || AxisPanics(height, textHeight, RowSide(RowOf(p))))
    ensures r.Some? ==> r.value == Resolve(width, height, textWidth, textHeight, p)
  {
    match p
    case TopLeft => Some(Point(MARGIN, MARGIN))
    case TopCenter => Pair(CheckedCentred(width, textWidth), Some(MARGIN))
    case TopRight => Pair(CheckedFarSide(width, textWidth), Some(MARGIN))
    case MiddleLeft => Pair(Some(MARGIN), CheckedCentred(height, textHeight))
    case MiddleCenter => Pair(CheckedCentred(width, textWidth), CheckedCentred(height, textHeight))
    case MiddleRight => Pair(CheckedFarSide(width, textWidth), CheckedCentred(height, textHeight))
    case BottomLeft => Pair(Some(MARGIN), CheckedFarSide(height, textHeight))
    case BottomCenter => Pair(CheckedCentred(width, textWidth), CheckedFarSide(height, textHeight))
    case BottomRight => Pair(CheckedFarSide(width, textWidth), CheckedFarSide(height, textHeight))
  }

  /** A text box that fits, with differences below 2^31, never makes a debug build panic. */
  lemma DebugSafeWhenTextFits(width: U32, height: U32, textWidth: U32, textHeight: U32, p: Position)
    requires textWidth <= width && width - textWidth < TWO_31
    requires textHeight <= height && height - textHeight < TWO_31
    ensures ResolveChecked(width, height, textWidth, textHeight, p)
         == Some(Resolve(width, height, textWidth, textHeight, p))
  {
  }

  /** Text wider than the image panics a debug build at every centre and right anchor. */
  lemma DebugWideTextPanics(width: U32, height: U32, textWidth: U32, textHeight: U32, p: Position)
    requires width < textWidth && ColumnOf(p) != Left
    ensures ResolveChecked(width, height, textWidth, textHeight, p) == None
  {
  }
}
