/**
 * Values of the grid layout (StdGridLayoutImpl2 over Impl::Grid): the
 * cells of the rows x columns item array, and the pure arithmetic the
 * layout does on them: the alignment code sent to the browser, the
 * minimum-size totals with their unsigned spacing term, and the
 * padding that splits the spacing between neighbouring cells.
 */
module Grid {
  import opened Wrappers

  /** Whether a layout item wraps no widget, a shown widget or a hidden one. */
  datatype WidgetState = NoWidget | Shown | Hidden

  /** A layout item, identified by `id`, with the minimum size its implementation reports. */
  datatype LayoutItem = LayoutItem(id: nat, widget: WidgetState, minWidth: int, minHeight: int)

  /** Impl::Grid::Item: one cell of the grid. */
  datatype Cell = Cell(item: Option<LayoutItem>, rowSpan: int, colSpan: int, alignment: bv32, update: bool)

  /** An item that is there to be laid out: it wraps no widget or a widget that is not hidden. */
  predicate Visible(c: Cell) {
    c.item.Some? && c.item.value.widget != Hidden
  }

  // AlignmentFlag values (Wt/WGlobal)
  const AlignLeft: bv32 := 0x1
  const AlignRight: bv32 := 0x2
  const AlignCenter: bv32 := 0x4
  const AlignJustify: bv32 := 0x8
  const AlignTop: bv32 := 0x80
  const AlignMiddle: bv32 := 0x200
  const AlignBottom: bv32 := 0x400
  const AlignHorizontalMask: bv32 := 0xF
  const AlignVerticalMask: bv32 := 0xFF0

  /** The horizontal part of the alignment code: Left, Right and Center have one, anything else none. */
  function HorizontalCode(h: bv32): bv32 {
    if h == AlignLeft then 0x1
    else if h == AlignRight then 0x2
    else if h == AlignCenter then 0x4
    else 0
  }

  /** The vertical part: Top, Bottom and Middle have one, anything else none. */
  function VerticalCode(v: bv32): bv32 {
    if v == AlignTop then 0x10
    else if v == AlignBottom then 0x20
    else if v == AlignMiddle then 0x40
    else 0
  }

  /**
   * The `align` value streamConfig sends for a cell's alignment, or
   * None when the cell's alignment is empty and no value is sent.
   */
  function AlignCode(alignment: bv32): (r: Option<bv32>)
    ensures r.None? <==> alignment == 0
    ensures r.Some? ==> r.value & 0xF in {0x0, 0x1, 0x2, 0x4}
    ensures r.Some? ==> r.value & 0xF0 in {0x00, 0x10, 0x20, 0x40}
    ensures r.Some? ==> r.value & !0xFF == 0
  {
    if alignment == 0 then None
    else Some(HorizontalCode(alignment & AlignHorizontalMask) | VerticalCode(alignment & AlignVerticalMask))
  }

  lemma HorizontalCodeBits(h: bv32)
    ensures HorizontalCode(h) & 0xF == HorizontalCode(h) && HorizontalCode(h) & 0xF0 == 0
  {
  }

  lemma VerticalCodeBits(v: bv32)
    ensures VerticalCode(v) & 0xF0 == VerticalCode(v) && VerticalCode(v) & 0xF == 0
  {
  }

  /**
   * The code names the horizontal and the vertical alignment
   * independently: its low nibble says left/right/center exactly when
   * the horizontal bits of the alignment are that flag alone (Justify
   * and combinations give nothing), and its next nibble says
   * top/bottom/middle exactly when the vertical bits are that flag alone.
   */
  lemma AlignCodeParts(alignment: bv32)
    requires alignment != 0
    ensures AlignCode(alignment).value & 0xF == HorizontalCode(alignment & AlignHorizontalMask)
    ensures AlignCode(alignment).value & 0xF0 == VerticalCode(alignment & AlignVerticalMask)
    ensures AlignCode(alignment).value & 0xF == 0x1 <==> alignment & AlignHorizontalMask == AlignLeft
    ensures AlignCode(alignment).value & 0xF == 0x2 <==> alignment & AlignHorizontalMask == AlignRight
    ensures AlignCode(alignment).value & 0xF == 0x4 <==> alignment & AlignHorizontalMask == AlignCenter
    ensures AlignCode(alignment).value & 0xF0 == 0x10 <==> alignment & AlignVerticalMask == AlignTop
    ensures AlignCode(alignment).value & 0xF0 == 0x20 <==> alignment & AlignVerticalMask == AlignBottom
    ensures AlignCode(alignment).value & 0xF0 == 0x40 <==> alignment & AlignVerticalMask == AlignMiddle
  {
    HorizontalCodeBits(alignment & AlignHorizontalMask);
    VerticalCodeBits(alignment & AlignVerticalMask);
  }

  /** C++ integer division by a positive divisor: the quotient truncated toward zero. */
  function CDiv(a: int, b: int): (q: int)
    requires b > 0
    ensures a >= 0 ==> 0 <= a - b * q < b
    ensures a < 0 ==> -b < a - b * q <= 0
  {
    if a >= 0 then a / b else -((-a) / b)
  }

  const TwoTo32: int := 0x1_0000_0000

  /** The int a 32-bit pattern stands for, as the conversion of an unsigned value back to int gives it. */
  function ToInt32(u: int): (r: int)
    requires 0 <= u < TwoTo32
    ensures -0x8000_0000 <= r <= 0x7fff_ffff
    ensures (r - u) % TwoTo32 == 0
  {
    if u > 0x7fff_ffff then u - TwoTo32 else u
  }

  /**
   * minimumWidth and minimumHeight: `total + (count - 1) * spacing`
   * where `count` is unsigned, so the product and the sum are taken
   * modulo 2^32 and the result converted back to int.
   */
  function MinimumExtent(total: int, count: nat, spacing: int): (r: int)
    ensures -0x8000_0000 <= r <= 0x7fff_ffff
    ensures (r - (total + (count - 1) * spacing)) % TwoTo32 == 0
  {
    ToInt32((total + (count - 1) * spacing) % TwoTo32)
  }

  /** When the exact value fits an int, the unsigned arithmetic gives it. */
  lemma MinimumExtentExact(total: int, count: nat, spacing: int)
    requires -0x8000_0000 <= total + (count - 1) * spacing <= 0x7fff_ffff
    ensures MinimumExtent(total, count, spacing) == total + (count - 1) * spacing
  {
    var x := total + (count - 1) * spacing;
    if x < 0 {
      assert (x + TwoTo32) % TwoTo32 == x % TwoTo32;
    }
  }

  /** With no rows (no columns), the unsigned term wraps and the minimum is minus one spacing. */
  lemma EmptyExtent(spacing: int)
    requires -0x8000_0000 < spacing <= 0x7fff_ffff
    ensures MinimumExtent(0, 0, spacing) == -spacing
  {
    MinimumExtentExact(0, 0, spacing);
  }

  /** Top, right, bottom and left, in the order of the layout's margin and padding arrays. */
  datatype Sides = Sides(top: int, right: int, bottom: int, left: int)

  /**
   * The padding of a visible cell. `prevRow` is the last earlier row
   * with a visible item (-1 if none), `nextRow` the next one (rowCount
   * if none), and `prevCol`, `nextCol` the same for columns. Towards a
   * neighbour a cell takes its share of the spacing (the upper or left
   * one the smaller half), at an edge the layout's margin; right-to-left
   * layout swaps left and right.
   */
  function Padding(prevRow: int, nextRow: int, rowCount: int, prevCol: int, nextCol: int, colCount: int,
                   verticalSpacing: int, horizontalSpacing: int, margin: Sides, rightToLeft: bool): (p: Sides)
    ensures prevRow == -1 ==> p.top == margin.top
    ensures nextRow == rowCount ==> p.bottom == margin.bottom
    ensures prevCol == -1 ==> (if rightToLeft then p.right else p.left) == margin.left
    ensures nextCol == colCount ==> (if rightToLeft then p.left else p.right) == margin.right
  {
    var top := if prevRow == -1 then margin.top else CDiv(verticalSpacing + 1, 2);
    var bottom := if nextRow == rowCount then margin.bottom else CDiv(verticalSpacing, 2);
    var left := if prevCol == -1 then margin.left else CDiv(horizontalSpacing + 1, 2);
    var right := if nextCol == colCount then margin.right else CDiv(horizontalSpacing, 2);
    if rightToLeft then Sides(top, left, bottom, right) else Sides(top, right, bottom, left)
  }

  /** The two halves of a non-negative spacing add up to it and differ by at most one. */
  lemma SpacingSplit(s: int)
    requires s >= 0
    ensures CDiv(s + 1, 2) + CDiv(s, 2) == s
    ensures 0 <= CDiv(s + 1, 2) - CDiv(s, 2) <= 1
  {
  }

  /** A negative spacing, which the source also accepts, splits into halves that add up to one more. */
  lemma SpacingSplitNegative(s: int)
    requires s < 0
    ensures CDiv(s + 1, 2) + CDiv(s, 2) == s + 1
  {
  }

  /**
   * Two vertically neighbouring visible cells: the bottom padding of the
   * upper one and the top padding of the lower one add up to the
   * vertical spacing.
   */
  lemma VerticalNeighboursShareSpacing(
    upper: (int, int, int, int), lower: (int, int, int, int), rowCount: int, colCount: int,
    vs: int, hs: int, margin: Sides, rtl: bool)
    requires vs >= 0
    requires upper.1 != rowCount && lower.0 != -1
    ensures Padding(upper.0, upper.1, rowCount, upper.2, upper.3, colCount, vs, hs, margin, rtl).bottom +
            Padding(lower.0, lower.1, rowCount, lower.2, lower.3, colCount, vs, hs, margin, rtl).top == vs
  {
    SpacingSplit(vs);
  }

  /**
   * Two horizontally neighbouring visible cells: the padding of the
   * first towards the second and that of the second towards the first
   * add up to the horizontal spacing, on the right and the left in
   * left-to-right layout and the other way round in right-to-left layout.
   */
  lemma HorizontalNeighboursShareSpacing(
    first: (int, int, int, int), second: (int, int, int, int), rowCount: int, colCount: int,
    vs: int, hs: int, margin: Sides, rtl: bool)
    requires hs >= 0
    requires first.3 != colCount && second.2 != -1
    ensures var a := Padding(first.0, first.1, rowCount, first.2, first.3, colCount, vs, hs, margin, rtl);
            var b := Padding(second.0, second.1, rowCount, second.2, second.3, colCount, vs, hs, margin, rtl);
            (if rtl then a.left + b.right else a.right + b.left) == hs
  {
    SpacingSplit(hs);
  }

  /** Right-to-left layout mirrors the left and right paddings and nothing else. */
  lemma PaddingMirror(prevRow: int, nextRow: int, rowCount: int, prevCol: int, nextCol: int, colCount: int,
                      vs: int, hs: int, margin: Sides)
    ensures var l := Padding(prevRow, nextRow, rowCount, prevCol, nextCol, colCount, vs, hs, margin, false);
            Padding(prevRow, nextRow, rowCount, prevCol, nextCol, colCount, vs, hs, margin, true)
              == Sides(l.top, l.left, l.bottom, l.right)
  {
  }
}
