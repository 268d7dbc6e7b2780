/**
 * StdGridLayoutImpl2's bookkeeping on the grid's rows x columns item
 * array: marking resized items for adjustment and collecting them
 * again, finding the next row and column with a visible item, the
 * minimum sizes, and the cells covered by another cell's span.
 */
module GridLayout {
  import opened Wrappers
  import opened Grid

  /** The cell of `item` that itemResized may flag: it holds the item and is not flagged yet. */
  predicate Waiting(c: Cell, item: LayoutItem) {
    c.item == Some(item) && !c.update
  }

  /** (r0, c0) comes before (r, c) in row-major order. */
  predicate Before(r0: int, c0: int, r: int, c: int) {
    r0 < r || (r0 == r && c0 < c)
  }

  /** A list of cells in strictly increasing row-major order. */
  predicate RowMajor(cells: seq<(int, int)>) {
    forall i, j :: 0 <= i < j < |cells| ==> Before(cells[i].0, cells[i].1, cells[j].0, cells[j].1)
  }

  /** The cells of earlier rows followed by cells of row `row`, both in order, are in order. */
  lemma RowMajorRows(a: seq<(int, int)>, b: seq<(int, int)>, row: int)
    requires RowMajor(a) && RowMajor(b)
    requires forall i :: 0 <= i < |a| ==> a[i].0 < row
    requires forall i :: 0 <= i < |b| ==> b[i].0 == row
    ensures RowMajor(a + b)
    ensures forall i :: 0 <= i < |a + b| ==> (a + b)[i].0 <= row
  {
    var s := a + b;
    forall i, j | 0 <= i < j < |s|
      ensures Before(s[i].0, s[i].1, s[j].0, s[j].1)
    {
      if j < |a| {
        assert s[i] == a[i] && s[j] == a[j];
      } else if i >= |a| {
        assert s[i] == b[i - |a|] && s[j] == b[j - |a|];
      }
    }
  }

  function Max(a: int, b: int): int {
    if a >= b then a else b
  }

  class Layout {
    /** grid_.items_, indexed [row, column]. */
    const items: array2<Cell>
    var needAdjust: bool
    var horizontalSpacing: int
    var verticalSpacing: int

    constructor(items: array2<Cell>, horizontalSpacing: int, verticalSpacing: int)
      ensures this.items == items && !needAdjust
      ensures this.horizontalSpacing == horizontalSpacing && this.verticalSpacing == verticalSpacing
    {
      this.items := items;
      needAdjust := false;
      this.horizontalSpacing := horizontalSpacing;
      this.verticalSpacing := verticalSpacing;
    }

    function Rows(): nat { items.Length0 }
    function Cols(): nat { items.Length1 }

    predicate InRange(r: int, c: int) {
      0 <= r < items.Length0 && 0 <= c < items.Length1
    }

    /** Every cell spans at least one row and column, and its span stays inside the grid. */
    predicate Valid()
      reads items
    {
      forall r, c :: 0 <= r < items.Length0 && 0 <= c < items.Length1 ==>
        1 <= items[r, c].rowSpan && r + items[r, c].rowSpan <= items.Length0 &&
        1 <= items[r, c].colSpan && c + items[r, c].colSpan <= items.Length1
    }

    /** hasItem: the cell holds an item that wraps no widget or a widget that is not hidden. */
    predicate HasItem(r: int, c: int)
      requires InRange(r, c)
      reads items
    {
      Visible(items[r, c])
    }

    /**
     * itemResized: flag the first cell, in row-major order, that holds
     * `item` and is not flagged yet, and note that an adjustment is
     * needed. Answers whether there was such a cell; nothing else changes.
     */
    method ItemResized(item: LayoutItem) returns (found: bool)
      modifies this, items
      ensures found <==> exists r, c :: InRange(r, c) && Waiting(old(items[r, c]), item)
      ensures found ==> exists r, c ::
        InRange(r, c) && Waiting(old(items[r, c]), item) &&
        (forall r', c' :: InRange(r', c') && Before(r', c', r, c) ==> !Waiting(old(items[r', c']), item)) &&
        items[r, c] == old(items[r, c]).(update := true) &&
        (forall r', c' :: InRange(r', c') && (r', c') != (r, c) ==> items[r', c'] == old(items[r', c']))
      ensures !found ==> forall r, c :: InRange(r, c) ==> items[r, c] == old(items[r, c])
      ensures needAdjust == (old(needAdjust) || found)
      ensures horizontalSpacing == old(horizontalSpacing) && verticalSpacing == old(verticalSpacing)
    {
      var row := 0;
      while row < items.Length0
        invariant 0 <= row <= items.Length0
        invariant forall r, c :: InRange(r, c) && r < row ==> !Waiting(items[r, c], item)
        invariant forall r, c :: InRange(r, c) ==> items[r, c] == old(items[r, c])
        invariant needAdjust == old(needAdjust)
        invariant horizontalSpacing == old(horizontalSpacing) && verticalSpacing == old(verticalSpacing)
      {
        var col := 0;
        while col < items.Length1
          invariant 0 <= col <= items.Length1
          invariant forall r, c :: InRange(r, c) && Before(r, c, row, col) ==> !Waiting(items[r, c], item)
          invariant forall r, c :: InRange(r, c) ==> items[r, c] == old(items[r, c])
          invariant needAdjust == old(needAdjust)
          invariant horizontalSpacing == old(horizontalSpacing) && verticalSpacing == old(verticalSpacing)
        {
          if items[row, col].item == Some(item) && !items[row, col].update {
            items[row, col] := items[row, col].(update := true);
            needAdjust := true;
            return true;
          }
          col := col + 1;
        }
        row := row + 1;
      }
      return false;
    }

    /**
     * The adjustment part of updateDom: when an adjustment is needed,
     * clear it and every cell's flag, and answer the cells that were
     * flagged, in row-major order (the list sent to the browser's
     * adjust call). Otherwise nothing happens.
     */
    method Adjust() returns (flagged: seq<(int, int)>)
      modifies this, items
      ensures !needAdjust
      ensures !old(needAdjust) ==> flagged == [] && forall r, c :: InRange(r, c) ==> items[r, c] == old(items[r, c])
      ensures old(needAdjust) ==> forall r, c :: InRange(r, c) ==> items[r, c] == old(items[r, c]).(update := false)
      ensures old(needAdjust) ==> forall p :: p in flagged <==> InRange(p.0, p.1) && old(items[p.0, p.1]).update
      ensures RowMajor(flagged)
      ensures horizontalSpacing == old(horizontalSpacing) && verticalSpacing == old(verticalSpacing)
    {
      flagged := [];
      if !needAdjust {
        return;
      }
      needAdjust := false;
      var row := 0;
      while row < items.Length0
        invariant 0 <= row <= items.Length0
        invariant forall r, c :: InRange(r, c) && r < row ==> items[r, c] == old(items[r, c]).(update := false)
        invariant forall r, c :: InRange(r, c) && r >= row ==> items[r, c] == old(items[r, c])
        invariant forall p :: p in flagged <==> InRange(p.0, p.1) && p.0 < row && old(items[p.0, p.1]).update
        invariant RowMajor(flagged)
        invariant forall i :: 0 <= i < |flagged| ==> flagged[i].0 < row
        invariant !needAdjust
        invariant horizontalSpacing == old(horizontalSpacing) && verticalSpacing == old(verticalSpacing)
      {
        var rowFlagged := AdjustRow(row);
        RowMajorRows(flagged, rowFlagged, row);
        flagged := flagged + rowFlagged;
        row := row + 1;
      }
    }

    /** Clear the flags of one row, answering the flagged cells of that row from left to right. */
    method AdjustRow(row: int) returns (rowFlagged: seq<(int, int)>)
      requires 0 <= row < Rows()
      modifies items
      ensures forall r, c :: InRange(r, c) && r != row ==> items[r, c] == old(items[r, c])
      ensures forall c :: 0 <= c < Cols() ==> items[row, c] == old(items[row, c]).(update := false)
      ensures forall p :: p in rowFlagged <==> p.0 == row && 0 <= p.1 < Cols() && old(items[row, p.1]).update
      ensures RowMajor(rowFlagged)
      ensures forall i :: 0 <= i < |rowFlagged| ==> rowFlagged[i].0 == row
    {
      rowFlagged := [];
      var col := 0;
      while col < items.Length1
        invariant 0 <= col <= items.Length1
        invariant forall r, c :: InRange(r, c) && (r != row || c >= col) ==> items[r, c] == old(items[r, c])
        invariant forall c :: 0 <= c < col ==> items[row, c] == old(items[row, c]).(update := false)
        invariant forall p :: p in rowFlagged <==> p.0 == row && 0 <= p.1 < col && old(items[row, p.1]).update
        invariant RowMajor(rowFlagged)
        invariant forall i :: 0 <= i < |rowFlagged| ==> rowFlagged[i].0 == row && rowFlagged[i].1 < col
      {
        if items[row, col].update {
          items[row, col] := items[row, col].(update := false);
          rowFlagged := rowFlagged + [(row, col)];
        }
        col := col + 1;
      }
    }

    /**
     * Whether the scan of row `r` from column `c`, stepping by each
     * visited cell's column span, meets a visible item.
     */
    predicate RowScanHit(r: int, c: int)
      requires Valid() && 0 <= r < Rows() && 0 <= c <= Cols()
      reads items
      decreases Cols() - c
    {
      c < Cols() && (HasItem(r, c) || RowScanHit(r, c + items[r, c].colSpan))
    }

    /** Row `r` has a visible item as nextRowWithItem sees it: at a span-stepped column. */
    predicate RowHasItem(r: int)
      requires Valid() && 0 <= r < Rows()
      reads items
    {
      RowScanHit(r, 0)
    }

    /** Some row holds a visible item in column `c`. */
    predicate ColumnHasItem(c: int)
      requires 0 <= c < Cols()
      reads items
    {
      exists i :: 0 <= i < Rows() && HasItem(i, c)
    }

    /** The scan only reports items that are there. */
    lemma {:induction false} RowScanSound(r: int, c: int)
      requires Valid() && 0 <= r < Rows() && 0 <= c <= Cols()
      requires RowScanHit(r, c)
      ensures exists k :: c <= k < Cols() && HasItem(r, k)
      decreases Cols() - c
    {
      if !HasItem(r, c) {
        RowScanSound(r, c + items[r, c].colSpan);
      }
    }

    /**
     * nextRowWithItem: the first row from the one after cell (row, c)'s
     * span on whose span-stepped scan a visible item lies, or the row
     * count when there is none.
     */
    method NextRowWithItem(row: int, c: int) returns (r: int)
      requires Valid() && InRange(row, c)
      ensures row + items[row, c].rowSpan <= r <= Rows()
      ensures r < Rows() ==> RowHasItem(r)
      ensures forall k :: row + items[row, c].rowSpan <= k < r ==> !RowHasItem(k)
    {
      r := row + items[row, c].rowSpan;
      while r < items.Length0
        invariant row + items[row, c].rowSpan <= r <= Rows()
        invariant forall k :: row + items[row, c].rowSpan <= k < r ==> !RowHasItem(k)
      {
        var col := 0;
        while col < items.Length1
          invariant 0 <= col <= items.Length1
          invariant RowHasItem(r) == RowScanHit(r, col)
          decreases items.Length1 - col
        {
          if Visible(items[r, col]) {
            return r;
          }
          col := col + items[r, col].colSpan;
        }
        r := r + 1;
      }
      return items.Length0;
    }

    /** Stepping along row `row` by each cell's column span, from column `from` one reaches `to`. */
    predicate StepsTo(row: int, from: int, to: int)
      requires Valid() && InRange(row, from)
      reads items
      ensures StepsTo(row, from, to) ==> from < to <= Cols()
      decreases Cols() - from
    {
      var next := from + items[row, from].colSpan;
      to == next || (next < Cols() && StepsTo(row, next, to))
    }

    /**
     * Where nextColumnWithItem ends: stepping along row `row` by each
     * cell's column span, the first column some row has a visible item
     * in, or the column count when the step leaves the grid.
     */
    function NextColumnFrom(row: int, col: int): (r: int)
      requires Valid() && InRange(row, col)
      reads items
      ensures col < r <= Cols()
      ensures StepsTo(row, col, r)
      ensures r < Cols() ==> ColumnHasItem(r)
      ensures forall k :: col < k < r && StepsTo(row, col, k) ==> !ColumnHasItem(k)
      decreases Cols() - col
    {
      var next := col + items[row, col].colSpan;
      if next >= Cols() then Cols()
      else if ColumnHasItem(next) then next
      else NextColumnFrom(row, next)
    }

    /** nextColumnWithItem. */
    method NextColumnWithItem(row: int, col: int) returns (r: int)
      requires Valid() && InRange(row, col)
      ensures r == NextColumnFrom(row, col)
    {
      var c := col;
      while true
        invariant InRange(row, c)
        invariant NextColumnFrom(row, c) == NextColumnFrom(row, col)
        decreases items.Length1 - c
      {
        ghost var prev := c;
        c := c + items[row, c].colSpan;
        if c < items.Length1 {
          var i := 0;
          while i < items.Length0
            invariant 0 <= i <= items.Length0
            invariant forall k :: 0 <= k < i ==> !HasItem(k, c)
          {
            if Visible(items[i, c]) {
              assert HasItem(i, c);
              assert NextColumnFrom(row, prev) == c;
              return c;
            }
            i := i + 1;
          }
          assert !ColumnHasItem(c);
        } else {
          return items.Length1;
        }
      }
    }

    /** The largest item minimum width among rows below `n` of column `col`, and 0 when that is larger. */
    function ColumnMinWidth(col: int, n: int): (w: int)
      requires 0 <= col < Cols() && 0 <= n <= Rows()
      reads items
      ensures w >= 0
      ensures forall i :: 0 <= i < n && items[i, col].item.Some? ==> items[i, col].item.value.minWidth <= w
      ensures w == 0 || exists i :: 0 <= i < n && items[i, col].item.Some? && items[i, col].item.value.minWidth == w
      decreases n
    {
      if n == 0 then 0
      else
        var it := items[n - 1, col].item;
        var w := ColumnMinWidth(col, n - 1);
        if it.Some? then Max(w, it.value.minWidth) else w
    }

    /** The largest item minimum height among columns below `n` of row `row`, and 0 when that is larger. */
    function RowMinHeight(row: int, n: int): (h: int)
      requires 0 <= row < Rows() && 0 <= n <= Cols()
      reads items
      ensures h >= 0
      ensures forall j :: 0 <= j < n && items[row, j].item.Some? ==> items[row, j].item.value.minHeight <= h
      ensures h == 0 || exists j :: 0 <= j < n && items[row, j].item.Some? && items[row, j].item.value.minHeight == h
      decreases n
    {
      if n == 0 then 0
      else
        var it := items[row, n - 1].item;
        var h := RowMinHeight(row, n - 1);
        if it.Some? then Max(h, it.value.minHeight) else h
    }

    /** minimumWidthForColumn: hidden items count as well as shown ones. */
    method MinimumWidthForColumn(col: int) returns (w: int)
      requires 0 <= col < Cols()
      ensures w == ColumnMinWidth(col, Rows())
    {
      w := 0;
      var i := 0;
      while i < items.Length0
        invariant 0 <= i <= items.Length0
        invariant w == ColumnMinWidth(col, i)
      {
        var it := items[i, col].item;
        if it.Some? {
          w := Max(w, it.value.minWidth);
        }
        i := i + 1;
      }
    }

    /** minimumHeightForRow. */
    method MinimumHeightForRow(row: int) returns (h: int)
      requires 0 <= row < Rows()
      ensures h == RowMinHeight(row, Cols())
    {
      h := 0;
      var j := 0;
      while j < items.Length1
        invariant 0 <= j <= items.Length1
        invariant h == RowMinHeight(row, j)
      {
        var it := items[row, j].item;
        if it.Some? {
          h := Max(h, it.value.minHeight);
        }
        j := j + 1;
      }
    }

    /** The sum of the first `n` column minimum widths. */
    function ColumnWidthsTotal(n: int): (t: int)
      requires 0 <= n <= Cols()
      reads items
      ensures t >= 0
      ensures forall c :: 0 <= c < n ==> ColumnMinWidth(c, Rows()) <= t
      decreases n
    {
      if n == 0 then 0 else ColumnWidthsTotal(n - 1) + ColumnMinWidth(n - 1, Rows())
    }

    /** The sum of the first `n` row minimum heights. */
    function RowHeightsTotal(n: int): (t: int)
      requires 0 <= n <= Rows()
      reads items
      ensures t >= 0
      ensures forall r :: 0 <= r < n ==> RowMinHeight(r, Cols()) <= t
      decreases n
    {
      if n == 0 then 0 else RowHeightsTotal(n - 1) + RowMinHeight(n - 1, Cols())
    }

    /** minimumWidth: the column minima and the horizontal spacing between columns. */
    method MinimumWidth() returns (w: int)
      ensures w == MinimumExtent(ColumnWidthsTotal(Cols()), Cols(), horizontalSpacing)
    {
      var total := 0;
      var i := 0;
      while i < items.Length1
        invariant 0 <= i <= items.Length1
        invariant total == ColumnWidthsTotal(i)
      {
        var m := MinimumWidthForColumn(i);
        total := total + m;
        i := i + 1;
      }
      w := MinimumExtent(total, items.Length1, horizontalSpacing);
    }

    /** minimumHeight: the row minima and the vertical spacing between rows. */
    method MinimumHeight() returns (h: int)
      ensures h == MinimumExtent(RowHeightsTotal(Rows()), Rows(), verticalSpacing)
    {
      var total := 0;
      var i := 0;
      while i < items.Length0
        invariant 0 <= i <= items.Length0
        invariant total == RowHeightsTotal(i)
      {
        var m := MinimumHeightForRow(i);
        total := total + m;
        i := i + 1;
      }
      h := MinimumExtent(total, items.Length0, verticalSpacing);
    }

    /** Cell (r0, c0)'s span covers the other cell (r, c). */
    predicate Covers(r0: int, c0: int, r: int, c: int)
      requires InRange(r0, c0)
      reads items
    {
      r0 <= r < r0 + items[r0, c0].rowSpan && c0 <= c < c0 + items[r0, c0].colSpan && (r0 != r || c0 != c)
    }

    /**
     * The overSpanned mark of the layout pass: a cell is over-spanned
     * when the span of an earlier cell that is not itself over-spanned
     * covers it.
     */
    ghost predicate OverSpanned(r: int, c: int)
      requires InRange(r, c)
      reads items
      decreases r, c
    {
      exists r0, c0 :: 0 <= r0 <= r && 0 <= c0 <= c && Covers(r0, c0, r, c) && !OverSpanned(r0, c0)
    }

    /** The span of a cell that is not over-spanned marks every other cell it covers. */
    lemma SpanMarked(r0: int, c0: int, i: int, j: int)
      requires Valid() && InRange(r0, c0) && !OverSpanned(r0, c0)
      requires 0 <= i < items[r0, c0].rowSpan && 0 <= j < items[r0, c0].colSpan && i + j > 0
      ensures InRange(r0 + i, c0 + j) && OverSpanned(r0 + i, c0 + j)
    {
      assert Covers(r0, c0, r0 + i, c0 + j);
    }

    /** The first cell of the grid is never over-spanned, nor is any cell no other cell's span covers. */
    lemma UncoveredNotMarked(r: int, c: int)
      requires InRange(r, c)
      requires forall r0, c0 :: InRange(r0, c0) ==> !Covers(r0, c0, r, c)
      ensures !OverSpanned(r, c)
    {
    }

    /** A cell covered by the span of an earlier visited cell that is not over-spanned. */
    ghost predicate MarkedBefore(r: int, c: int, row: int, col: int)
      requires InRange(r, c)
      reads items
    {
      exists r0, c0 :: InRange(r0, c0) && Before(r0, c0, row, col) && Covers(r0, c0, r, c) && !OverSpanned(r0, c0)
    }

    /** Every cell that covers (r, c) comes before it, so when (r, c) is visited its mark is final. */
    lemma MarkedAtVisit(r: int, c: int)
      requires InRange(r, c)
      ensures MarkedBefore(r, c, r, c) <==> OverSpanned(r, c)
    {
      if OverSpanned(r, c) {
        var r0, c0 :| 0 <= r0 <= r && 0 <= c0 <= c && Covers(r0, c0, r, c) && !OverSpanned(r0, c0);
        assert InRange(r0, c0) && Before(r0, c0, r, c);
      }
    }

    lemma MarkedStep(row: int, col: int)
      requires InRange(row, col)
      ensures forall r, c :: InRange(r, c) ==>
        (MarkedBefore(r, c, row, col + 1) <==>
         MarkedBefore(r, c, row, col) || (!OverSpanned(row, col) && Covers(row, col, r, c)))
    {
      forall r, c | InRange(r, c)
        ensures MarkedBefore(r, c, row, col + 1) <==>
                MarkedBefore(r, c, row, col) || (!OverSpanned(row, col) && Covers(row, col, r, c))
      {
        if MarkedBefore(r, c, row, col + 1) && !MarkedBefore(r, c, row, col) {
          var r0, c0 :| InRange(r0, c0) && Before(r0, c0, row, col + 1) && Covers(r0, c0, r, c) && !OverSpanned(r0, c0);
          assert r0 == row && c0 == col;
        }
        if !OverSpanned(row, col) && Covers(row, col, r, c) {
          assert Before(row, col, row, col + 1);
        }
      }
    }

    lemma MarkedNextRow(row: int)
      requires 0 <= row < Rows()
      ensures forall r, c :: InRange(r, c) ==> (MarkedBefore(r, c, row, Cols()) <==> MarkedBefore(r, c, row + 1, 0))
    {
      forall r, c | InRange(r, c)
        ensures MarkedBefore(r, c, row, Cols()) <==> MarkedBefore(r, c, row + 1, 0)
      {
        if MarkedBefore(r, c, row + 1, 0) {
          var r0, c0 :| InRange(r0, c0) && Before(r0, c0, row + 1, 0) && Covers(r0, c0, r, c) && !OverSpanned(r0, c0);
          assert Before(r0, c0, row, Cols());
        }
      }
    }

    lemma MarkedAll(r: int, c: int)
      requires InRange(r, c)
      ensures MarkedBefore(r, c, Rows(), 0) <==> OverSpanned(r, c)
    {
      MarkedAtVisit(r, c);
      if OverSpanned(r, c) {
        var r0, c0 :| InRange(r0, c0) && Before(r0, c0, r, c) && Covers(r0, c0, r, c) && !OverSpanned(r0, c0);
        assert Before(r0, c0, Rows(), 0);
      }
    }

    /** Mark every cell the span of (row, col) covers other than (row, col) itself. */
    method MarkSpan(over: array2<bool>, row: int, col: int)
      requires Valid() && InRange(row, col)
      requires over.Length0 == Rows() && over.Length1 == Cols()
      modifies over
      ensures forall r, c :: InRange(r, c) ==> (over[r, c] <==> old(over[r, c]) || Covers(row, col, r, c))
    {
      var i := 0;
      while i < items[row, col].rowSpan
        invariant 0 <= i <= items[row, col].rowSpan
        invariant forall r, c :: InRange(r, c) ==>
          (over[r, c] <==> old(over[r, c]) || (Covers(row, col, r, c) && r < row + i))
      {
        var j := 0;
        while j < items[row, col].colSpan
          invariant 0 <= j <= items[row, col].colSpan
          invariant forall r, c :: InRange(r, c) ==>
            (over[r, c] <==>
               old(over[r, c]) || (Covers(row, col, r, c) && (r < row + i || (r == row + i && c < col + j))))
        {
          if i + j > 0 {
            over[row + i, col + j] := true;
          }
          j := j + 1;
        }
        i := i + 1;
      }
    }

    /** One row of the overSpanned marking. */
    method MarkRow(over: array2<bool>, row: int)
      requires Valid() && 0 <= row < Rows()
      requires over.Length0 == Rows() && over.Length1 == Cols()
      requires forall r, c :: InRange(r, c) ==> (over[r, c] <==> MarkedBefore(r, c, row, 0))
      modifies over
      ensures forall r, c :: InRange(r, c) ==> (over[r, c] <==> MarkedBefore(r, c, row, Cols()))
    {
      var col := 0;
      while col < items.Length1
        invariant 0 <= col <= items.Length1
        invariant forall r, c :: InRange(r, c) ==> (over[r, c] <==> MarkedBefore(r, c, row, col))
      {
        MarkedAtVisit(row, col);
        MarkedStep(row, col);
        if !over[row, col] {
          MarkSpan(over, row, col);
        }
        col := col + 1;
      }
    }

    /**
     * The overSpanned marking of the layout pass: visiting the cells in
     * row-major order, each cell not yet marked marks the other cells of
     * its span.
     */
    method MarkOverSpanned() returns (over: array2<bool>)
      requires Valid()
      ensures fresh(over) && over.Length0 == Rows() && over.Length1 == Cols()
      ensures forall r, c :: InRange(r, c) ==> (over[r, c] <==> OverSpanned(r, c))
    {
      over := new bool[items.Length0, items.Length1]((r, c) => false);
      var row := 0;
      while row < items.Length0
        invariant 0 <= row <= items.Length0
        invariant forall r, c :: InRange(r, c) ==> (over[r, c] <==> MarkedBefore(r, c, row, 0))
      {
        MarkRow(over, row);
        MarkedNextRow(row);
        row := row + 1;
      }
      forall r, c | InRange(r, c)
        ensures over[r, c] <==> OverSpanned(r, c)
      {
        MarkedAll(r, c);
      }
    }
  }
}
