/** The table-size picker of the editor toolbar: a button that opens a
    fixed 6 x 6 grid, hovering a cell selects the rectangle from the top
    left corner to it, and clicking emits that size and closes the grid. */
module TablePicker {

  const MaxRows: int := 6
  const MaxCols: int := 6

  /** A table size: the `hoveredCells` state, and what a click hands to
      the editor. */
  datatype Size = Size(rows: int, cols: int)

  datatype Picker = Picker(showGrid: bool, hovered: Size)

  const InitialPicker: Picker := Picker(false, Size(0, 0))

  predicate InGrid(row: int, col: int)
  {
    0 <= row < MaxRows && 0 <= col < MaxCols
  }

  /** The highlight rule for the cell at (row, col). */
  predicate Highlighted(h: Size, row: int, col: int)
  {
    row < h.rows && col < h.cols
  }

  /** The states the picker can be in: nothing hovered yet, or a hovered
      rectangle inside the grid. */
  predicate WellFormed(h: Size)
  {
    (h.rows == 0 && h.cols == 0) || (1 <= h.rows <= MaxRows && 1 <= h.cols <= MaxCols)
  }

  /** The toolbar button: shows or hides the grid. */
  function ToggleGrid(st: Picker): (r: Picker)
    ensures r.showGrid != st.showGrid
    ensures r.hovered == st.hovered
  {
    st.(showGrid := !st.showGrid)
  }

  /** `handleMouseEnter(row, col)`: cells exist only while the grid is shown. */
  function MouseEnter(st: Picker, row: int, col: int): (r: Picker)
    requires st.showGrid && InGrid(row, col)
    ensures r.showGrid
    ensures 1 <= r.hovered.rows <= MaxRows && 1 <= r.hovered.cols <= MaxCols
    ensures forall ri, ci :: InGrid(ri, ci) ==>
      (Highlighted(r.hovered, ri, ci) <==> ri <= row && ci <= col)
  {
    st.(hovered := Size(row + 1, col + 1))
  }

  /** `handleClick`: emits the hovered size and closes the grid. */
  function Click(st: Picker): (r: (Picker, Size))
    requires st.showGrid
    ensures !r.0.showGrid
    ensures r.0.hovered == st.hovered
    ensures r.1 == st.hovered
  {
    (st.(showGrid := false), st.hovered)
  }

  lemma ToggleTwice(st: Picker)
    ensures ToggleGrid(ToggleGrid(st)) == st
  {
  }

  /** The initial state is closed with nothing hovered, and well formed. */
  lemma InitialState()
    ensures !InitialPicker.showGrid && InitialPicker.hovered == Size(0, 0)
    ensures WellFormed(InitialPicker.hovered) && MaxRows == 6 && MaxCols == 6
  {
  }

  /** Every event keeps the hovered state well formed. */
  lemma EventsKeepWellFormed(st: Picker, row: int, col: int)
    requires WellFormed(st.hovered)
    ensures WellFormed(ToggleGrid(st).hovered)
    ensures st.showGrid && InGrid(row, col) ==> WellFormed(MouseEnter(st, row, col).hovered)
    ensures st.showGrid ==> WellFormed(Click(st).0.hovered)
  {
  }

  /** Hovering a cell and clicking it inserts a table reaching that cell. */
  lemma HoverThenClick(st: Picker, row: int, col: int)
    requires st.showGrid && InGrid(row, col)
    ensures Click(MouseEnter(st, row, col)).1 == Size(row + 1, col + 1)
    ensures !Click(MouseEnter(st, row, col)).0.showGrid
  {
  }

  function Min(a: int, b: int): int
  {
    if a <= b then a else b
  }

  /** Counts the highlighted cells of the grid the way it is rendered, row
      by row: exactly rows * cols of them, the size a click emits. */
  method CountHighlighted(h: Size) returns (n: int)
    requires WellFormed(h)
    ensures n == h.rows * h.cols
  {
    n := 0;
    var row := 0;
    while row < MaxRows
      invariant 0 <= row <= MaxRows
      invariant n == Min(row, h.rows) * h.cols
    {
      var col := 0;
      var inRow := 0;
      while col < MaxCols
        invariant 0 <= col <= MaxCols
        invariant inRow == if row < h.rows then Min(col, h.cols) else 0
      {
        if Highlighted(h, row, col) {
          inRow := inRow + 1;
        }
        col := col + 1;
      }
      n := n + inRow;
      row := row + 1;
    }
  }
}
