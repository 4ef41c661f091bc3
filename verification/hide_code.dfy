/**
 The hide-code preprocessor: blank the source of every cell whose metadata
 asks for its code to be hidden (markdown cells excepted), then drop every
 code cell left with no source and no outputs.
 */
module HideCode {
  import opened Python
  import opened Nbformat
  import opened Subsequences

  /** The metadata key that flags a cell's code as hidden. */
  const HideCodeKey: string := "hideCode"

  /** The cell's metadata holds a `hideCode` entry and that entry is truthy. */
  predicate AsksToHide(cell: Cell)
  {
    HideCodeKey in cell.metadata && Truthy(cell.metadata[HideCodeKey])
  }

  /** The cell's type is known and is something other than markdown. */
  predicate NotMarkdown(cell: Cell)
  {
    cell.cellType.Some? && cell.cellType.value != "markdown"
  }

  /**
   Evaluation of the guard `cell.metadata['hideCode'] and cell.cell_type != 'markdown'`.
   `and` short-circuits, so the cell type is only read when the flag is truthy,
   and each read may raise.
   */
  function HideGuard(cell: Cell): (r: Result<bool, PyError>)
    ensures r == Success(true) <==> AsksToHide(cell) && NotMarkdown(cell)
    ensures r.Failure? <==> HideCodeKey !in cell.metadata || (AsksToHide(cell) && cell.cellType.None?)
    ensures r.Failure? ==> r.error in {KeyError(HideCodeKey), AttributeError("cell_type")}
  {
    match Subscript(cell.metadata, HideCodeKey)
    case Failure(e) => Failure(e)
    case Success(flag) =>
      if !Truthy(flag) then Success(false)
      else
        match CellTypeAttr(cell)
        case Failure(e) => Failure(e)
        case Success(t) => Success(t != "markdown")
  }

  /**
   `preprocess_cell`: blank the source when the guard holds; a raised
   exception is swallowed and leaves the cell as it was. Resources pass through.
   */
  function PreprocessCell<R>(cell: Cell, resources: R): (r: (Cell, R))
    ensures r.1 == resources
    ensures r.0 == cell.(source := r.0.source)
    ensures AsksToHide(cell) && NotMarkdown(cell) ==> r.0.source == ""
    ensures cell.cellType == Some("markdown") ==> r.0 == cell
    ensures !AsksToHide(cell) ==> r.0 == cell
    ensures cell.cellType.None? ==> r.0 == cell
  {
    match HideGuard(cell)
    case Success(true) => (cell.(source := ""), resources)
    case Success(false) => (cell, resources)
    case Failure(_) => (cell, resources)
  }

  /**
   The base class's per-cell loop: each cell in order is replaced by the
   result of `PreprocessCell`, with the returned resources fed to the next cell.
   */
  function PreprocessCells<R>(cells: seq<Cell>, resources: R): (r: (seq<Cell>, R))
    ensures r.1 == resources
    ensures |r.0| == |cells|
    ensures forall i :: 0 <= i < |cells| ==> r.0[i] == PreprocessCell(cells[i], resources).0
    decreases |cells|
  {
    if |cells| == 0 then ([], resources)
    else
      var (first, resources') := PreprocessCell(cells[0], resources);
      var (rest, resources'') := PreprocessCells(cells[1..], resources');
      ([first] + rest, resources'')
  }

  /** `empty_code_cell`: a code cell with empty source and no outputs. */
  function EmptyCodeCell(cell: Cell): (r: bool)
    ensures r <==> && cell.cellType == Some("code")
                   && cell.source == ""
                   && (cell.outputs.None? || cell.outputs.value == [])
  {
    if GetCellType(cell, "") != "code" then false
    else !Truthy(VStr(cell.source)) && |GetOutputs(cell)| == 0
  }

  /** Positions of the cells that the filter keeps, in increasing order. */
  function KeptIndices(cells: seq<Cell>): (ks: seq<nat>)
    ensures InRange(ks, |cells|)
    ensures StrictlyIncreasing(ks)
    ensures forall i :: i in ks <==> 0 <= i < |cells| && !EmptyCodeCell(cells[i])
    decreases |cells|
  {
    if |cells| == 0 then []
    else
      var n := |cells| - 1;
      var front := KeptIndices(cells[..n]);
      if EmptyCodeCell(cells[n]) then front else front + [n]
  }

  /** The list comprehension that drops every empty code cell. */
  function DropEmptyCodeCells(cells: seq<Cell>): (r: seq<Cell>)
    ensures |r| <= |cells|
    ensures forall c :: c in r <==> c in cells && !EmptyCodeCell(c)
    decreases |cells|
  {
    if |cells| == 0 then []
    else
      var n := |cells| - 1;
      assert cells == cells[..n] + [cells[n]];
      var front := DropEmptyCodeCells(cells[..n]);
      if EmptyCodeCell(cells[n]) then front else front + [cells[n]]
  }

  /** `preprocess`: blank every cell in order, then drop the empty code cells. */
  function Preprocess<R>(nb: Notebook, resources: R): (r: (Notebook, R))
    ensures r.1 == resources
    ensures r.0 == nb.(cells := r.0.cells)
    ensures |r.0.cells| <= |nb.cells|
    ensures forall c :: c in r.0.cells ==> !EmptyCodeCell(c)
  {
    var (blanked, resources') := PreprocessCells(nb.cells, resources);
    (nb.(cells := DropEmptyCodeCells(blanked)), resources')
  }
}
