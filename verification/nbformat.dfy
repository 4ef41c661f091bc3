/**
 The notebook document as the conversion pipeline hands it to a
 preprocessor: an ordered list of cells plus notebook-level metadata.
 Every field a cell may lack is an `Option`.
 */
module Nbformat {
  import opened Python

  /** One recorded output of a code cell (stream, display data, error, ...). */
  datatype Output = Output(outputType: string, fields: map<string, Value>)

  /**
   A notebook cell. `other` holds every key the preprocessor never reads
   (execution count, attachments, id, ...).
   */
  datatype Cell = Cell(
    cellType: Option<string>,
    source: string,
    metadata: map<string, Value>,
    outputs: Option<seq<Output>>,
    other: map<string, Value>)

  /** A notebook: its cells in document order and its notebook-level fields. */
  datatype Notebook = Notebook(cells: seq<Cell>, metadata: map<string, Value>, other: map<string, Value>)

  /** Attribute access `cell.cell_type`, raising `AttributeError` when the key is absent. */
  function CellTypeAttr(cell: Cell): Result<string, PyError>
  {
    match cell.cellType
    case Some(t) => Success(t)
    case None => Failure(AttributeError("cell_type"))
  }

  /** `cell.get('cell_type', default)`. */
  function GetCellType(cell: Cell, default: string): string
  {
    match cell.cellType
    case Some(t) => t
    case None => default
  }

  /** `cell.get('outputs', [])`. */
  function GetOutputs(cell: Cell): seq<Output>
  {
    match cell.outputs
    case Some(outs) => outs
    case None => []
  }
}
