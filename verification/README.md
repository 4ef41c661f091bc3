# Hide-code notebook preprocessor, modelled in Dafny

The repository's notebook-conversion step runs `HideCodePreprocessor`
(`_scripts/hide_code.py`) over each notebook before it is rendered. It makes two passes
over the notebook's ordered list of cells:

1. **Per-cell blanking** (`preprocess_cell`). A cell whose metadata holds a truthy
   `hideCode` entry, and whose type is not `markdown`, has its source replaced by the
   empty string. Any exception raised while evaluating that guard is swallowed, and the
   cell is then left as it was. The surrounding loop is the pipeline's base
   `Preprocessor.preprocess`. It replaces each cell in order and threads `resources` through.
2. **Filtering** (`preprocess` with `empty_code_cell`). Every code cell with empty source
   and no outputs is removed. An absent `outputs` field counts as empty.

The model is functional. Cells are immutable datatypes, and each pass is a pure function
over `seq<Cell>`.

- `python.dfy` (module `Python`): `Option`, a `Result` standing for "evaluated or raised",
  the exceptions `KeyError`/`AttributeError`, JSON-like metadata `Value`s, Python
  truthiness (`Truthy`) and subscription that can raise (`Subscript`).
- `nbformat.dfy` (module `Nbformat`): `Output`, `Cell` and `Notebook`. A cell's
  `cell_type` and `outputs` may be absent. `CellTypeAttr` is attribute access, which raises
  when the field is absent. `GetCellType` and `GetOutputs` are `.get` with a default.
- `subsequences.dfy` (module `Subsequences`): describes an order-preserving selection by
  strictly increasing positions.
- `hide_code.dfy` (module `HideCode`): the preprocessor.
  - `HideGuard` evaluates `metadata['hideCode'] and cell_type != 'markdown'` with
    short-circuiting and possible exceptions.
  - `PreprocessCell` applies the try/except around that guard.
  - `PreprocessCells` is the base-class per-cell loop.
  - `EmptyCodeCell` is the filter predicate.
  - `KeptIndices` and `DropEmptyCodeCells` are the list comprehension.
  - `Preprocess` runs both passes.
- `hide_code_proofs.dfy` (module `HideCodeProofs`): whole-notebook properties.

The `Python` module defines `Truthy` following Python's `bool()`. `None`, `False`, zero,
and empty strings, lists and dicts are falsy. The flag does not have to be the literal
`true`.

A truthy `hideCode` on a cell that has no `cell_type` at all does NOT blank that cell. In
that case the attribute read `cell.cell_type` raises `AttributeError`, and the bare
`except` swallows it. A plain reading of "hidden and not markdown" would blank such a cell.
The model follows the code. `PreprocessCell`'s blanking clause therefore requires a present
type (`NotMarkdown`).

## Model

| member | source | states |
|---|---|---|
| HideCode.HideGuard | _scripts/hide_code.py:7 | The guard succeeds with true exactly when `hideCode` is present and truthy and the cell has a type other than markdown. It raises exactly when the key is missing, or when the flag is truthy and `cell_type` is absent. Only `KeyError('hideCode')` or `AttributeError('cell_type')` can be raised. |
| HideCode.PreprocessCell | _scripts/hide_code.py:5-19 | A hidden non-markdown cell comes back with empty source. Markdown cells, cells without a truthy `hideCode`, and cells without a type come back unchanged, because the failed lookup is swallowed. Only `source` can differ from the input cell. `resources` is returned as given. |
| HideCode.PreprocessCells | _scripts/hide_code.py:22 | The per-cell loop keeps the length and the order. Position `i` holds the blanked form of input cell `i`. The resources threaded through every call come back unchanged. |
| HideCode.EmptyCodeCell | _scripts/hide_code.py:30-33 | Holds iff the type is present and equals `code`, and the source is empty, and `outputs` is absent or empty. A missing type gives false. |
| HideCode.KeptIndices | _scripts/hide_code.py:26 | The kept positions are valid and strictly increasing. A position is among them iff its cell is not an empty code cell. |
| HideCode.DropEmptyCodeCells | _scripts/hide_code.py:26 | The comprehension never lengthens the list. A cell value occurs in its result iff it occurs in the input and is not an empty code cell. |
| HideCode.Preprocess | _scripts/hide_code.py:21-28 | Only the notebook's cell list changes, and it never grows. No empty code cell remains. `resources` is returned as given. |
| HideCodeProofs.DropIsSelection | _scripts/hide_code.py:26 | The comprehension's result is exactly the input cells at the kept positions, in order. |
| HideCodeProofs.DropKeepsNonEmpty | _scripts/hide_code.py:26 | On a list with no empty code cell, the filter returns the list itself. |
| HideCodeProofs.PreprocessKeepsOrder | _scripts/hide_code.py:21-26 | Output cell `k` is the blanked form of the input cell at the `k`-th kept position, and those positions increase strictly. Each output cell equals its input cell except for the source, which is either unchanged or empty. |
| HideCodeProofs.PreprocessIsSubsequence | _scripts/hide_code.py:21-26 | The output is an order-preserving subsequence of the blanked cells. |
| HideCodeProofs.PreprocessKeepsPosition | _scripts/hide_code.py:21-33 | An input position survives iff its blanked cell is not an empty code cell, and the blanked cell appears in the output under the same condition. |
| HideCodeProofs.HiddenCodeCellSurvivesIffOutputs | _scripts/hide_code.py:7-33 | A hidden code cell is blanked. It survives iff it has a non-empty `outputs` list. |
| HideCodeProofs.SurvivorsShowNoHiddenCode | _scripts/hide_code.py:7-26 | Every output cell that asks to hide its code and has a type other than markdown has empty source. |
| HideCodeProofs.EmptyCodeCellDropped | _scripts/hide_code.py:26-33 | An input code cell with empty source and no outputs is absent from the output. |
| HideCodeProofs.CodeCellWithOutputsKept | _scripts/hide_code.py:26-33 | A code cell with recorded outputs always survives in its blanked form. With empty source, it survives as itself. |
| HideCodeProofs.MarkdownCellKept | _scripts/hide_code.py:7-33 | A markdown cell always survives unchanged, even when its text is empty or it is flagged hidden. |
| HideCodeProofs.PreprocessCellIdempotent | _scripts/hide_code.py:7-8 | Blanking an already blanked cell changes nothing. |
| HideCodeProofs.PreprocessIdempotent | _scripts/hide_code.py:21-33 | Preprocessing the preprocessor's own output returns that output, whatever resources are passed. |
| HideCodeProofs.WorkedExample | _scripts/hide_code.py:5-33 | Worked example: a hidden code cell with output is blanked and kept, and a hidden markdown cell is kept untouched. An empty code cell without outputs is dropped. |

## Left out

- The pipeline's `Preprocessor` base class and the logger import (`_scripts/hide_code.py:1-2`) are external library code. Only the per-cell loop that line 22 delegates to is modelled, as `PreprocessCells`.
- The commented-out `hidePrompt` block (`_scripts/hide_code.py:12-17`) has no behaviour.
- The unused `index` argument of `preprocess_cell` is omitted. `resources` is an opaque type parameter whose contents are never read.
- In-place mutation of the cell and notebook objects is modelled as returning new values. Nothing else holds a reference during the call.
- A cell with no `source` field is not modelled: `Cell.source` is always present. In the code, reading `cell.source` at line 33 would raise an uncaught `AttributeError` for such a code cell, and the pipeline guarantees the field.
- A cell with no `metadata` field is not modelled. It would behave like one whose metadata lacks `hideCode`: the error is swallowed and the cell is unchanged.
- An `outputs` key that is present but not a list (for example `None`, where `len` raises) is not modelled.
- Python exceptions other than the missing key and the missing `cell_type` are not modelled. An object whose truthiness raises is one example. `Truthy` covers only the JSON value kinds, and floats are reals (no NaN).
- Reading and writing notebook files and exporting to an output format belong to the host pipeline.
