/**
 Properties of the hide-code preprocessor over whole notebooks: the filter
 keeps an order-preserving subsequence, what survives and what is dropped,
 and idempotence.
 */
module HideCodeProofs {
  import opened Python
  import opened Nbformat
  import opened Subsequences
  import opened HideCode

  /** The cells after the per-cell pass. */
  function Blanked<R>(nb: Notebook, resources: R): seq<Cell>
  {
    PreprocessCells(nb.cells, resources).0
  }

  /** The cells after the whole preprocessor. */
  function Processed<R>(nb: Notebook, resources: R): seq<Cell>
  {
    Preprocess(nb, resources).0.cells
  }

  /** One unfolding of the filter and of its kept positions at the last cell. */
  lemma DropLastStep(cells: seq<Cell>)
    requires |cells| > 0
    ensures var n := |cells| - 1;
            if EmptyCodeCell(cells[n])
            then DropEmptyCodeCells(cells) == DropEmptyCodeCells(cells[..n])
                 && KeptIndices(cells) == KeptIndices(cells[..n])
            else DropEmptyCodeCells(cells) == DropEmptyCodeCells(cells[..n]) + [cells[n]]
                 && KeptIndices(cells) == KeptIndices(cells[..n]) + [n]
  {
  }

  /** The filter returns exactly the cells at the kept positions, in order. */
  lemma {:induction false} DropIsSelection(cells: seq<Cell>)
    ensures DropEmptyCodeCells(cells) == Select(cells, KeptIndices(cells))
    decreases |cells|
  {
    if |cells| > 0 {
      var n := |cells| - 1;
      var front := cells[..n];
      var ks := KeptIndices(front);
      DropIsSelection(front);
      DropLastStep(cells);
      SelectFromPrefix(cells, n, ks);
      if !EmptyCodeCell(cells[n]) {
        SelectAppend(cells, ks, n);
      }
    }
  }

  /** Every position whose cell is not an empty code cell is kept; nothing else is. */
  lemma {:induction false} DropKeepsNonEmpty(cells: seq<Cell>)
    requires forall i :: 0 <= i < |cells| ==> !EmptyCodeCell(cells[i])
    ensures DropEmptyCodeCells(cells) == cells
    decreases |cells|
  {
    if |cells| > 0 {
      var n := |cells| - 1;
      DropKeepsNonEmpty(cells[..n]);
      assert cells == cells[..n] + [cells[n]];
    }
  }

  /**
   The output lists, in their original order, the blanked forms of the input
   cells at strictly increasing positions; each differs from its input cell
   at most in its source, which is either unchanged or empty.
   */
  lemma PreprocessKeepsOrder<R>(nb: Notebook, resources: R)
    ensures var ks := KeptIndices(Blanked(nb, resources));
            var out := Processed(nb, resources);
            && |out| == |ks|
            && StrictlyIncreasing(ks)
            && (forall k :: 0 <= k < |ks| ==>
                  && ks[k] < |nb.cells|
                  && out[k] == PreprocessCell(nb.cells[ks[k]], resources).0
                  && out[k] == nb.cells[ks[k]].(source := out[k].source)
                  && (out[k].source == "" || out[k].source == nb.cells[ks[k]].source))
  {
    DropIsSelection(Blanked(nb, resources));
  }

  /** The output is an order-preserving subsequence of the blanked cells. */
  lemma PreprocessIsSubsequence<R>(nb: Notebook, resources: R)
    ensures IsSubsequence(Processed(nb, resources), Blanked(nb, resources))
  {
    var blanked := Blanked(nb, resources);
    var ks := KeptIndices(blanked);
    DropIsSelection(blanked);
    assert Processed(nb, resources) == Select(blanked, ks);
  }

  /** A position survives exactly when its blanked cell is not an empty code cell. */
  lemma PreprocessKeepsPosition<R>(nb: Notebook, resources: R, i: nat)
    requires i < |nb.cells|
    ensures var c := PreprocessCell(nb.cells[i], resources).0;
            && (i in KeptIndices(Blanked(nb, resources)) <==> !EmptyCodeCell(c))
            && (c in Processed(nb, resources) <==> !EmptyCodeCell(c))
  {
  }

  /**
   A code cell whose code is hidden is blanked, and it survives exactly when
   it has recorded outputs.
   */
  lemma HiddenCodeCellSurvivesIffOutputs<R>(nb: Notebook, resources: R, i: nat)
    requires i < |nb.cells|
    requires AsksToHide(nb.cells[i]) && nb.cells[i].cellType == Some("code")
    ensures var cell := nb.cells[i];
            var c := PreprocessCell(cell, resources).0;
            var hasOutputs := cell.outputs.Some? && |cell.outputs.value| > 0;
            && c.source == ""
            && (c in Processed(nb, resources) <==> hasOutputs)
            && (i in KeptIndices(Blanked(nb, resources)) <==> hasOutputs)
  {
    PreprocessKeepsPosition(nb, resources, i);
  }

  /** No surviving cell that asks to hide its code and is not markdown shows any source. */
  lemma SurvivorsShowNoHiddenCode<R>(nb: Notebook, resources: R)
    ensures forall c :: c in Processed(nb, resources) && AsksToHide(c) && NotMarkdown(c) ==> c.source == ""
  {
    var blanked := Blanked(nb, resources);
    forall c | c in Processed(nb, resources) && AsksToHide(c) && NotMarkdown(c)
      ensures c.source == ""
    {
      assert c in blanked;
      var i :| 0 <= i < |blanked| && blanked[i] == c;
      assert c == PreprocessCell(nb.cells[i], resources).0;
    }
  }

  /** An input cell that is already an empty code cell never reaches the output. */
  lemma EmptyCodeCellDropped<R>(nb: Notebook, resources: R, i: nat)
    requires i < |nb.cells|
    requires EmptyCodeCell(nb.cells[i])
    ensures nb.cells[i] !in Processed(nb, resources)
    ensures i !in KeptIndices(Blanked(nb, resources))
  {
    assert PreprocessCell(nb.cells[i], resources).0 == nb.cells[i];
  }

  /** A code cell with recorded outputs always survives, in its blanked form. */
  lemma CodeCellWithOutputsKept<R>(nb: Notebook, resources: R, i: nat)
    requires i < |nb.cells|
    requires nb.cells[i].cellType == Some("code")
    requires nb.cells[i].outputs.Some? && |nb.cells[i].outputs.value| > 0
    ensures PreprocessCell(nb.cells[i], resources).0 in Processed(nb, resources)
    ensures nb.cells[i].source == "" ==> nb.cells[i] in Processed(nb, resources)
  {
    assert PreprocessCell(nb.cells[i], resources).0 in Blanked(nb, resources);
  }

  /** A markdown cell always survives, untouched, even with empty text. */
  lemma MarkdownCellKept<R>(nb: Notebook, resources: R, i: nat)
    requires i < |nb.cells|
    requires nb.cells[i].cellType == Some("markdown")
    ensures nb.cells[i] in Processed(nb, resources)
  {
    assert Blanked(nb, resources)[i] == nb.cells[i];
  }

  /** Blanking a cell a second time changes nothing. */
  lemma PreprocessCellIdempotent<R>(cell: Cell, resources: R, resources': R)
    ensures var once := PreprocessCell(cell, resources).0;
            PreprocessCell(once, resources').0 == once
  {
  }

  /** Running the preprocessor on its own output returns that output. */
  lemma {:induction false} PreprocessIdempotent<R>(nb: Notebook, resources: R, resources': R)
    ensures var once := Preprocess(nb, resources).0;
            Preprocess(once, resources').0 == once
  {
    var once := Preprocess(nb, resources).0;
    var blanked := Blanked(nb, resources);
    forall k | 0 <= k < |once.cells|
      ensures PreprocessCell(once.cells[k], resources').0 == once.cells[k]
    {
      var c := once.cells[k];
      assert c in blanked;
      var i :| 0 <= i < |blanked| && blanked[i] == c;
      PreprocessCellIdempotent(nb.cells[i], resources, resources');
    }
    var again := PreprocessCells(once.cells, resources').0;
    assert again == once.cells;
    DropKeepsNonEmpty(again);
  }

  /**
   A worked notebook: a hidden code cell loses its source, a hidden markdown
   cell is untouched, and an empty code cell without outputs is dropped.
   */
  lemma WorkedExample()
    ensures var hidden := map[HideCodeKey := VBool(true)];
            var code := Cell(Some("code"), "print(1)", hidden, Some([Output("stream", map[])]), map[]);
            var title := Cell(Some("markdown"), "# Title", hidden, None, map[]);
            var empty := Cell(Some("code"), "", map[], Some([]), map[]);
            var nb := Notebook([code, title, empty], map[], map[]);
            Processed(nb, 0) == [code.(source := ""), title]
  {
    var hidden := map[HideCodeKey := VBool(true)];
    var code := Cell(Some("code"), "print(1)", hidden, Some([Output("stream", map[])]), map[]);
    var title := Cell(Some("markdown"), "# Title", hidden, None, map[]);
    var empty := Cell(Some("code"), "", map[], Some([]), map[]);
    var nb := Notebook([code, title, empty], map[], map[]);
    var blanked := Blanked(nb, 0);
    assert blanked == [code.(source := ""), title, empty];
    assert EmptyCodeCell(empty) && !EmptyCodeCell(title) && !EmptyCodeCell(code.(source := ""));
    assert blanked[..2] == [code.(source := ""), title];
    assert blanked[..2][..1] == [code.(source := "")];
    assert blanked[..2][..1][..0] == [];
    assert DropEmptyCodeCells(blanked[..2][..1]) == [code.(source := "")];
    assert DropEmptyCodeCells(blanked[..2]) == [code.(source := ""), title];
    assert DropEmptyCodeCells(blanked) == [code.(source := ""), title];
  }
}
