/**
 * The parsed-document view the two parsers work on. Tokenising and tree building
 * belong to the HTML library; the model receives its result: for every `table`,
 * the stripped texts of its preceding siblings and its rows, and, for the whole
 * document, every `tr` in document order. A cell keeps its tag (`th` or `td`) and
 * its stripped text.
 */
module Html {

  datatype CellKind = Th | Td

  datatype Cell = Cell(kind: CellKind, text: string)

  type Row = seq<Cell>

  /**
   * `siblings` holds the stripped text of each preceding sibling element, nearest first;
   * `rows` holds the table's `tr` elements in order.
   */
  datatype Table = Table(siblings: seq<string>, rows: seq<Row>)

  /** `tables` is `find_all("table")`, `rows` is `find_all("tr")`, both in document order. */
  datatype Document = Document(tables: seq<Table>, rows: seq<Row>)

  /** The HTML library: turns page text into a parsed document. */
  type Soup = string -> Document

  /** A data row needs at least this many `td` cells to be kept. */
  const MinCells: nat := 3

  /** Texts of a header row: `th` and `td` cells alike, in order. */
  function HeaderTexts(row: Row): (texts: seq<string>)
  {
    seq(|row|, i requires 0 <= i < |row| => row[i].text)
  }

  /** Texts of the `td` cells of a row, in order; `th` cells are not data. */
  function DataTexts(row: Row): (texts: seq<string>)
    ensures |texts| <= |row|
    ensures texts == [] <==> forall c :: c in row ==> c.kind == Th
    ensures forall t :: t in texts ==> Cell(Td, t) in row
    ensures |row| == 1 ==> texts == if row[0].kind == Td then [row[0].text] else []
  {
    if row == [] then []
    else if row[0].kind == Td then [row[0].text] + DataTexts(row[1..])
    else
      assert row[0].kind == Th;
      assert (forall c :: c in row[1..] ==> c.kind == Th) ==> (forall c :: c in row ==> c.kind == Th);
      DataTexts(row[1..])
  }

  /**
   * Extraction commutes with splitting a row: with the single-cell case above, every
   * `td` cell's text comes out, once and in cell order.
   */
  lemma {:induction false} DataTextsAppend(a: Row, b: Row)
    ensures DataTexts(a + b) == DataTexts(a) + DataTexts(b)
  {
    if a == [] {
      assert a + b == b;
    } else {
      assert (a + b)[1..] == a[1..] + b;
      DataTextsAppend(a[1..], b);
    }
  }

  /** The data rows kept by both parsers: the `td` texts of every row with at least `MinCells` of them. */
  function KeptRows(rows: seq<Row>): (kept: seq<seq<string>>)
    ensures |kept| <= |rows|
    ensures forall cells :: cells in kept ==> |cells| >= MinCells
  {
    if rows == [] then []
    else
      var cells := DataTexts(rows[0]);
      (if |cells| < MinCells then [] else [cells]) + KeptRows(rows[1..])
  }

  /** Keeping rows commutes with concatenation, so the relative order of rows is preserved. */
  lemma {:induction false} KeptRowsAppend(a: seq<Row>, b: seq<Row>)
    ensures KeptRows(a + b) == KeptRows(a) + KeptRows(b)
  {
    if a == [] {
      assert a + b == b;
    } else {
      assert (a + b)[1..] == a[1..] + b;
      KeptRowsAppend(a[1..], b);
    }
  }

  /** A cell list is kept exactly when some row yields it and it has at least `MinCells` texts. */
  lemma {:induction false} KeptRowsMembership(rows: seq<Row>, cells: seq<string>)
    ensures cells in KeptRows(rows)
        <==> |cells| >= MinCells && exists i :: 0 <= i < |rows| && DataTexts(rows[i]) == cells
  {
    if rows != [] {
      KeptRowsMembership(rows[1..], cells);
      if exists i :: 0 <= i < |rows| && DataTexts(rows[i]) == cells {
        var i :| 0 <= i < |rows| && DataTexts(rows[i]) == cells;
        if i > 0 {
          assert rows[1..][i - 1] == rows[i];
        }
      }
      if exists i :: 0 <= i < |rows[1..]| && DataTexts(rows[1..][i]) == cells {
        var i :| 0 <= i < |rows[1..]| && DataTexts(rows[1..][i]) == cells;
        assert rows[i + 1] == rows[1..][i];
      }
    }
  }

  /** Some row survives exactly when some row has at least `MinCells` `td` cells. */
  lemma KeptRowsNonEmpty(rows: seq<Row>)
    ensures KeptRows(rows) != [] <==> exists i :: 0 <= i < |rows| && |DataTexts(rows[i])| >= MinCells
  {
    if KeptRows(rows) != [] {
      KeptRowsMembership(rows, KeptRows(rows)[0]);
    }
    if exists i :: 0 <= i < |rows| && |DataTexts(rows[i])| >= MinCells {
      var i :| 0 <= i < |rows| && |DataTexts(rows[i])| >= MinCells;
      KeptRowsMembership(rows, DataTexts(rows[i]));
    }
  }

  /** Reading one more row appends that row's cells when there are enough of them. */
  lemma KeptRowsExtend(rows: seq<Row>, i: nat)
    requires i < |rows|
    ensures KeptRows(rows[..i + 1])
         == KeptRows(rows[..i]) + if |DataTexts(rows[i])| < MinCells then [] else [DataTexts(rows[i])]
  {
    assert rows[..i + 1] == rows[..i] + [rows[i]];
    KeptRowsAppend(rows[..i], [rows[i]]);
    var single: seq<Row> := [rows[i]];
    assert single[1..] == [];
  }

  /** The data-row loop shared by both parsers: keep the `td` texts of rows with enough cells. */
  method KeepDataRows(rows: seq<Row>) returns (kept: seq<seq<string>>)
    ensures kept == KeptRows(rows)
  {
    kept := [];
    for i := 0 to |rows|
      invariant kept == KeptRows(rows[..i])
    {
      var cells := DataTexts(rows[i]);
      KeptRowsExtend(rows, i);
      if |cells| < MinCells {
        continue;
      }
      kept := kept + [cells];
    }
    assert rows[..|rows|] == rows;
  }

  /** A row made only of `th` cells (a header row) is never kept, wherever it sits. */
  lemma HeaderOnlyRowDropped(before: seq<Row>, row: Row, after: seq<Row>)
    requires forall c :: c in row ==> c.kind == Th
    ensures KeptRows(before + [row] + after) == KeptRows(before) + KeptRows(after)
  {
    KeptRowsAppend(before + [row], after);
    KeptRowsAppend(before, [row]);
  }

  /** A row of `td` cells holding the given texts. */
  function TdRow(texts: seq<string>): Row
  {
    seq(|texts|, i requires 0 <= i < |texts| => Cell(Td, texts[i]))
  }

  lemma {:induction false} TdRowTexts(texts: seq<string>)
    ensures DataTexts(TdRow(texts)) == texts
  {
    if texts != [] {
      TdRowTexts(texts[1..]);
      assert TdRow(texts)[1..] == TdRow(texts[1..]);
    }
  }
}
