/**
 * `jsonToTsv` of src/univer-app.jsx: the active sheet's 2-D cell array as
 * tab-separated text. Row 0 gives the header line (its empty-string cells
 * dropped); every later row is cut to as many cells as there are headers,
 * and a string cell holding a tab is wrapped in double quotes.
 */
module UniverTsv {
  import opened TextLines

  /**
   * A cell of the array: a string, or any other value (a number, a boolean,
   * `null`) as `Array.prototype.join` prints it (`null` prints as "").
   */
  datatype Cell = Text(s: string) | Other(shown: string)

  /** The cell as `join` prints it, without quoting. */
  function Shown(c: Cell): string
  {
    match c
    case Text(s) => s
    case Other(r) => r
  }

  /** `row.filter(header => header !== '')`: only the empty string is dropped; `null` is kept. */
  function Headers(row: seq<Cell>): (hs: seq<Cell>)
    ensures |hs| <= |row|
    decreases |row|
  {
    if row == [] then []
    else (if row[0] == Text("") then [] else [row[0]]) + Headers(row[1..])
  }

  /** The headers are exactly the cells of row 0 other than the empty string. */
  lemma {:induction false} HeadersMembers(row: seq<Cell>)
    ensures forall c :: c in Headers(row) <==> c in row && c != Text("")
    decreases |row|
  {
    if row != [] {
      HeadersMembers(row[1..]);
      assert forall c :: c in row <==> c == row[0] || c in row[1..];
    }
  }

  /** Filtering keeps the order of the kept cells: it distributes over concatenation. */
  lemma {:induction false} HeadersConcat(a: seq<Cell>, b: seq<Cell>)
    ensures Headers(a + b) == Headers(a) + Headers(b)
    decreases |a|
  {
    if a == [] {
      assert a + b == b;
    } else {
      HeadersConcat(a[1..], b);
      var kept := if a[0] == Text("") then [] else [a[0]];
      assert (a + b)[0] == a[0];
      assert (a + b)[1..] == a[1..] + b;
      assert Headers(a + b) == kept + Headers(a[1..] + b);
      assert Headers(a) == kept + Headers(a[1..]);
      assert kept + (Headers(a[1..]) + Headers(b)) == (kept + Headers(a[1..])) + Headers(b);
    }
  }

  /** A header row without empty strings is kept whole. */
  lemma {:induction false} HeadersWithoutGaps(row: seq<Cell>)
    requires forall i :: 0 <= i < |row| ==> row[i] != Text("")
    ensures Headers(row) == row
    decreases |row|
  {
    if row != [] {
      HeadersWithoutGaps(row[1..]);
      assert [row[0]] + row[1..] == row;
    }
  }

  /** The mapped value of a data cell: a string containing a tab is wrapped in double quotes. */
  function RenderCell(c: Cell): (r: string)
    ensures !(c.Text? && '\t' in c.s) ==> r == Shown(c)
  {
    if c.Text? && '\t' in c.s then "\"" + c.s + "\"" else Shown(c)
  }

  /** Quoting adds no tab and no line break: a field holds one exactly when its cell does. */
  lemma RenderCellBreaks(c: Cell)
    ensures '\t' in RenderCell(c) <==> '\t' in Shown(c)
    ensures '\n' in RenderCell(c) <==> '\n' in Shown(c)
  {
    if c.Text? && '\t' in c.s {
      var r := RenderCell(c);
      assert r == ['"'] + c.s + ['"'];
      assert forall x :: x in r <==> x == '"' || x in c.s;
    }
  }

  /** Reading a field back: a quoted field holding a tab loses its quotes. */
  function Unquote(field: string): string
  {
    if 2 <= |field| && field[0] == '"' && field[|field| - 1] == '"' && '\t' in field
    then field[1..|field| - 1]
    else field
  }

  /** Every string cell is recovered from its rendered field. */
  lemma UnquoteRenderCell(s: string)
    ensures Unquote(RenderCell(Text(s))) == s
  {
    if '\t' in s {
      var f := "\"" + s + "\"";
      assert f[1..|f| - 1] == s;
    }
  }

  /** The cells of a header line. */
  function ShownCells(cells: seq<Cell>): (r: seq<string>)
    ensures |r| == |cells|
    ensures forall i :: 0 <= i < |cells| ==> r[i] == Shown(cells[i])
    decreases |cells|
  {
    if cells == [] then [] else [Shown(cells[0])] + ShownCells(cells[1..])
  }

  /** The fields of a data line. */
  function RenderCells(cells: seq<Cell>): (r: seq<string>)
    ensures |r| == |cells|
    ensures forall i :: 0 <= i < |cells| ==> r[i] == RenderCell(cells[i])
    decreases |cells|
  {
    if cells == [] then [] else [RenderCell(cells[0])] + RenderCells(cells[1..])
  }

  function Min(a: nat, b: nat): nat { if a <= b then a else b }

  /** `headers.join('\t')`: header cells are not quoted. */
  function HeaderLine(row0: seq<Cell>): string
  {
    Join(ShownCells(Headers(row0)), '\t')
  }

  /** One data row: `row.slice(0, width)`, each cell rendered, joined by tabs. */
  function RowLine(row: seq<Cell>, width: nat): string
  {
    Join(RenderCells(row[..Min(|row|, width)]), '\t')
  }

  /** `jsonData.slice(1).map(...)`: one line per row, in row order. */
  function RowLines(rows: seq<seq<Cell>>, width: nat): (lines: seq<string>)
    ensures |lines| == |rows|
    ensures forall i :: 0 <= i < |rows| ==> lines[i] == RowLine(rows[i], width)
    decreases |rows|
  {
    if rows == [] then [] else [RowLine(rows[0], width)] + RowLines(rows[1..], width)
  }

  /** `jsonToTsv(jsonData)`: row 0 is read unconditionally, so the array must not be empty. */
  function JsonToTsv(data: seq<seq<Cell>>): string
    requires |data| > 0
  {
    var headers := Headers(data[0]);
    Join([HeaderLine(data[0])] + RowLines(data[1..], |headers|), '\n')
  }

  /** No cell of the array prints with a newline. */
  predicate NewlineFree(data: seq<seq<Cell>>)
  {
    forall i, j :: 0 <= i < |data| && 0 <= j < |data[i]| ==> '\n' !in Shown(data[i][j])
  }

  /** A character other than the separator is in a join only when it is in a piece. */
  lemma {:induction false} JoinAvoids(pieces: seq<string>, sep: char, c: char)
    requires c != sep
    requires forall i :: 0 <= i < |pieces| ==> c !in pieces[i]
    ensures c !in Join(pieces, sep)
    decreases |pieces|
  {
    if |pieces| > 1 {
      JoinAvoids(pieces[1..], sep, c);
      assert forall i :: 0 <= i < |pieces[1..]| ==> pieces[1..][i] == pieces[i + 1];
    }
  }

  /** A header line has no newline when no header cell has one. */
  lemma HeaderLineNewlineFree(row0: seq<Cell>)
    requires forall j :: 0 <= j < |row0| ==> '\n' !in Shown(row0[j])
    ensures '\n' !in HeaderLine(row0)
  {
    var hs := Headers(row0);
    HeadersMembers(row0);
    forall i | 0 <= i < |hs| ensures '\n' !in ShownCells(hs)[i] {
      assert hs[i] in row0;
    }
    JoinAvoids(ShownCells(hs), '\t', '\n');
  }

  /** A data line has no newline when no cell of its row has one. */
  lemma RowLineNewlineFree(row: seq<Cell>, width: nat)
    requires forall j :: 0 <= j < |row| ==> '\n' !in Shown(row[j])
    ensures '\n' !in RowLine(row, width)
  {
    var cells := row[..Min(|row|, width)];
    forall i | 0 <= i < |cells| ensures '\n' !in RenderCells(cells)[i] {
      assert cells[i] == row[i];
      RenderCellBreaks(cells[i]);
    }
    JoinAvoids(RenderCells(cells), '\t', '\n');
  }

  /**
   * The output has one line per row of the array: the header line first,
   * then row i's line at position i. (Cells that print with a newline would
   * break a row over several lines.)
   */
  lemma TsvLines(data: seq<seq<Cell>>)
    requires |data| > 0
    requires NewlineFree(data)
    ensures var lines := Split(JsonToTsv(data), '\n');
      && |lines| == |data|
      && lines[0] == HeaderLine(data[0])
      && forall i :: 1 <= i < |data| ==> lines[i] == RowLine(data[i], |Headers(data[0])|)
  {
    var width := |Headers(data[0])|;
    var lines := [HeaderLine(data[0])] + RowLines(data[1..], width);
    forall i | 0 <= i < |lines| ensures '\n' !in lines[i] {
      if i == 0 {
        HeaderLineNewlineFree(data[0]);
      } else {
        assert lines[i] == RowLine(data[i], width);
        RowLineNewlineFree(data[i], width);
      }
    }
    SplitJoin(lines, '\n');
  }

  /**
   * A data row without tabs reads back, field by field, as its first
   * min(|row|, |headers|) cells, in column order. The number of headers
   * counts the non-empty header cells, not their positions.
   */
  lemma RowFields(row: seq<Cell>, width: nat)
    requires 0 < Min(|row|, width)
    requires forall j :: 0 <= j < |row| ==> '\t' !in Shown(row[j])
    ensures var fields := Split(RowLine(row, width), '\t');
      && |fields| == Min(|row|, width)
      && forall j :: 0 <= j < |fields| ==> fields[j] == Shown(row[j])
  {
    var cells := row[..Min(|row|, width)];
    forall i | 0 <= i < |cells| ensures '\t' !in RenderCells(cells)[i] {
      assert cells[i] == row[i];
    }
    SplitJoin(RenderCells(cells), '\t');
  }

  /** The header line reads back, field by field, as the non-empty header cells in order. */
  lemma HeaderFields(row0: seq<Cell>)
    requires |Headers(row0)| > 0
    requires forall j :: 0 <= j < |row0| ==> '\t' !in Shown(row0[j])
    ensures Split(HeaderLine(row0), '\t') == ShownCells(Headers(row0))
  {
    var hs := Headers(row0);
    HeadersMembers(row0);
    forall i | 0 <= i < |hs| ensures '\t' !in ShownCells(hs)[i] {
      assert hs[i] in row0;
    }
    SplitJoin(ShownCells(hs), '\t');
  }

  /**
   * An empty header in the middle shifts the cut: the row keeps as many
   * cells as there are non-empty headers, counted from the left.
   */
  lemma MiddleGapCutsRow()
    ensures JsonToTsv([[Text("a"), Text(""), Text("b")], [Text("x"), Text("y"), Text("z")]]) == "a\tb\nx\ty"
  {
    var row0 := [Text("a"), Text(""), Text("b")];
    var row1 := [Text("x"), Text("y"), Text("z")];
    GapHeaderLine();
    CutRowLine();
    var data := [row0, row1];
    assert data[1..] == [row1];
    assert RowLines([row1], 2) == ["x\ty"];
    assert ["a\tb", "x\ty"][1..] == ["x\ty"];
    assert [HeaderLine(row0)] + RowLines(data[1..], 2) == ["a\tb", "x\ty"];
    assert Join(["a\tb", "x\ty"], '\n') == "a\tb" + ['\n'] + "x\ty";
  }

  /** The header line of `a`, `""`, `b` has two fields. */
  lemma GapHeaderLine()
    ensures |Headers([Text("a"), Text(""), Text("b")])| == 2
    ensures HeaderLine([Text("a"), Text(""), Text("b")]) == "a\tb"
  {
    var row0 := [Text("a"), Text(""), Text("b")];
    assert row0[1..] == [Text(""), Text("b")];
    assert row0[1..][1..] == [Text("b")];
    assert Headers([Text("b")]) == [Text("b")];
    assert Headers(row0[1..]) == [Text("b")];
    assert Headers(row0) == [Text("a"), Text("b")];
    assert ShownCells([Text("a"), Text("b")]) == ["a", "b"];
    assert ["a", "b"][1..] == ["b"];
  }

  /** Cut to two cells, the row `x`, `y`, `z` reads `x`, `y`. */
  lemma CutRowLine()
    ensures RowLine([Text("x"), Text("y"), Text("z")], 2) == "x\ty"
  {
    var row1 := [Text("x"), Text("y"), Text("z")];
    assert row1[..2] == [Text("x"), Text("y")];
    assert RenderCells([Text("x"), Text("y")]) == ["x", "y"];
    assert ["x", "y"][1..] == ["y"];
  }
}
