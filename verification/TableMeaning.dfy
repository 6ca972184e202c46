/**
 What the bytes of a usage table mean: byte 9 starts a new column, byte 11 a new line of the same
 cell, byte 10 a new row.
 */
module TableMeaning {
  import opened Bytes
  import opened TableSpec

  /** A text without any of the three separators. */
  predicate Plain(s: seq<Byte>) {
    9 !in s && 10 !in s && 11 !in s
  }

  lemma {:induction false} SplitJoined(p: seq<seq<Byte>>, sep: Byte)
    requires p != [] && forall i :: 0 <= i < |p| ==> sep !in p[i]
    ensures Split(Join(p, sep), sep) == p
  {
    if |p| == 1 {
      SplitFirst(p[0], [], sep);
      assert p[0] + [] == p[0] && Split([], sep)[0] == [] && Split([], sep)[1..] == [] && p == [p[0]];
    } else {
      SplitJoined(p[1..], sep);
      var rest := Join(p[1..], sep);
      var r := Split([sep] + rest, sep);
      SplitFirst(p[0], [sep] + rest, sep);
      assert ([sep] + rest)[1..] == rest && p[0] + ([sep] + rest) == p[0] + [sep] + rest;
      assert r[0] == [] && r[1..] == p[1..];
      assert p[0] + [] == p[0] && p == [p[0]] + p[1..];
    }
  }

  /** Text without the separator goes to the first piece. */
  lemma {:induction false} SplitFirst(a: seq<Byte>, t: seq<Byte>, sep: Byte)
    requires sep !in a
    ensures Split(a + t, sep) == [a + Split(t, sep)[0]] + Split(t, sep)[1..]
  {
    var r := Split(t, sep);
    if a == [] {
      assert a + t == t && [] + r[0] == r[0] && [r[0]] + r[1..] == r;
    } else {
      SplitFirst(a[1..], t, sep);
      assert (a + t)[1..] == a[1..] + t;
      assert ([a[1..] + r[0]] + r[1..])[1..] == r[1..];
      assert [a[0]] + (a[1..] + r[0]) == a + r[0];
    }
  }

  // ---------------------------------------------------------------- a row from its cells

  /** The lines of each cell joined by byte 11. */
  function CellTexts(cells: seq<seq<seq<Byte>>>): (t: seq<seq<Byte>>)
    ensures |t| == |cells| && forall i :: 0 <= i < |t| ==> t[i] == Join(cells[i], 11)
  {
    seq(|cells|, i requires 0 <= i < |cells| => Join(cells[i], 11))
  }

  /** The cells joined by byte 9. */
  function RowOf(cells: seq<seq<seq<Byte>>>): seq<Byte> {
    Join(CellTexts(cells), 9)
  }

  ghost predicate PlainCells(cells: seq<seq<seq<Byte>>>) {
    && cells != [] && (forall i :: 0 <= i < |cells| ==> cells[i] != [])
    && forall i, j :: 0 <= i < |cells| && 0 <= j < |cells[i]| ==> Plain(cells[i][j])
  }

  lemma {:induction false} JoinContains(p: seq<seq<Byte>>, sep: Byte, b: Byte)
    requires b != sep && forall i :: 0 <= i < |p| ==> b !in p[i]
    ensures b !in Join(p, sep)
  {
    if |p| > 1 { JoinContains(p[1..], sep, b); }
  }

  /** The cells are read back from the row that they make. */
  lemma CellsOfRow(cells: seq<seq<seq<Byte>>>)
    requires PlainCells(cells)
    ensures Cells(RowOf(cells)) == cells
  {
    var t := CellTexts(cells);
    forall i | 0 <= i < |t|
      ensures 9 !in t[i] && Split(t[i], 11) == cells[i]
    {
      assert forall j :: 0 <= j < |cells[i]| ==> Plain(cells[i][j]);
      JoinContains(cells[i], 11, 9);
      SplitJoined(cells[i], 11);
    }
    SplitJoined(t, 9);
    assert LinesOfCells(t) == cells;
  }

  /** Every row is made of its cells, joined by byte 9, and their lines, joined by byte 11. */
  lemma RowOfCells(row: seq<Byte>)
    ensures RowOf(Cells(row)) == row
  {
    SplitJoins(row, 9);
    var texts := Split(row, 9);
    forall i | 0 <= i < |texts|
      ensures CellTexts(Cells(row))[i] == texts[i]
    {
      SplitJoins(texts[i], 11);
    }
    assert CellTexts(Cells(row)) == texts;
  }

  lemma RowsOfOne(text: seq<Byte>)
    ensures Rows([text]) == Split(text, 10)
  {
    assert [text][1..] == [] && Rows([]) == [];
  }

  /** Rows joined by byte 10 are the rows of a help text; and every help text is its rows, joined so. */
  lemma RowsOfText(rows: seq<seq<Byte>>, text: seq<Byte>)
    requires rows != [] && forall i :: 0 <= i < |rows| ==> 10 !in rows[i]
    ensures Rows([Join(rows, 10)]) == rows && Join(Rows([text]), 10) == text
  {
    SplitJoined(rows, 10);
    SplitJoins(text, 10);
    RowsOfOne(text);
    RowsOfOne(Join(rows, 10));
  }

  lemma Associative<T>(a: seq<T>, b: seq<T>, c: seq<T>)
    ensures a + (b + c) == a + b + c
  {
  }

  /** The rows of a table are those of its texts, one after the other. */
  lemma {:induction false} RowsOfTable(a: seq<seq<Byte>>, b: seq<seq<Byte>>)
    ensures Rows(a + b) == Rows(a) + Rows(b)
  {
    if a == [] {
      assert a + b == b && [] + Rows(b) == Rows(b);
    } else {
      RowsOfTable(a[1..], b);
      assert (a + b)[1..] == a[1..] + b;
      Associative(Split(a[0], 10), Rows(a[1..]), Rows(b));
    }
  }

  /** What is read of the row made of some cells: line by line, a part for each of them, the line of the cell
      at that place or nothing if the cell has fewer lines. */
  lemma PartsOfRow(cells: seq<seq<seq<Byte>>>, line: nat, col: nat)
    requires PlainCells(cells) && col < |cells| && exists i :: 0 <= i < |cells| && line < |cells[i]|
    ensures var parts := Transposed(RowOf(cells)); var k := line * |cells| + col;
      && k < |parts|
      && parts[k] == Part(line, col, if line < |cells[col]| then cells[col][line] else [])
  {
    CellsOfRow(cells);
    DepthIsGreatest(cells);
    TransposedAt(cells, Depth(cells) + 1, line, col);
  }

  /** As many parts as there are columns for every line of the longest cell, and no more. */
  lemma PartCount(cells: seq<seq<seq<Byte>>>, longest: nat)
    requires PlainCells(cells) && longest < |cells|
    requires forall i :: 0 <= i < |cells| ==> |cells[i]| <= |cells[longest]|
    ensures |Transposed(RowOf(cells))| == |cells[longest]| * |cells|
  {
    CellsOfRow(cells);
    DepthIsGreatest(cells);
    assert Depth(cells) + 1 == |cells[longest]|;
    LinesBeforeLength(cells, Depth(cells) + 1);
  }

  // ---------------------------------------------------------------- the smallest rows

  /** A byte 9 between two texts makes two columns, a byte 11 two lines of one column. */
  lemma ColumnsAndLines(a: seq<Byte>, b: seq<Byte>)
    requires Plain(a) && Plain(b)
    ensures Transposed(a + [9] + b) == [Part(0, 0, a), Part(0, 1, b)]
    ensures Transposed(a + [11] + b) == [Part(0, 0, a), Part(1, 0, b)]
    ensures Rows([a + [10] + b]) == [a, b]
    ensures Transposed(a) == [Part(0, 0, a)]
  {
    TwoColumns(a, b);
    TwoLines(a, b);
    OneCell(a);
    TwoRows(a, b);
  }

  lemma TwoRows(a: seq<Byte>, b: seq<Byte>)
    requires Plain(a) && Plain(b)
    ensures Rows([a + [10] + b]) == [a, b]
  {
    JoinOfTwo(a, b, 10);
    RowsOfText([a, b], a);
  }

  lemma JoinOfTwo(a: seq<Byte>, b: seq<Byte>, sep: Byte)
    ensures Join([a, b], sep) == a + [sep] + b && Join([a], sep) == a && Join([b], sep) == b
  {
    assert [a, b][1..] == [b];
  }

  lemma OneCell(a: seq<Byte>)
    requires Plain(a)
    ensures Transposed(a) == [Part(0, 0, a)]
  {
    var c := [[a]];
    JoinOfTwo(a, a, 11);
    JoinOfTwo(a, a, 9);
    assert c[0] == [a] && CellTexts(c) == [a] && RowOf(c) == a;
    PartsOfRow(c, 0, 0);
    PartCount(c, 0);
  }

  lemma TwoColumns(a: seq<Byte>, b: seq<Byte>)
    requires Plain(a) && Plain(b)
    ensures Transposed(a + [9] + b) == [Part(0, 0, a), Part(0, 1, b)]
  {
    var c := [[a], [b]];
    JoinOfTwo(a, b, 11);
    JoinOfTwo(a, b, 9);
    assert c[0] == [a] && c[1] == [b] && CellTexts(c) == [a, b];
    PartsOfRow(c, 0, 0);
    PartsOfRow(c, 0, 1);
    PartCount(c, 0);
  }

  lemma TwoLines(a: seq<Byte>, b: seq<Byte>)
    requires Plain(a) && Plain(b)
    ensures Transposed(a + [11] + b) == [Part(0, 0, a), Part(1, 0, b)]
  {
    var c := [[a, b]];
    var text := a + [11] + b;
    JoinOfTwo(a, b, 11);
    JoinOfTwo(text, text, 9);
    assert c[0] == [a, b] && CellTexts(c) == [text];
    PartsOfRow(c, 0, 0);
    PartsOfRow(c, 1, 0);
    PartCount(c, 0);
  }
}
