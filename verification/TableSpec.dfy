/**
 The layout of a usage table, said plainly: rows are split by line breaks, cells by tabs, the
 lines of a cell by vertical tabs; a row is read line by line across its cells, cells with fewer
 lines being filled up with empty parts.
 */
module TableSpec {
  import opened Bytes
  import opened DisplayWidth

  const TAB: Byte := 9
  const NL: Byte := 10
  const VT: Byte := 11

  /** The pieces of `s` between the separators; there is always at least one. */
  function Split(s: seq<Byte>, sep: Byte): (p: seq<seq<Byte>>)
    ensures p != []
  {
    if s == [] then [[]]
    else
      var rest := Split(s[1..], sep);
      if s[0] == sep then [[]] + rest else [[s[0]] + rest[0]] + rest[1..]
  }

  /** The lines of each cell of a row. */
  function Cells(row: seq<Byte>): (c: seq<seq<seq<Byte>>>)
    ensures c != [] && forall i :: 0 <= i < |c| ==> c[i] != []
  {
    LinesOfCells(Split(row, TAB))
  }

  function LinesOfCells(cells: seq<seq<Byte>>): (c: seq<seq<seq<Byte>>>)
    ensures |c| == |cells| && forall i :: 0 <= i < |c| ==> c[i] == Split(cells[i], VT)
  {
    seq(|cells|, i requires 0 <= i < |cells| => Split(cells[i], VT))
  }

  /** The greatest index of a line in any of the cells. */
  function Depth(cells: seq<seq<seq<Byte>>>): (d: nat)
  {
    if cells == [] then 0 else
      var d := Depth(cells[..|cells| - 1]);
      var last := |cells[|cells| - 1]| - 1;
      if last > d then last else d
  }

  /** The part at a line and a column: the line of the cell, or an empty filler. */
  function PartAt(cells: seq<seq<seq<Byte>>>, line: nat, col: nat): seq<Byte>
    requires col < |cells|
  {
    if line < |cells[col]| then cells[col][line] else []
  }

  datatype Part = Part(line: nat, col: nat, text: seq<Byte>)

  /** One line across all columns. */
  function LineOf(cells: seq<seq<seq<Byte>>>, line: nat): (p: seq<Part>)
    ensures |p| == |cells|
    ensures forall c :: 0 <= c < |cells| ==> p[c] == Part(line, c, PartAt(cells, line, c))
  {
    seq(|cells|, c requires 0 <= c < |cells| => Part(line, c, PartAt(cells, line, c)))
  }

  /** The lines before `line`, one after the other. */
  function LinesBefore(cells: seq<seq<seq<Byte>>>, line: nat): seq<Part> {
    if line == 0 then [] else LinesBefore(cells, line - 1) + LineOf(cells, line - 1)
  }

  /** The whole row, transposed: line 0 of every column, then line 1 of every column, and so on. */
  function Transposed(row: seq<Byte>): seq<Part> {
    var cells := Cells(row);
    LinesBefore(cells, Depth(cells) + 1)
  }

  /** All rows of a table. */
  function Rows(helps: seq<seq<Byte>>): seq<seq<Byte>> {
    if helps == [] then [] else Split(helps[0], NL) + Rows(helps[1..])
  }

  // ---------------------------------------------------------------- facts about splitting

  /** Pieces contain no separator, and rejoining them with the separator gives the text back. */
  function Join(p: seq<seq<Byte>>, sep: Byte): seq<Byte> {
    if p == [] then [] else if |p| == 1 then p[0] else p[0] + [sep] + Join(p[1..], sep)
  }

  lemma {:induction false} SplitJoins(s: seq<Byte>, sep: Byte)
    ensures Join(Split(s, sep), sep) == s
    ensures forall i :: 0 <= i < |Split(s, sep)| ==> sep !in Split(s, sep)[i]
  {
    if s != [] {
      SplitJoins(s[1..], sep);
      var rest := Split(s[1..], sep);
      if s[0] == sep {
        assert ([[]] + rest)[1..] == rest;
        assert [] + [sep] + Join(rest, sep) == s;
      } else {
        assert Split(s, sep)[1..] == rest[1..];
        assert [s[0]] + s[1..] == s;
        if |rest| > 1 {
          assert [s[0]] + rest[0] + [sep] + Join(rest[1..], sep) == [s[0]] + (rest[0] + [sep] + Join(rest[1..], sep));
        }
      }
    }
  }

  /** Every line index of every cell is at most the depth, and some cell attains it. */
  lemma {:induction false} DepthIsGreatest(cells: seq<seq<seq<Byte>>>)
    requires cells != [] && forall i :: 0 <= i < |cells| ==> cells[i] != []
    ensures forall i :: 0 <= i < |cells| ==> |cells[i]| - 1 <= Depth(cells)
    ensures exists i :: 0 <= i < |cells| && |cells[i]| - 1 == Depth(cells)
  {
    var n := |cells| - 1;
    if n > 0 {
      DepthIsGreatest(cells[..n]);
      var i :| 0 <= i < n && |cells[..n][i]| - 1 == Depth(cells[..n]);
      assert cells[i] == cells[..n][i];
      assert forall j :: 0 <= j < n ==> cells[j] == cells[..n][j];
    }
  }

  /** Every column has a part in every line: the same number of parts for each. */
  lemma {:induction false} LinesBeforeLength(cells: seq<seq<seq<Byte>>>, line: nat)
    ensures |LinesBefore(cells, line)| == line * |cells|
  {
    if line > 0 { LinesBeforeLength(cells, line - 1); }
  }

  /** The k-th part of a row is at line k / columns and column k % columns. */
  lemma {:induction false} TransposedAt(cells: seq<seq<seq<Byte>>>, lines: nat, line: nat, col: nat)
    requires line < lines && col < |cells|
    ensures line * |cells| + col < |LinesBefore(cells, lines)|
    ensures LinesBefore(cells, lines)[line * |cells| + col] == Part(line, col, PartAt(cells, line, col))
    decreases lines
  {
    LinesBeforeLength(cells, lines - 1);
    LinesBeforeLength(cells, lines);
    if line == lines - 1 {
    } else {
      TransposedAt(cells, lines - 1, line, col);
    }
  }
}
