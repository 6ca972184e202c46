/**
 The one-pass iterator over a usage table. It walks the characters of a row once per line and
 yields, part by part, the transposed row of module TableSpec.
 */
module LinePartIterator {
  import opened Bolts
  import opened Bytes
  import opened DisplayWidth
  import opened TableSpec

  // ---------------------------------------------------------------- standing inside a row

  /** Position `p` of the row is in line `l` of cell `c`: what follows are the rest of that line, the
      further lines of the cell, and the further cells. */
  ghost predicate At(row: seq<Byte>, p: nat, c: nat, l: nat) {
    forall k {:trigger Key(k)} :: Bolt(k) ==> StandsAt(row, p, c, l)
  }

  ghost predicate StandsAt(row: seq<Byte>, p: nat, c: nat, l: nat) {
    && p <= |row|
    && var cells, rest := Split(row, TAB), Split(row[p..], TAB);
    && c < |cells| && rest[1..] == cells[c + 1..]
    && var cell, lines := Split(cells[c], VT), Split(rest[0], VT);
    && l < |cell| && lines[1..] == cell[l + 1..]
  }

  /** The same, at the first character of the line. */
  ghost predicate AtStart(row: seq<Byte>, p: nat, c: nat, l: nat) {
    forall k {:trigger Key(k)} :: Bolt(k) ==>
      StandsAt(row, p, c, l) && Split(Split(row[p..], TAB)[0], VT)[0] == Split(Split(row, TAB)[c], VT)[l]
  }

  lemma RowStart(row: seq<Byte>)
    ensures AtStart(row, 0, 0, 0)
  {
    assert row[0..] == row;
    assert StandsAt(row, 0, 0, 0);
  }

  lemma PassVT(row: seq<Byte>, p: nat, c: nat, l: nat)
    requires At(row, p, c, l) && p < |row| && row[p] == VT
    ensures AtStart(row, p + 1, c, l + 1)
  {
    assert Key(0);
    var rest := Split(row[p + 1..], TAB);
    assert row[p..][1..] == row[p + 1..];
    assert Split(row[p..], TAB) == [[VT] + rest[0]] + rest[1..];
    assert ([VT] + rest[0])[1..] == rest[0];
    assert Split([VT] + rest[0], VT) == [[]] + Split(rest[0], VT);
  }

  lemma PassTab(row: seq<Byte>, p: nat, c: nat, l: nat)
    requires At(row, p, c, l) && p < |row| && row[p] == TAB
    ensures c + 1 < |Split(row, TAB)| && l + 1 == |Split(Split(row, TAB)[c], VT)|
    ensures AtStart(row, p + 1, c + 1, 0)
  {
    assert Key(0);
    var rest := Split(row[p + 1..], TAB);
    assert row[p..][1..] == row[p + 1..];
    assert Split(row[p..], TAB) == [[]] + rest;
    assert rest == Split(row, TAB)[c + 1..];
    assert Split([], VT) == [[]];
  }

  lemma PassOther(row: seq<Byte>, p: nat, c: nat, l: nat)
    requires At(row, p, c, l) && p < |row| && row[p] != TAB && row[p] != VT
    ensures At(row, p + 1, c, l)
    ensures Split(Split(row[p..], TAB)[0], VT)[0] == [row[p]] + Split(Split(row[p + 1..], TAB)[0], VT)[0]
  {
    assert Key(0);
    var rest := Split(row[p + 1..], TAB);
    assert row[p..][1..] == row[p + 1..];
    assert Split(row[p..], TAB) == [[row[p]] + rest[0]] + rest[1..];
    assert ([row[p]] + rest[0])[1..] == rest[0];
    var lines := Split(rest[0], VT);
    assert Split([row[p]] + rest[0], VT) == [[row[p]] + lines[0]] + lines[1..];
  }

  lemma RowEnd(row: seq<Byte>, c: nat, l: nat)
    requires At(row, |row|, c, l)
    ensures c + 1 == |Split(row, TAB)| && l + 1 == |Split(Split(row, TAB)[c], VT)|
  {
    assert Key(0);
    assert row[|row|..] == [];
  }

  /** The number of characters up to the next separator or the end of the row. */
  function PartLength(s: seq<Byte>): (n: nat)
    ensures n <= |s| && (n < |s| ==> s[n] == TAB || s[n] == VT)
    ensures forall i :: 0 <= i < n ==> s[i] != TAB && s[i] != VT
  {
    if s == [] || s[0] == TAB || s[0] == VT then 0 else 1 + PartLength(s[1..])
  }

  /** The part that starts at position `p`. */
  function PartAfter(row: seq<Byte>, p: nat): (part: seq<Byte>)
    requires p <= |row|
    ensures |part| == PartLength(row[p..]) && p + |part| <= |row| && part == row[p..p + |part|]
  {
    row[p..p + PartLength(row[p..])]
  }

  /** From the first character of a line, the text up to the next separator is that line. */
  lemma {:induction false} PartIsLine(row: seq<Byte>, p: nat, c: nat, l: nat)
    requires At(row, p, c, l) && p <= |row|
    ensures var n := PartLength(row[p..]);
      At(row, p + n, c, l) && row[p..p + n] == Split(Split(row[p..], TAB)[0], VT)[0]
    decreases |row| - p
  {
    assert Key(0);
    if p == |row| {
      assert row[p..] == [] && row[p..p] == [];
    } else if row[p] == TAB {
      assert row[p..p] == [];
      assert Split(row[p..], TAB)[0] == [];
    } else if row[p] == VT {
      PassVTSplit(row, p);
      assert row[p..p] == [];
    } else {
      PassOther(row, p, c, l);
      PartIsLine(row, p + 1, c, l);
      assert row[p..][1..] == row[p + 1..];
      var n := PartLength(row[p..]);
      assert row[p..p + n] == [row[p]] + row[p + 1..p + n];
    }
  }

  lemma PassVTSplit(row: seq<Byte>, p: nat)
    requires p < |row| && row[p] == VT
    ensures Split(Split(row[p..], TAB)[0], VT)[0] == []
  {
    var rest := Split(row[p + 1..], TAB);
    assert row[p..][1..] == row[p + 1..];
    assert Split(row[p..], TAB) == [[VT] + rest[0]] + rest[1..];
  }

  // ---------------------------------------------------------------- the iterator

  function Max(a: nat, b: nat): nat { if a >= b then a else b }

  /** `row` stands in `text` from `start` on, up to a line break or the end. */
  ghost predicate RowIn(text: seq<Byte>, start: nat, row: seq<Byte>) {
    forall k {:trigger Key(k)} :: Bolt(k) ==>
      && start + |row| <= |text| && text[start..start + |row|] == row
      && (forall i :: 0 <= i < |row| ==> row[i] != NL)
      && (start + |row| < |text| ==> text[start + |row|] == NL)
  }

  /** The greatest line index seen when, in the first walk, the walk stands in line `l` of cell `c`. */
  function SeenDepth(cells: seq<seq<seq<Byte>>>, t: nat, c: nat, l: nat): nat
  {
    if t > 0 || c > |cells| then Depth(cells) else Max(Depth(cells[..c]), l)
  }

  /** The part at line `t`, column `c` is being shown: it is the text at the position, or a filler
      where the cell has no such line. */
  ghost predicate Shows(row: seq<Byte>, p: nat, len: nat, t: nat, c: nat, l: nat, seen: nat) {
    forall k {:trigger Key(k)} :: Bolt(k) ==>
      && StandsAt(row, p, c, l) && c < |Cells(row)| && t <= Depth(Cells(row)) && seen == SeenDepth(Cells(row), t, c, l)
      && len == |PartAfter(row, p)| && PartAfter(row, p) == PartAt(Cells(row), t, c)
      && (l == t || (l < t && l + 1 == |Cells(row)[c]| && len == 0 && (p == |row| || row[p] == TAB)))
  }

  /** The walk has passed the part at line `t`, column `c`, and looks for the end of the cell. */
  ghost predicate Leaving(row: seq<Byte>, p: nat, t: nat, c: nat, l: nat, seen: nat) {
    forall k {:trigger Key(k)} :: Bolt(k) ==>
      && StandsAt(row, p, c, l) && c < |Cells(row)| && t <= Depth(Cells(row))
      && (l >= t || p == |row| || row[p] == TAB)
      && seen == SeenDepth(Cells(row), t, c, l)
  }

  /** The walk looks for line `t` of cell `c`, and is in front of it. */
  ghost predicate Seeking(row: seq<Byte>, p: nat, t: nat, c: nat, l: nat, seen: nat) {
    && l < t
    && forall k {:trigger Key(k)} :: Bolt(k) ==>
      StandsAt(row, p, c, l) && c < |Cells(row)| && t <= Depth(Cells(row)) && seen == Depth(Cells(row))
  }

  /** The part after line `t`, column `c` is at line `t'`, column `c'`. */
  ghost predicate Following(row: seq<Byte>, t: nat, c: nat, t': nat, c': nat) {
    forall k {:trigger Key(k)} :: Bolt(k) ==>
      if c + 1 < |Cells(row)| then t' == t && c' == c + 1
      else t < Depth(Cells(row)) && t' == t + 1 && c' == 0
  }

  lemma CellsAre(row: seq<Byte>, c: nat)
    requires c < |Split(row, TAB)|
    ensures c < |Cells(row)| == |Split(row, TAB)| && Cells(row)[c] == Split(Split(row, TAB)[c], VT)
    ensures |Cells(row)[c]| - 1 <= Depth(Cells(row))
    ensures Depth(Cells(row)[..c + 1]) == Max(Depth(Cells(row)[..c]), |Cells(row)[c]| - 1)
  {
    DepthAt(Cells(row), c);
  }

  lemma DepthAt(cells: seq<seq<seq<Byte>>>, c: nat)
    requires c < |cells| && forall i :: 0 <= i < |cells| ==> cells[i] != []
    ensures |cells[c]| - 1 <= Depth(cells)
    ensures Depth(cells[..c + 1]) == Max(Depth(cells[..c]), |cells[c]| - 1)
  {
    DepthIsGreatest(cells);
    var d := cells[..c + 1];
    assert d[..|d| - 1] == cells[..c] && d[|d| - 1] == cells[c];
  }

  /** The first part of a row. */
  lemma FirstIsShown(row: seq<Byte>)
    ensures Shows(row, 0, |PartAfter(row, 0)|, 0, 0, 0, 0)
  {
    RowStart(row);
    CellsAre(row, 0);
    FoundIsShown(row, 0, 0, 0, 0);
  }

  /** After a shown part the walk leaves it. */
  lemma ShownIsLeft(row: seq<Byte>, p: nat, len: nat, t: nat, c: nat, l: nat, seen: nat)
    requires Shows(row, p, len, t, c, l, seen)
    ensures p + len <= |row| && Leaving(row, p + len, t, c, l, seen)
  {
    assert Key(0);
    PartIsLine(row, p, c, l);
    if l == t {
      assert At(row, p + len, c, l);
    }
  }

  /** At the first character of the sought line, that line is shown. */
  lemma FoundIsShown(row: seq<Byte>, p: nat, t: nat, c: nat, seen: nat)
    requires AtStart(row, p, c, t) && c < |Cells(row)| && seen == SeenDepth(Cells(row), t, c, t)
    ensures p <= |row| && Shows(row, p, |PartAfter(row, p)|, t, c, t, seen)
  {
    assert Key(0);
    CellsAre(row, c);
    assert At(row, p, c, t);
    PartIsLine(row, p, c, t);
  }

  lemma FillerIsShown(row: seq<Byte>, p: nat, t: nat, c: nat, l: nat, seen: nat)
    requires Seeking(row, p, t, c, l, seen) && p <= |row| && (p < |row| ==> row[p] == TAB)
    ensures Shows(row, p, |PartAfter(row, p)|, t, c, l, seen)
  {
    assert Key(0);
    CellsAre(row, c);
    assert At(row, p, c, l);
    if p == |row| { RowEnd(row, c, l); } else { PassTab(row, p, c, l); }
  }

  lemma LeavingPassesVT(row: seq<Byte>, p: nat, t: nat, c: nat, l: nat, seen: nat)
    requires Leaving(row, p, t, c, l, seen) && p < |row| && row[p] == VT
    ensures l + 1 != t && Leaving(row, p + 1, t, c, l + 1, Max(seen, l + 1))
  {
    assert Key(0);
    assert At(row, p, c, l);
    PassVT(row, p, c, l);
    CellsAre(row, c);
  }

  lemma LeavingPassesOther(row: seq<Byte>, p: nat, t: nat, c: nat, l: nat, seen: nat)
    requires Leaving(row, p, t, c, l, seen) && p < |row| && row[p] != VT && row[p] != TAB
    ensures Leaving(row, p + 1, t, c, l, seen)
  {
    assert Key(0);
    assert At(row, p, c, l);
    PassOther(row, p, c, l);
    assert At(row, p + 1, c, l);
  }

  lemma SeekingPassesVT(row: seq<Byte>, p: nat, t: nat, c: nat, l: nat, seen: nat)
    requires Seeking(row, p, t, c, l, seen) && p < |row| && row[p] == VT
    ensures Max(seen, l + 1) == seen
    ensures l + 1 == t ==> Shows(row, p + 1, |PartAfter(row, p + 1)|, t, c, t, seen)
    ensures l + 1 != t ==> Seeking(row, p + 1, t, c, l + 1, seen)
  {
    assert Key(0);
    assert At(row, p, c, l);
    PassVT(row, p, c, l);
    CellsAre(row, c);
    if l + 1 == t { FoundIsShown(row, p + 1, t, c, seen); }
  }

  lemma SeekingPassesOther(row: seq<Byte>, p: nat, t: nat, c: nat, l: nat, seen: nat)
    requires Seeking(row, p, t, c, l, seen) && p < |row| && row[p] != VT && row[p] != TAB
    ensures Seeking(row, p + 1, t, c, l, seen)
  {
    assert Key(0);
    assert At(row, p, c, l);
    PassOther(row, p, c, l);
    assert At(row, p + 1, c, l);
  }

  /** Leaving a cell over a tab: the next cell's first line, or the search for line `t` in it. */
  lemma LeavingPassesTab(row: seq<Byte>, p: nat, t: nat, c: nat, l: nat, seen: nat)
    requires Leaving(row, p, t, c, l, seen) && p < |row| && row[p] == TAB
    ensures Following(row, t, c, t, c + 1)
    ensures t == 0 ==> Shows(row, p + 1, |PartAfter(row, p + 1)|, t, c + 1, 0, seen)
    ensures t > 0 ==> Seeking(row, p + 1, t, c + 1, 0, seen)
  {
    assert Key(0);
    assert At(row, p, c, l);
    PassTab(row, p, c, l);
    CellsAre(row, c);
    CellsAre(row, c + 1);
    if t == 0 { FoundIsShown(row, p + 1, t, c + 1, seen); }
  }

  /** Leaving the last cell at the end of the row: all lines have been seen. */
  lemma LeavingEnds(row: seq<Byte>, t: nat, c: nat, l: nat, seen: nat)
    requires Leaving(row, |row|, t, c, l, seen)
    ensures c + 1 == |Cells(row)| && seen == Depth(Cells(row)) && t <= seen
    ensures t < seen ==> Following(row, t, c, t + 1, 0) && Seeking(row, 0, t + 1, 0, 0, seen)
  {
    assert Key(0);
    assert At(row, |row|, c, l);
    RowEnd(row, c, l);
    CellsAre(row, c);
    assert Cells(row)[..c + 1] == Cells(row);
    RowStart(row);
  }

  /** What one turn of the walk comes to. */
  datatype Turn = Onward | Arrived | Ended

  class LinePartIterator {
    const u: nat  // payload of the undefined start byte, see DisplayWidth
    ghost const f: Decoder
    const helps: seq<seq<Byte>>  // the help texts of the table
    var desc: nat       // the help text that contains the current row
    var rowstart: nat
    var ptr: nat        // current part
    var col: int        // current column, -1 in front of the first part
    var len: nat        // bytes of the current part
    var screenlen: nat  // its width on the screen
    var maxLine: nat    // greatest index of a line seen in the row
    var line: nat       // line within the cell at `ptr`
    var targetLine: nat // line to be shown
    var hitTarget: bool // whether that line was found, or filled in, in this cell
    ghost var row: seq<Byte>

    /** The iterator is inside the current row. */
    ghost predicate InRow()
      reads this
    {
      && Decodes(f, u)
      && desc < |helps| && RowIn(helps[desc], rowstart, row)
      && rowstart <= ptr <= rowstart + |row|
    }

    ghost predicate Fresh()
      reads this
    {
      InRow() && col == -1 && ptr == rowstart && maxLine == 0 && line == 0 && targetLine == 0 && hitTarget
    }

    /** A part of the row is being shown: line `targetLine` of cell `col`. */
    ghost predicate Showing()
      reads this
    {
      && InRow() && 0 <= col && hitTarget
      && Shows(row, ptr - rowstart, len, targetLine, col, line, maxLine)
      && screenlen == Width(f, PartAfter(row, ptr - rowstart))
    }

    /** The walk is on its way from the part at line `t`, column `c` to the next one. */
    ghost predicate Walking(t: nat, c: nat)
      reads this
    {
      && InRow() && 0 <= col
      && if hitTarget
         then targetLine == t && col == c && Leaving(row, ptr - rowstart, t, c, line, maxLine)
         else Following(row, t, c, targetLine, col) && Seeking(row, ptr - rowstart, targetLine, col, line, maxLine)
    }

    predicate AtRowEnd()
      requires desc < |helps|
      reads this
    {
      ptr >= |helps[desc]| || helps[desc][ptr] == NL
    }

    lemma CharAt()
      requires InRow()
      ensures rowstart + |row| <= |helps[desc]| && (AtRowEnd() <==> ptr == rowstart + |row|)
      ensures !AtRowEnd() ==> ptr < |helps[desc]| && ptr - rowstart < |row| && helps[desc][ptr] == row[ptr - rowstart]
    {
      assert Key(0);
      if ptr < rowstart + |row| {
        assert helps[desc][ptr] == helps[desc][rowstart..rowstart + |row|][ptr - rowstart];
      }
    }

    /** Measures the part at `ptr` in bytes and in screen columns. */
    method UpdateLength()
      requires InRow()
      modifies this`len, this`screenlen
      ensures len == |PartAfter(row, ptr - rowstart)| && screenlen == Width(f, PartAfter(row, ptr - rowstart))
    {
      ghost var p := ptr - rowstart;
      ghost var part := PartAfter(row, p);
      PartOfRow(helps[desc], rowstart, row, p);
      len, screenlen := MeasurePart(helps[desc], ptr, u, f, part);
    }

    /** The sought line, or a filler for it, is at `ptr`. */
    method Arrive()
      requires InRow() && 0 <= col
      requires Shows(row, ptr - rowstart, |PartAfter(row, ptr - rowstart)|, targetLine, col, line, maxLine)
      modifies this`len, this`screenlen, this`hitTarget
      ensures Showing()
    {
      UpdateLength();
      hitTarget := true;
    }

    /** Over the end of a line. */
    method TurnVT(ghost t: nat, ghost c: nat) returns (turn: Turn)
      requires Walking(t, c) && !AtRowEnd() && helps[desc][ptr] == VT
      modifies this
      ensures SameRow(old(row), old(desc), old(rowstart)) && ptr == old(ptr) + 1
      ensures turn.Onward? ==> Walking(t, c) && hitTarget == old(hitTarget)
      ensures turn.Arrived? ==> Showing() && Following(row, t, c, targetLine, col)
      ensures !turn.Ended?
    {
      CharAt();
      ghost var p := ptr - rowstart;
      if hitTarget { LeavingPassesVT(row, p, t, c, line, maxLine); }
      else { SeekingPassesVT(row, p, targetLine, col, line, maxLine); }
      line := line + 1;
      maxLine := Max(maxLine, line);
      ptr := ptr + 1;
      turn := Onward;
      if line == targetLine {
        Arrive();
        turn := Arrived;
      }
    }

    /** Over the end of a cell. */
    method TurnTab(ghost t: nat, ghost c: nat) returns (turn: Turn)
      requires Walking(t, c) && !AtRowEnd() && helps[desc][ptr] == TAB
      modifies this
      ensures SameRow(old(row), old(desc), old(rowstart))
      ensures turn.Onward? ==> Walking(t, c) && old(hitTarget) && !hitTarget
      ensures turn.Arrived? ==> Showing() && Following(row, t, c, targetLine, col)
      ensures !turn.Ended?
    {
      CharAt();
      ghost var p := ptr - rowstart;
      if !hitTarget {
        FillerIsShown(row, p, targetLine, col, line, maxLine);
        Arrive();
        return Arrived;
      }
      LeavingPassesTab(row, p, t, c, line, maxLine);
      hitTarget := false;
      line := 0;
      col := col + 1;
      ptr := ptr + 1;
      turn := Onward;
      if line == targetLine {
        Arrive();
        turn := Arrived;
      }
    }

    /** At the end of the row: a last filler, the next line from the start of the row, or the end. */
    method TurnEnd(ghost t: nat, ghost c: nat) returns (turn: Turn)
      requires Walking(t, c) && AtRowEnd()
      modifies this
      ensures SameRow(old(row), old(desc), old(rowstart))
      ensures turn.Onward? ==> Walking(t, c) && old(hitTarget) && !hitTarget
      ensures turn.Arrived? ==> Showing() && Following(row, t, c, targetLine, col)
      ensures turn.Ended? ==> InRow() && c + 1 == |Cells(row)| && t == Depth(Cells(row))
    {
      CharAt();
      if !hitTarget {
        FillerIsShown(row, ptr - rowstart, targetLine, col, line, maxLine);
        Arrive();
        return Arrived;
      }
      LeavingEnds(row, t, c, line, maxLine);
      targetLine := targetLine + 1;
      if targetLine > maxLine {
        UpdateLength();
        return Ended;
      }
      hitTarget := false;
      line := 0;
      col := 0;
      ptr := rowstart;
      turn := Onward;
    }

    /** Over any other character. */
    method TurnOther(ghost t: nat, ghost c: nat)
      requires Walking(t, c) && !AtRowEnd() && helps[desc][ptr] != TAB && helps[desc][ptr] != VT
      modifies this`ptr
      ensures Walking(t, c) && ptr == old(ptr) + 1
    {
      CharAt();
      ghost var p := ptr - rowstart;
      if hitTarget { LeavingPassesOther(row, p, t, c, line, maxLine); }
      else { SeekingPassesOther(row, p, targetLine, col, line, maxLine); }
      ptr := ptr + 1;
    }

    method TakeTurn(ghost t: nat, ghost c: nat) returns (turn: Turn)
      requires Walking(t, c)
      modifies this
      ensures SameRow(old(row), old(desc), old(rowstart))
      ensures turn.Onward? ==> Walking(t, c)
      ensures turn.Onward? ==> (old(hitTarget) && !hitTarget) || (hitTarget == old(hitTarget) && ptr == old(ptr) + 1)
      ensures turn.Arrived? ==> Showing() && Following(row, t, c, targetLine, col)
      ensures turn.Ended? ==> InRow() && c + 1 == |Cells(row)| && t == Depth(Cells(row))
    {
      turn := Onward;
      if AtRowEnd() {
        turn := TurnEnd(t, c);
      } else if helps[desc][ptr] == VT {
        turn := TurnVT(t, c);
      } else if helps[desc][ptr] == TAB {
        turn := TurnTab(t, c);
      } else {
        TurnOther(t, c);
      }
    }

    ghost predicate SameRow(row0: seq<Byte>, desc0: nat, rowstart0: nat)
      reads this
    {
      row == row0 && desc == desc0 && rowstart == rowstart0
    }

    /** Leaves the part being shown, and walks to the next one. */
    method Next() returns (more: bool)
      requires Showing() || Fresh()
      modifies this
      ensures SameRow(old(row), old(desc), old(rowstart)) && InRow()
      ensures old(Fresh()) ==> more && Showing() && targetLine == 0 && col == 0 && ptr == rowstart
      ensures old(!Fresh()) && more ==> Showing() && Following(row, old(targetLine), old(col), targetLine, col)
      ensures old(!Fresh()) && !more ==> old(col) + 1 == |Cells(row)| && old(targetLine) == Depth(Cells(row))
    {
      if col == -1 {
        FirstIsShown(row);
        col := 0;
        UpdateLength();
        return true;
      }
      ghost var t, c := targetLine, col;
      ShownIsLeft(row, ptr - rowstart, len, t, c, line, maxLine);
      ptr := ptr + len;
      more := Walk(t, c);
    }

    /** The loop over the characters. */
    method Walk(ghost t: nat, ghost c: nat) returns (more: bool)
      requires Walking(t, c)
      modifies this
      ensures SameRow(old(row), old(desc), old(rowstart)) && InRow()
      ensures more ==> Showing() && Following(row, t, c, targetLine, col)
      ensures !more ==> c + 1 == |Cells(row)| && t == Depth(Cells(row))
    {
      while true
        invariant SameRow(old(row), old(desc), old(rowstart)) && Walking(t, c)
        decreases hitTarget, rowstart + |row| - ptr
      {
        var turn := TakeTurn(t, c);
        if !turn.Onward? {
          return turn.Arrived?;
        }
      }
    }

    /** The rows from the current one to the end of the table. */
    ghost function RowsLeft(): seq<seq<Byte>>
      reads this
      requires desc < |helps| && rowstart <= |helps[desc]|
    {
      RowsFrom(helps, desc, rowstart)
    }

    ghost predicate RowIsNext()
      reads this
    {
      InRow() && rowstart <= |helps[desc]| && RowsLeft()[0] == row
    }

    /** The next row to be read is the `i`-th of the table. */
    ghost predicate Due(rows: seq<seq<Byte>>, i: nat)
      reads this
    {
      Fresh() && RowIsNext() && i < |rows| && RowsLeft() == rows[i..]
    }

    /** In front of the first part of the row that starts at `rowstart`. */
    method RestartRow()
      requires Decodes(f, u) && desc < |helps| && rowstart <= |helps[desc]|
      modifies this
      ensures Fresh() && RowIsNext() && desc == old(desc) && rowstart == old(rowstart)
    {
      row := Split(helps[desc][rowstart..], NL)[0];
      FirstRow(helps[desc], rowstart);
      ptr, col, len, screenlen := rowstart, -1, 0, 0;
      maxLine, line, targetLine, hitTarget := 0, 0, 0, true;
    }

    method SkipRow()
      requires InRow()
      modifies this`ptr
      ensures InRow() && ptr == rowstart + |row|
    {
      CharAt();
      while !AtRowEnd()
        invariant InRow()
        invariant AtRowEnd() <==> ptr == rowstart + |row|
        decreases rowstart + |row| - ptr
      {
        ptr := ptr + 1;
        CharAt();
      }
    }

    /** To the next row: of this help text, or the first of the next one in the table. */
    method NextRow() returns (more: bool)
      requires RowIsNext()
      modifies this
      ensures more == (|old(RowsLeft())| > 1)
      ensures more ==> Fresh() && RowIsNext() && RowsLeft() == old(RowsLeft())[1..]
    {
      SkipRow();
      RowsAfter(helps, desc, rowstart, ptr);
      if ptr >= |helps[desc]| {
        if desc + 1 == |helps| {
          return false;
        }
        desc := desc + 1;
        rowstart := 0;
      } else {
        rowstart := ptr + 1;
      }
      RestartRow();
      more := true;
    }

    /** Before the first row of the table, whose help texts are `helps`. */
    constructor (table: seq<seq<Byte>>, undefined: nat)
      requires table != []
      ensures Fresh() && RowIsNext() && RowsLeft() == Rows(table) && helps == table && f == DecoderOf(undefined)
    {
      u, f, helps := undefined, DecoderOf(undefined), table;
      desc, rowstart := 0, 0;
      new;
      assert table[0][0..] == table[0];
      RestartRow();
    }
  }

  /** The first row from a row start on, and where the next one starts. */
  lemma {:induction false} FirstRow(text: seq<Byte>, start: nat)
    requires start <= |text|
    ensures var rows := Split(text[start..], NL); var end := start + |rows[0]|;
      && RowIn(text, start, rows[0])
      && (end < |text| ==> Split(text[end + 1..], NL) == rows[1..])
      && (end == |text| ==> |rows| == 1)
    decreases |text| - start
  {
    if start < |text| {
      FirstRow(text, start + 1);
      assert text[start..][1..] == text[start + 1..];
      var rest := Split(text[start + 1..], NL);
      if text[start] != NL {
        RowGrows(text, start, rest[0]);
        assert ([[text[start]] + rest[0]] + rest[1..])[1..] == rest[1..];
      } else {
        assert ([[]] + rest)[1..] == rest;
      }
    }
  }

  lemma RowGrows(text: seq<Byte>, start: nat, row: seq<Byte>)
    requires start < |text| && RowIn(text, start + 1, row) && text[start] != NL
    ensures RowIn(text, start, [text[start]] + row)
  {
    assert Key(0);
    assert [text[start]] + row == text[start..start + 1 + |row|];
  }

  /** The rows of a table from position `start` of its `desc`-th help text on. */
  function RowsFrom(helps: seq<seq<Byte>>, desc: nat, start: nat): (rows: seq<seq<Byte>>)
    requires desc < |helps| && start <= |helps[desc]|
    ensures rows != []
  {
    Split(helps[desc][start..], NL) + Rows(helps[desc + 1..])
  }

  lemma RowsAfter(helps: seq<seq<Byte>>, desc: nat, start: nat, end: nat)
    requires desc < |helps| && start <= |helps[desc]| && end == start + |RowsFrom(helps, desc, start)[0]|
    ensures end <= |helps[desc]|
    ensures end < |helps[desc]| ==> RowsFrom(helps, desc, end + 1) == RowsFrom(helps, desc, start)[1..]
    ensures end == |helps[desc]| && desc + 1 < |helps|
      ==> RowsFrom(helps, desc + 1, 0) == RowsFrom(helps, desc, start)[1..]
    ensures |RowsFrom(helps, desc, start)| > 1 <==> end < |helps[desc]| || desc + 1 < |helps|
  {
    FirstRow(helps[desc], start);
    assert Key(0);
    if end < |helps[desc]| {
    } else if desc + 1 < |helps| {
      assert helps[desc + 1][0..] == helps[desc + 1];
      assert helps[desc + 1..][1..] == helps[desc + 2..];
    } else {
      assert helps[desc + 1..] == [];
    }
  }

  predicate IsSeparator(b: Byte) {
    b == TAB || b == VT || b == NL
  }

  /** `part` stands in the text at `at`, up to a separator or the end. */
  ghost predicate PartIn(text: seq<Byte>, at: nat, part: seq<Byte>) {
    && at + |part| <= |text| && text[at..at + |part|] == part
    && (forall i :: 0 <= i < |part| ==> !IsSeparator(part[i]))
    && (at + |part| < |text| ==> IsSeparator(text[at + |part|]))
  }

  lemma PartOfRow(text: seq<Byte>, start: nat, row: seq<Byte>, p: nat)
    requires RowIn(text, start, row) && p <= |row|
    ensures PartIn(text, start + p, PartAfter(row, p))
  {
    assert Key(0);
    var part := PartAfter(row, p);
    var n := PartLength(row[p..]);
    assert forall i :: 0 <= i < n ==> part[i] == row[p..][i];
    assert part == text[start..start + |row|][p..p + n];
    SliceOfSlice(text, start, p, p + n, start + |row|);
    if p + n < |row| {
      assert text[start + p + n] == text[start..start + |row|][p + n] == row[p..][n];
    }
  }

  lemma SliceOfSlice(text: seq<Byte>, start: nat, a: nat, b: nat, end: nat)
    requires a <= b && start + b <= end <= |text|
    ensures text[start..end][a..b] == text[start + a..start + b]
  {
    forall i | 0 <= i < b - a ensures text[start..end][a..b][i] == text[start + a..start + b][i] {
      assert text[start..end][a..b][i] == text[start..end][a + i] == text[start + a + i];
    }
  }

  lemma CharInPart(f: Decoder, text: seq<Byte>, at: nat, part: seq<Byte>, k: nat)
    requires Proper(f) && PartIn(text, at, part) && k < |part|
    ensures f(part[k..]) == f(text[at + k..]) && k + f(part[k..]).length <= |part|
  {
    var t, n := text[at + k..], |part| - k;
    assert t[..n] == part[k..] by {
      SliceOfSlice(text, at, k, |part|, at + |part|);
      assert part[k..] == part[k..|part|] && t[..n] == text[at + k..at + |part|];
    }
    if n < |t| { assert t[n] == text[at + |part|]; }
  }

  /** The first `n` bytes of a part are whole characters, `w` columns wide. */
  ghost predicate Measured(f: Decoder, part: seq<Byte>, n: nat, w: nat) {
    n <= |part| && Boundary(f, part, n) && w == Width(f, part[..n])
  }

  lemma MeasuredNext(f: Decoder, part: seq<Byte>, n: nat, w: nat)
    requires Proper(f) && Measured(f, part, n, w) && n < |part|
    ensures Measured(f, part, n + f(part[n..]).length, w + f(part[n..]).width)
  {
    WidthOfNext(f, part, n);
    NextBoundary(f, part, n, n + f(part[n..]).length);
  }

  lemma PartGoesOn(text: seq<Byte>, at: nat, part: seq<Byte>, k: nat)
    requires PartIn(text, at, part) && k <= |part|
    ensures k < |part| <==> at + k < |text| && !IsSeparator(text[at + k])
  {
    if k < |part| {
      assert text[at + k] == text[at..at + |part|][k];
    }
  }

  lemma DecodesProperly(f: Decoder, u: nat)
    requires Decodes(f, u)
    ensures Proper(f)
  {
    assert Key(0);
    DecoderIsProper(u);
  }

  /** The character at an inner position of a part. */
  method MeasureChar(text: seq<Byte>, at: nat, u: nat, ghost f: Decoder, ghost part: seq<Byte>, k: nat, w: nat)
    returns (k': nat, w': nat)
    requires Decodes(f, u) && PartIn(text, at, part) && k < |part| && Measured(f, part, k, w)
    ensures k < k' <= |part| && Measured(f, part, k', w')
  {
    DecodesProperly(f, u);
    CharInPart(f, text, at, part, k);
    MeasuredNext(f, part, k, w);
    var bytes, wide := DecodeChar(text, at + k, u, f);
    k', w' := k + bytes, w + if wide then 2 else 1;
  }

  /** Measures the part of the text that starts at `at`: its bytes, and its screen columns. */
  method MeasurePart(text: seq<Byte>, at: nat, u: nat, ghost f: Decoder, ghost part: seq<Byte>)
    returns (len: nat, screenlen: nat)
    requires Decodes(f, u) && PartIn(text, at, part)
    ensures len == |part| && screenlen == Width(f, part)
  {
    len, screenlen := 0, 0;
    assert part[..0] == [];
    PartGoesOn(text, at, part, 0);
    while at + len < |text| && text[at + len] != VT && text[at + len] != TAB && text[at + len] != NL
      invariant 0 <= len <= |part| && Measured(f, part, len, screenlen)
      decreases |part| - len
    {
      PartGoesOn(text, at, part, len);
      len, screenlen := MeasureChar(text, at, u, f, part, len, screenlen);
    }
    PartGoesOn(text, at, part, len);
    assert part[..len] == part;
  }

  // ---------------------------------------------------------------- reading a table

  /** The parts up to and including line `t`, column `c`. */
  function PartsUpTo(cells: seq<seq<seq<Byte>>>, t: nat, c: nat): seq<Part>
    requires c < |cells|
  {
    LinesBefore(cells, t) + LineOf(cells, t)[..c + 1]
  }

  lemma NextPart(row: seq<Byte>, t: nat, c: nat, t': nat, c': nat)
    requires c < |Cells(row)| && t <= Depth(Cells(row)) && Following(row, t, c, t', c')
    ensures c' < |Cells(row)| && t' <= Depth(Cells(row))
    ensures (t' == t && c' == c + 1) || (t' == t + 1 && c' == 0)
    ensures PartsUpTo(Cells(row), t', c') == PartsUpTo(Cells(row), t, c) + [Part(t', c', PartAt(Cells(row), t', c'))]
  {
    assert Key(0);
    var cells := Cells(row);
    if c + 1 == |cells| {
      assert LineOf(cells, t)[..c + 1] == LineOf(cells, t);
      assert LineOf(cells, t')[..1] == [LineOf(cells, t')[0]];
    } else {
      assert LineOf(cells, t)[..c + 2] == LineOf(cells, t)[..c + 1] + [LineOf(cells, t)[c + 1]];
    }
  }

  lemma RowText(text: seq<Byte>, start: nat, row: seq<Byte>, p: nat, len: nat)
    requires RowIn(text, start, row) && p + len <= |row|
    ensures start + p + len <= |text| && text[start + p..start + p + len] == row[p..p + len]
  {
    assert Key(0);
    SliceOfSlice(text, start, p, p + len, start + |row|);
  }

  lemma ShownText(row: seq<Byte>, p: nat, len: nat, t: nat, c: nat, l: nat, seen: nat)
    requires Shows(row, p, len, t, c, l, seen)
    ensures c < |Cells(row)| && p + len <= |row| && row[p..p + len] == PartAt(Cells(row), t, c)
    ensures PartAfter(row, p) == row[p..p + len]
  {
    assert Key(0);
  }

  /** The part being shown, as the caller sees it: line, column, text and screen width. */
  method Current(it: LinePartIterator) returns (part: Part, width: nat)
    requires it.Showing()
    ensures it.col < |Cells(it.row)|
    ensures part == Part(it.targetLine, it.col, PartAt(Cells(it.row), it.targetLine, it.col))
    ensures width == Width(it.f, part.text)
  {
    ghost var p := it.ptr - it.rowstart;
    ShownText(it.row, p, it.len, it.targetLine, it.col, it.line, it.maxLine);
    RowText(it.helps[it.desc], it.rowstart, it.row, p, it.len);
    part := Part(it.targetLine, it.col, it.helps[it.desc][it.ptr..it.ptr + it.len]);
    width := it.screenlen;
  }

  ghost predicate AreWidths(f: Decoder, parts: seq<Part>, widths: seq<nat>) {
    |widths| == |parts| && forall i :: 0 <= i < |parts| ==> widths[i] == Width(f, parts[i].text)
  }

  method ReadNext(it: LinePartIterator, ghost cells: seq<seq<seq<Byte>>>, ghost t: nat, ghost c: nat)
    returns (more: bool, part: Part, width: nat, ghost t': nat, ghost c': nat)
    requires it.Showing() && it.targetLine == t && it.col == c
    requires cells == Cells(it.row) && c < |cells| && t <= Depth(cells)
    modifies it
    ensures it.SameRow(old(it.row), old(it.desc), old(it.rowstart)) && it.InRow()
    ensures more ==> it.Showing() && it.targetLine == t' && it.col == c' && width == Width(it.f, part.text)
    ensures c' < |cells| && t' <= Depth(cells)
    ensures more ==> ((t' == t && c' == c + 1) || (t' == t + 1 && c' == 0))
    ensures more ==> PartsUpTo(cells, t', c') == PartsUpTo(cells, t, c) + [part]
    ensures !more ==> t' == t == Depth(cells) && c' == c && c + 1 == |cells|
  {
    more := it.Next();
    part, width, t', c' := Part(0, 0, []), 0, t, c;
    if more {
      NextPart(it.row, t, c, it.targetLine, it.col);
      t', c' := it.targetLine, it.col;
      part, width := Current(it);
    }
  }

  /** Whether a separator follows the first part of the row. */
  method FollowedBySeparator(it: LinePartIterator) returns (separated: bool)
    requires it.Showing() && it.targetLine == 0 && it.col == 0 && it.ptr == it.rowstart
    ensures separated == (TAB in it.row || VT in it.row)
  {
    ghost var p := it.ptr - it.rowstart;
    ShownText(it.row, p, it.len, 0, 0, it.line, it.maxLine);
    RowText(it.helps[it.desc], it.rowstart, it.row, p, it.len);
    PartOfRow(it.helps[it.desc], it.rowstart, it.row, p);
    FirstPart(it.helps[it.desc], it.rowstart, it.row);
    var end := it.ptr + it.len;
    separated := end < |it.helps[it.desc]| && (it.helps[it.desc][end] == TAB || it.helps[it.desc][end] == VT);
  }

  lemma FirstPart(text: seq<Byte>, start: nat, row: seq<Byte>)
    requires RowIn(text, start, row)
    ensures start + |row| <= |text|
    ensures var end := start + |PartAfter(row, 0)|;
      (end < |text| && (text[end] == TAB || text[end] == VT)) <==> (TAB in row || VT in row)
  {
    assert Key(0);
    var part := PartAfter(row, 0);
    assert row[0..] == row && part == row[..|part|];
    if |part| < |row| {
      assert text[start + |part|] == text[start..start + |row|][|part|] == row[|part|];
    } else {
      assert part == row;
    }
  }

  /** What is read of a row: its parts, their widths, and whether it has separators at all. */
  datatype RowParts = RowParts(parts: seq<Part>, widths: seq<nat>, separated: bool)

  ghost predicate ReadsRow(f: Decoder, row: seq<Byte>, r: RowParts) {
    r.parts == Transposed(row) && AreWidths(f, r.parts, r.widths) && r.separated == (TAB in row || VT in row)
  }

  lemma FirstUpTo(cells: seq<seq<seq<Byte>>>)
    requires cells != []
    ensures PartsUpTo(cells, 0, 0) == [Part(0, 0, PartAt(cells, 0, 0))]
  {
    assert LinesBefore(cells, 0) == [] && LineOf(cells, 0)[..1] == [LineOf(cells, 0)[0]];
  }

  method ReadFirst(it: LinePartIterator, ghost cells: seq<seq<seq<Byte>>>)
    returns (part: Part, width: nat, separated: bool)
    requires it.Fresh() && cells == Cells(it.row)
    modifies it
    ensures it.SameRow(old(it.row), old(it.desc), old(it.rowstart)) && it.InRow()
    ensures it.Showing() && it.targetLine == 0 && it.col == 0 && width == Width(it.f, part.text)
    ensures PartsUpTo(cells, 0, 0) == [part]
    ensures separated == (TAB in it.row || VT in it.row)
  {
    var _ := it.Next();
    part, width := Current(it);
    FirstUpTo(cells);
    separated := FollowedBySeparator(it);
  }

  method ReadFurther(it: LinePartIterator, ghost cells: seq<seq<seq<Byte>>>, part: Part, width: nat)
    returns (parts: seq<Part>, widths: seq<nat>)
    requires it.Showing() && it.targetLine == 0 && it.col == 0 && width == Width(it.f, part.text)
    requires cells == Cells(it.row) && PartsUpTo(cells, 0, 0) == [part]
    modifies it
    ensures it.SameRow(old(it.row), old(it.desc), old(it.rowstart)) && it.InRow()
    ensures parts == LinesBefore(cells, Depth(cells) + 1) && AreWidths(it.f, parts, widths)
  {
    parts, widths := [part], [width];
    var more := true;
    ghost var t: nat, c: nat := 0, 0;
    while more
      invariant it.SameRow(old(it.row), old(it.desc), old(it.rowstart)) && it.InRow()
      invariant more ==> it.Showing() && it.targetLine == t && it.col == c
      invariant c < |cells| && t <= Depth(cells) && parts == PartsUpTo(cells, t, c) && AreWidths(it.f, parts, widths)
      invariant !more ==> c + 1 == |cells| && t == Depth(cells)
      decreases more, Depth(cells) - t, |cells| - c
    {
      var next, w;
      more, next, w, t, c := ReadNext(it, cells, t, c);
      if more {
        parts, widths := parts + [next], widths + [w];
      }
    }
  }

  /** All parts of a row, one `Next` after the other: the row transposed, with its widths. */
  method ReadRow(it: LinePartIterator) returns (r: RowParts)
    requires it.Fresh() && it.RowIsNext()
    modifies it
    ensures it.SameRow(old(it.row), old(it.desc), old(it.rowstart)) && it.InRow()
    ensures ReadsRow(it.f, it.row, r)
  {
    ghost var cells := Cells(it.row);
    var part, width, separated := ReadFirst(it, cells);
    var parts, widths := ReadFurther(it, cells, part, width);
    r := RowParts(parts, widths, separated);
  }

  /** A row read, and on to the next one. */
  method ReadAndGoOn(it: LinePartIterator, ghost rows: seq<seq<Byte>>, ghost i: nat) returns (r: RowParts, more: bool)
    requires it.Due(rows, i)
    modifies it
    ensures ReadsRow(it.f, rows[i], r)
    ensures if more then it.Due(rows, i + 1) else i + 1 == |rows|
  {
    r := ReadRow(it);
    assert it.row == rows[i] && rows[i..][1..] == rows[i + 1..];
    more := it.NextRow();
  }

  /** Each row read is the one at its place in the table (see Bolts). */
  ghost predicate ReadsRows(f: Decoder, rows: seq<seq<Byte>>, read: seq<RowParts>) {
    forall k {:trigger Key(k)} :: Bolt(k) ==>
      |read| <= |rows| && forall i :: 0 <= i < |read| ==> ReadsRow(f, rows[i], read[i])
  }

  lemma OneMoreRead(f: Decoder, rows: seq<seq<Byte>>, read: seq<RowParts>, r: RowParts)
    requires ReadsRows(f, rows, read) && |read| < |rows| && ReadsRow(f, rows[|read|], r)
    ensures ReadsRows(f, rows, read + [r])
  {
    assert Key(0);
  }

  lemma AllRead(f: Decoder, rows: seq<seq<Byte>>, read: seq<RowParts>)
    requires ReadsRows(f, rows, read)
    ensures |read| <= |rows| && forall i :: 0 <= i < |read| ==> ReadsRow(f, rows[i], read[i])
  {
    assert Key(0);
  }

  /** What the iterator makes of a whole table is each of its rows, transposed. */
  method ReadTable(table: seq<seq<Byte>>, undefined: nat) returns (rows: seq<RowParts>)
    requires table != []
    ensures |rows| == |Rows(table)|
    ensures forall i :: 0 <= i < |rows| ==> ReadsRow(DecoderOf(undefined), Rows(table)[i], rows[i])
  {
    var it := new LinePartIterator(table, undefined);
    rows := [];
    var more := true;
    ghost var all := Rows(table);
    while more
      invariant fresh(it) && it.f == DecoderOf(undefined) && ReadsRows(it.f, all, rows)
      invariant if more then it.Due(all, |rows|) else |rows| == |all|
      decreases more, |all| - |rows|
    {
      var r;
      ghost var f := it.f;
      r, more := ReadAndGoOn(it, all, |rows|);
      OneMoreRead(f, all, rows, r);
      rows := rows + [r];
    }
    AllRead(it.f, all, rows);
  }
}
