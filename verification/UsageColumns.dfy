/**
 The column layout of the usage formatter: column widths are found by measuring the table again
 and again, each time ignoring parts as wide as the widest column of the round before, until the
 columns left of the last one fit in the screen width.
 */
module UsageColumns {
  import opened Bytes
  import opened DisplayWidth
  import opened TableSpec
  import opened LinePartIterator

  const MAX_COLUMNS: nat := 8
  const WIDEST: nat := 10000

  // ---------------------------------------------------------------- what the layout must be

  /** A part as the layout sees it; `counts` is false for interjections, rows without separators. */
  datatype Seen = Seen(col: nat, width: nat, counts: bool)

  function SeenOfRow(f: Decoder, row: seq<Byte>): (s: seq<Seen>)
  {
    var parts := Transposed(row);
    seq(|parts|, i requires 0 <= i < |parts| =>
      Seen(parts[i].col, Width(f, parts[i].text), parts[i].col > 0 || parts[i].line > 0 || TAB in row || VT in row))
  }

  function SeenOfRows(f: Decoder, rows: seq<seq<Byte>>): seq<Seen> {
    if rows == [] then [] else SeenOfRows(f, rows[..|rows| - 1]) + SeenOfRow(f, rows[|rows| - 1])
  }

  /** The last column there is, of those that are looked at. */
  function LastColumn(s: seq<Seen>): (c: nat)
    ensures c < MAX_COLUMNS
  {
    if s == [] then 0
    else
      var c, p := LastColumn(s[..|s| - 1]), s[|s| - 1];
      if p.col < MAX_COLUMNS then Max(c, p.col) else c
  }

  /** The widest part of a column among those that count and are narrower than the threshold. */
  function Widest(s: seq<Seen>, threshold: nat, c: nat): (w: nat)
    ensures w < threshold || w == 0
  {
    if s == [] then 0
    else
      var w, p := Widest(s[..|s| - 1], threshold, c), s[|s| - 1];
      if Fits(p, threshold, c) then Max(w, p.width) else w
  }

  lemma {:induction false} WidestIs(s: seq<Seen>, threshold: nat, c: nat)
    ensures var w := Widest(s, threshold, c);
      && (forall i :: 0 <= i < |s| && Fits(s[i], threshold, c) ==> s[i].width <= w)
      && (w > 0 ==> exists i :: 0 <= i < |s| && Fits(s[i], threshold, c) && s[i].width == w)
  {
    if s != [] {
      WidestIs(s[..|s| - 1], threshold, c);
      assert forall i :: 0 <= i < |s| - 1 ==> s[i] == s[..|s| - 1][i];
    }
  }

  predicate Fits(p: Seen, threshold: nat, c: nat) {
    p.col == c && p.counts && p.width < threshold
  }

  function Sum(w: seq<nat>): nat {
    if w == [] then 0 else Sum(w[..|w| - 1]) + w[|w| - 1]
  }

  function Widths(s: seq<Seen>, threshold: nat): (w: seq<nat>)
    ensures |w| == MAX_COLUMNS && forall c :: 0 <= c < MAX_COLUMNS ==> w[c] == Widest(s, threshold, c)
  {
    seq(MAX_COLUMNS, c requires 0 <= c => Widest(s, threshold, c))
  }

  /** The screen columns left of the last column. */
  function LeftWidth(s: seq<Seen>, threshold: nat): nat {
    Sum(Widths(s, threshold)[..LastColumn(s)])
  }

  /** The best threshold: it makes the columns fit, and no higher one does. */
  ghost predicate Best(s: seq<Seen>, width: nat, threshold: nat) {
    && threshold <= WIDEST && LeftWidth(s, threshold) <= width
    && forall t :: threshold < t <= WIDEST ==> LeftWidth(s, t) > width
  }

  lemma BestIsUnique(s: seq<Seen>, width: nat, t: nat, u: nat)
    requires Best(s, width, t) && Best(s, width, u)
    ensures t == u
  {
  }

  /** The column widths under the best threshold. */
  ghost predicate Fitted(s: seq<Seen>, width: nat, colWidth: seq<nat>) {
    exists threshold :: Best(s, width, threshold) && colWidth == Widths(s, threshold)
  }

  /** A part that is left out of the column widths would, together with all narrower ones, not fit. */
  lemma LeftOutDoesNotFit(s: seq<Seen>, width: nat, t: nat, i: nat)
    requires Best(s, width, t) && i < |s| && t <= s[i].width < WIDEST
    ensures LeftWidth(s, s[i].width + 1) > width
  {
  }

  // ---------------------------------------------------------------- why the search is right

  /** The widest of the columns left of the last one. */
  function WidestLeft(w: seq<nat>): (m: nat)
    ensures forall c :: 0 <= c < |w| ==> w[c] <= m
    ensures m > 0 ==> exists c :: 0 <= c < |w| && w[c] == m
  {
    if w == [] then 0 else
      assert forall c :: 0 <= c < |w| - 1 ==> w[c] == w[..|w| - 1][c];
      Max(WidestLeft(w[..|w| - 1]), w[|w| - 1])
  }

  lemma {:induction false} SumIsPositive(w: seq<nat>)
    requires Sum(w) > 0
    ensures WidestLeft(w) > 0
  {
    if w[|w| - 1] == 0 { SumIsPositive(w[..|w| - 1]); }
  }

  /** Between the new threshold and the old one nothing changes. */
  lemma SameWidths(s: seq<Seen>, t: nat, u: nat, last: nat, c: nat)
    requires last <= MAX_COLUMNS && c < last
    requires WidestLeft(Widths(s, t)[..last]) < u <= t
    ensures Widest(s, u, c) == Widest(s, t, c)
  {
    var w, v := Widest(s, t, c), Widest(s, u, c);
    assert w == Widths(s, t)[..last][c];
    WidestIs(s, t, c);
    WidestIs(s, u, c);
    if w > 0 {
      var i :| 0 <= i < |s| && Fits(s[i], t, c) && s[i].width == w;
      assert Fits(s[i], u, c);
    }
    if v > 0 {
      var j :| 0 <= j < |s| && Fits(s[j], u, c) && s[j].width == v;
      assert Fits(s[j], t, c);
    }
  }

  /** If the columns do not fit, the widest left column is a smaller threshold, and none above it
      makes them fit. */
  lemma NextThreshold(s: seq<Seen>, width: nat, t: nat)
    requires LeftWidth(s, t) > width
    requires forall u :: t < u <= WIDEST ==> LeftWidth(s, u) > width
    ensures var next := WidestLeft(Widths(s, t)[..LastColumn(s)]);
      next < t && forall u :: next < u <= WIDEST ==> LeftWidth(s, u) > width
  {
    var next := WidestLeft(Widths(s, t)[..LastColumn(s)]);
    SumIsPositive(Widths(s, t)[..LastColumn(s)]);
    forall u: nat | next < u <= t
      ensures LeftWidth(s, u) > width
    {
      SameLeftWidth(s, t, u);
    }
  }

  lemma SameLeftWidth(s: seq<Seen>, t: nat, u: nat)
    requires WidestLeft(Widths(s, t)[..LastColumn(s)]) < u <= t
    ensures LeftWidth(s, u) == LeftWidth(s, t)
  {
    var last := LastColumn(s);
    forall c | 0 <= c < last
      ensures Widths(s, u)[..last][c] == Widths(s, t)[..last][c]
    {
      SameWidths(s, t, u, last, c);
    }
    assert Widths(s, u)[..last] == Widths(s, t)[..last];
  }

  lemma SeenSnoc(s: seq<Seen>, i: nat)
    requires i < |s|
    ensures s[..i + 1][..i] == s[..i] && s[..i + 1][i] == s[i]
  {
  }

  // ---------------------------------------------------------------- the search

  method UpMax(a: nat, b: nat) returns (m: nat)
    ensures m == Max(a, b)
  {
    m := if a < b then b else a;
  }

  /** One round: the widths of the columns under a threshold. */
  method Measure(s: seq<Seen>, threshold: nat, colWidth: array<nat>) returns (lastcolumn: nat)
    requires colWidth.Length == MAX_COLUMNS
    modifies colWidth
    ensures colWidth[..] == Widths(s, threshold) && lastcolumn == LastColumn(s)
  {
    lastcolumn := 0;
    forall c | 0 <= c < MAX_COLUMNS { colWidth[c] := 0; }
    assert s[..0] == [];
    var i := 0;
    while i < |s|
      invariant i <= |s| && lastcolumn == LastColumn(s[..i])
      invariant forall c :: 0 <= c < MAX_COLUMNS ==> colWidth[c] == Widest(s[..i], threshold, c)
    {
      SeenSnoc(s, i);
      if s[i].col < MAX_COLUMNS {
        lastcolumn := UpMax(lastcolumn, s[i].col);
        if s[i].width < threshold && s[i].counts {
          colWidth[s[i].col] := UpMax(colWidth[s[i].col], s[i].width);
        }
      }
      i := i + 1;
    }
    assert s[..i] == s;
  }

  /** The width left of the last column, and the widest column there. */
  method Total(colWidth: seq<nat>, lastcolumn: nat) returns (leftwidth: nat, threshold: nat)
    requires lastcolumn <= |colWidth|
    ensures leftwidth == Sum(colWidth[..lastcolumn]) && threshold == WidestLeft(colWidth[..lastcolumn])
  {
    leftwidth, threshold := 0, 0;
    var i := 0;
    while i < lastcolumn
      invariant i <= lastcolumn && leftwidth == Sum(colWidth[..i]) && threshold == WidestLeft(colWidth[..i])
    {
      assert colWidth[..i + 1][..i] == colWidth[..i];
      leftwidth := leftwidth + colWidth[i];
      threshold := UpMax(threshold, colWidth[i]);
      i := i + 1;
    }
  }

  method SeenIn(r: RowParts, ghost f: Decoder, ghost row: seq<Byte>) returns (s: seq<Seen>)
    requires ReadsRow(f, row, r)
    ensures s == SeenOfRow(f, row)
  {
    s := seq(|r.parts|, k requires 0 <= k < |r.parts| && |r.widths| == |r.parts| =>
      Seen(r.parts[k].col, r.widths[k], r.parts[k].col > 0 || r.parts[k].line > 0 || r.separated));
  }

  /** What the iterator shows of a table, as the layout sees it. */
  method ReadSeen(table: seq<seq<Byte>>, undefined: nat) returns (s: seq<Seen>)
    requires table != []
    ensures s == SeenOfRows(DecoderOf(undefined), Rows(table))
  {
    var rows := ReadTable(table, undefined);
    ghost var all, f := Rows(table), DecoderOf(undefined);
    s := [];
    var i := 0;
    while i < |rows|
      invariant i <= |rows| == |all| && s == SeenOfRows(f, all[..i])
    {
      var seen := SeenIn(rows[i], f, all[i]);
      OneMoreRow(f, all, i);
      s := s + seen;
      i := i + 1;
    }
    assert all[..i] == all;
  }

  lemma OneMoreRow(f: Decoder, rows: seq<seq<Byte>>, i: nat)
    requires i < |rows|
    ensures SeenOfRows(f, rows[..i + 1]) == SeenOfRows(f, rows[..i]) + SeenOfRow(f, rows[i])
  {
    assert rows[..i + 1][..i] == rows[..i];
  }

  /** The layout: column widths under the best threshold, and the tab stops in front of the columns. */
  datatype Layout = Layout(colWidth: seq<nat>, lastcolumn: nat, tabstop: seq<nat>)

  function ScreenWidth(width: int): (w: nat)
    ensures 1 <= w <= WIDEST && (1 <= width <= WIDEST ==> w == width)
  {
    if width < 1 then 80 else if width > WIDEST then WIDEST else width
  }

  /** Measures the table until the columns left of the last one fit. */
  method ColumnWidths(table: seq<seq<Byte>>, undefined: nat, width: nat)
    returns (colWidth: seq<nat>, lastcolumn: nat)
    requires table != [] && 1 <= width
    ensures var s := SeenOfRows(DecoderOf(undefined), Rows(table));
      Fitted(s, width, colWidth) && lastcolumn == LastColumn(s)
  {
    ghost var s := SeenOfRows(DecoderOf(undefined), Rows(table));
    var overlong: nat := WIDEST;
    var widths := new nat[MAX_COLUMNS];
    while true
      invariant overlong <= WIDEST && fresh(widths)
      invariant forall t: nat :: overlong < t <= WIDEST ==> LeftWidth(s, t) > width
      decreases overlong
    {
      var seen := ReadSeen(table, undefined);
      ghost var threshold := overlong;
      lastcolumn := Measure(seen, overlong, widths);
      colWidth := widths[..];
      var leftwidth;
      leftwidth, overlong := Total(colWidth, lastcolumn);
      if leftwidth <= width {
        assert Best(s, width, threshold);
        return;
      }
      NextThreshold(s, width, threshold);
    }
  }

  /** The positions of the columns. */
  method TabStops(colWidth: seq<nat>) returns (tabstop: seq<nat>)
    requires |colWidth| == MAX_COLUMNS
    ensures |tabstop| == MAX_COLUMNS && forall i :: 0 <= i < MAX_COLUMNS ==> tabstop[i] == Sum(colWidth[..i])
  {
    tabstop := [0];
    while |tabstop| < MAX_COLUMNS
      invariant 1 <= |tabstop| <= MAX_COLUMNS
      invariant forall i :: 0 <= i < |tabstop| ==> tabstop[i] == Sum(colWidth[..i])
      decreases MAX_COLUMNS - |tabstop|
    {
      var i := |tabstop|;
      assert colWidth[..i][..i - 1] == colWidth[..i - 1];
      tabstop := tabstop + [tabstop[i - 1] + colWidth[i - 1]];
    }
  }

  lemma {:induction false} SumGrows(w: seq<nat>, i: nat, j: nat)
    requires i <= j <= |w|
    ensures Sum(w[..i]) <= Sum(w[..j])
  {
    if i < j {
      SumGrows(w, i, j - 1);
      assert w[..j][..j - 1] == w[..j - 1];
    }
  }

  lemma StopsAddUp(colWidth: seq<nat>, tabstop: seq<nat>)
    requires |colWidth| == |tabstop| && forall i :: 0 <= i < |tabstop| ==> tabstop[i] == Sum(colWidth[..i])
    ensures tabstop != [] ==> tabstop[0] == 0
    ensures forall i :: 0 <= i < |tabstop| - 1 ==> tabstop[i + 1] == tabstop[i] + colWidth[i]
    ensures forall i, j :: 0 <= i <= j < |tabstop| ==> tabstop[i] <= tabstop[j]
  {
    forall i | 0 <= i < |tabstop| - 1
      ensures tabstop[i + 1] == tabstop[i] + colWidth[i]
    {
      assert colWidth[..i + 1][..i] == colWidth[..i];
    }
    forall i, j | 0 <= i <= j < |tabstop|
      ensures tabstop[i] <= tabstop[j]
    {
      SumGrows(colWidth, i, j);
    }
  }

  lemma FittedFits(s: seq<Seen>, width: nat, colWidth: seq<nat>)
    requires Fitted(s, width, colWidth)
    ensures |colWidth| == MAX_COLUMNS && Sum(colWidth[..LastColumn(s)]) <= width
  {
  }

  lemma WiderThreshold(s: seq<Seen>, t: nat, u: nat, c: nat)
    requires t <= u
    ensures Widest(s, t, c) <= Widest(s, u, c)
  {
    WidestIs(s, t, c);
    WidestIs(s, u, c);
    assert forall i :: 0 <= i < |s| && Fits(s[i], t, c) ==> Fits(s[i], u, c);
  }

  /** The widths are those of some threshold, and no threshold that fits makes any column wider. */
  lemma FittedIsGreatest(s: seq<Seen>, width: nat, colWidth: seq<nat>)
    requires Fitted(s, width, colWidth)
    ensures exists t: nat :: t <= 10000 && colWidth == Widths(s, t)
    ensures forall t: nat, c: nat :: t <= 10000 && Sum(Widths(s, t)[..LastColumn(s)]) <= width && c < 8 ==>
      Widths(s, t)[c] <= colWidth[c]
  {
    var best :| Best(s, width, best) && colWidth == Widths(s, best);
    forall t: nat, c: nat | t <= 10000 && Sum(Widths(s, t)[..LastColumn(s)]) <= width && c < 8
      ensures Widths(s, t)[c] <= colWidth[c]
    {
      assert LeftWidth(s, t) <= width;
      WiderThreshold(s, t, best, c);
    }
  }

  /** The layout of a table on a screen: the best widths; tab stops do not decrease, and the last
      column starts within the screen. */
  method LayOut(table: seq<seq<Byte>>, undefined: nat, screen: int) returns (l: Layout)
    requires table != []
    ensures var s := SeenOfRows(DecoderOf(undefined), Rows(table));
      Fitted(s, ScreenWidth(screen), l.colWidth) && l.lastcolumn == LastColumn(s)
    ensures |l.colWidth| == |l.tabstop| == 8 && l.tabstop[0] == 0
    ensures forall i :: 0 <= i < 7 ==> l.tabstop[i + 1] == l.tabstop[i] + l.colWidth[i]
    ensures forall i, j :: 0 <= i <= j < 8 ==> l.tabstop[i] <= l.tabstop[j]
    ensures l.tabstop[l.lastcolumn] <= if screen < 1 then 80 else if screen > 10000 then 10000 else screen
    ensures var s := SeenOfRows(DecoderOf(undefined), Rows(table));
      var w := if screen < 1 then 80 else if screen > 10000 then 10000 else screen;
      && (exists t: nat :: t <= 10000 && l.colWidth == Widths(s, t))
      && forall t: nat, c: nat :: t <= 10000 && Sum(Widths(s, t)[..LastColumn(s)]) <= w && c < 8 ==>
           Widths(s, t)[c] <= l.colWidth[c]
  {
    var colWidth, lastcolumn := ColumnWidths(table, undefined, ScreenWidth(screen));
    FittedFits(SeenOfRows(DecoderOf(undefined), Rows(table)), ScreenWidth(screen), colWidth);
    FittedIsGreatest(SeenOfRows(DecoderOf(undefined), Rows(table)), ScreenWidth(screen), colWidth);
    var tabstop := TabStops(colWidth);
    StopsAddUp(colWidth, tabstop);
    l := Layout(colWidth, lastcolumn, tabstop);
  }
}
