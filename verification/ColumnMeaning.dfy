/**
 What the column widths of a table are, in terms of its rows and their bytes: rows without bytes 9
 and 11 are interjections and do not count; all other rows do, with all their parts.
 */
module ColumnMeaning {
  import opened Bytes
  import opened DisplayWidth
  import opened TableSpec
  import opened TableMeaning
  import opened UsageColumns
  import opened LinePartIterator

  lemma WidestSnoc(s: seq<Seen>, p: Seen, t: nat, c: nat)
    ensures Widest(s + [p], t, c) == if Fits(p, t, c) then Max(Widest(s, t, c), p.width) else Widest(s, t, c)
  {
    assert (s + [p])[..|s|] == s;
  }

  lemma {:induction false} WidestConcat(a: seq<Seen>, b: seq<Seen>, t: nat, c: nat)
    ensures Widest(a + b, t, c) == Max(Widest(a, t, c), Widest(b, t, c))
  {
    if b == [] {
      assert a + b == a;
    } else {
      var b', p := b[..|b| - 1], b[|b| - 1];
      WidestConcat(a, b', t, c);
      assert a + b == a + b' + [p] && b == b' + [p];
      WidestSnoc(a + b', p, t, c);
      WidestSnoc(b', p, t, c);
    }
  }

  lemma {:induction false} LastConcat(a: seq<Seen>, b: seq<Seen>)
    ensures LastColumn(a + b) == Max(LastColumn(a), LastColumn(b))
  {
    if b == [] {
      assert a + b == a;
    } else {
      LastConcat(a, b[..|b| - 1]);
      assert (a + b)[..|a + b| - 1] == a + b[..|b| - 1];
    }
  }

  lemma {:induction false} SeenConcat(f: Decoder, a: seq<seq<Byte>>, b: seq<seq<Byte>>)
    ensures SeenOfRows(f, a + b) == SeenOfRows(f, a) + SeenOfRows(f, b)
  {
    if b == [] {
      assert a + b == a && SeenOfRows(f, a) + [] == SeenOfRows(f, a);
    } else {
      var n := |b| - 1;
      SeenConcat(f, a, b[..n]);
      assert (a + b)[..|a + b| - 1] == a + b[..n] && (a + b)[|a + b| - 1] == b[n];
      Associative(SeenOfRows(f, a), SeenOfRows(f, b[..n]), SeenOfRow(f, b[n]));
    }
  }

  lemma SeenOne(f: Decoder, row: seq<Byte>)
    ensures SeenOfRows(f, [row]) == SeenOfRow(f, row)
  {
    assert [row][..0] == [] && [] + SeenOfRow(f, row) == SeenOfRow(f, row);
  }

  lemma SeenInMiddle(f: Decoder, before: seq<seq<Byte>>, row: seq<Byte>, after: seq<seq<Byte>>)
    ensures SeenOfRows(f, before + [row] + after) == SeenOfRows(f, before) + SeenOfRow(f, row) + SeenOfRows(f, after)
  {
    SeenConcat(f, before + [row], after);
    SeenConcat(f, before, [row]);
    SeenOne(f, row);
  }

  /** An interjection changes no column width, whatever the threshold and wherever it stands, and does not change
      which column is the last. */
  lemma InterjectionsDoNotCount(f: Decoder, before: seq<seq<Byte>>, row: seq<Byte>, after: seq<seq<Byte>>,
                                threshold: nat, c: nat)
    requires 9 !in row && 10 !in row && 11 !in row
    ensures Widest(SeenOfRows(f, before + [row] + after), threshold, c) ==
      Widest(SeenOfRows(f, before + after), threshold, c)
    ensures LastColumn(SeenOfRows(f, before + [row] + after)) == LastColumn(SeenOfRows(f, before + after))
  {
    SeenInMiddle(f, before, row, after);
    SeenConcat(f, before, after);
    OneCell(row);
    assert SeenOfRow(f, row) == [Seen(0, Width(f, row), false)];
    SilentInMiddle(SeenOfRows(f, before), Width(f, row), SeenOfRows(f, after), threshold, c);
  }

  lemma SilentInMiddle(a: seq<Seen>, w: nat, b: seq<Seen>, t: nat, c: nat)
    ensures Widest(a + [Seen(0, w, false)] + b, t, c) == Widest(a + b, t, c)
    ensures LastColumn(a + [Seen(0, w, false)] + b) == LastColumn(a + b)
  {
    var p := Seen(0, w, false);
    WidestSnoc(a, p, t, c);
    WidestConcat(a + [p], b, t, c);
    WidestConcat(a, b, t, c);
    assert (a + [p])[..|a|] == a;
    LastConcat(a + [p], b);
    LastConcat(a, b);
  }

  /** In every other row each part that is narrower than the threshold is at most as wide as its column. */
  lemma PartsAreCovered(f: Decoder, rows: seq<seq<Byte>>, i: nat, k: nat, threshold: nat)
    requires i < |rows| && (9 in rows[i] || 11 in rows[i]) && k < |Transposed(rows[i])|
    requires Width(f, Transposed(rows[i])[k].text) < threshold
    ensures Width(f, Transposed(rows[i])[k].text) <= Widest(SeenOfRows(f, rows), threshold, Transposed(rows[i])[k].col)
  {
    var row, c := rows[i], Transposed(rows[i])[k].col;
    var a, s, b := SeenOfRows(f, rows[..i]), SeenOfRow(f, row), SeenOfRows(f, rows[i + 1..]);
    assert rows == rows[..i] + [row] + rows[i + 1..];
    SeenInMiddle(f, rows[..i], row, rows[i + 1..]);
    WidestConcat(a, s, threshold, c);
    WidestConcat(a + s, b, threshold, c);
    WidestIs(s, threshold, c);
    assert Fits(s[k], threshold, c);
  }

  /** Part `k` of row `i` is in column `c`, counts, and is `w` columns wide. */
  ghost predicate PartWidth(f: Decoder, rows: seq<seq<Byte>>, i: nat, k: nat, c: nat, w: nat) {
    && i < |rows| && (9 in rows[i] || 11 in rows[i]) && k < |Transposed(rows[i])|
    && Transposed(rows[i])[k].col == c && Width(f, Transposed(rows[i])[k].text) == w
  }

  /** And a column is no wider than one of those parts. */
  lemma {:induction false} WidestIsPart(f: Decoder, rows: seq<seq<Byte>>, threshold: nat, c: nat)
    returns (i: nat, k: nat)
    requires Widest(SeenOfRows(f, rows), threshold, c) > 0
    requires forall j :: 0 <= j < |rows| ==> 10 !in rows[j]
    ensures var w := Widest(SeenOfRows(f, rows), threshold, c); w < threshold && PartWidth(f, rows, i, k, c, w)
  {
    var n := |rows| - 1;
    var s := SeenOfRow(f, rows[n]);
    WidestConcat(SeenOfRows(f, rows[..n]), s, threshold, c);
    if Widest(s, threshold, c) == Widest(SeenOfRows(f, rows), threshold, c) {
      i := n;
      WidestIs(s, threshold, c);
      k :| k < |s| && Fits(s[k], threshold, c) && s[k].width == Widest(s, threshold, c);
      if 9 !in rows[n] && 11 !in rows[n] {
        OneCell(rows[n]);
        assert false;
      }
    } else {
      i, k := WidestIsPart(f, rows[..n], threshold, c);
    }
  }

  /** Every part in one of the first eight columns is in the last column or to the left of it. */
  lemma PartsAreLeft(f: Decoder, rows: seq<seq<Byte>>, i: nat, k: nat)
    requires i < |rows| && k < |Transposed(rows[i])| && Transposed(rows[i])[k].col < 8
    ensures Transposed(rows[i])[k].col <= LastColumn(SeenOfRows(f, rows))
  {
    var a, s, b := SeenOfRows(f, rows[..i]), SeenOfRow(f, rows[i]), SeenOfRows(f, rows[i + 1..]);
    assert rows == rows[..i] + [rows[i]] + rows[i + 1..];
    SeenInMiddle(f, rows[..i], rows[i], rows[i + 1..]);
    LastConcat(a, s);
    LastConcat(a + s, b);
    AtMostLast(s, k);
  }

  lemma {:induction false} AtMostLast(s: seq<Seen>, k: nat)
    requires k < |s| && s[k].col < 8
    ensures s[k].col <= LastColumn(s)
  {
    if k < |s| - 1 { AtMostLast(s[..|s| - 1], k); }
  }

  /** Some part is in the last column, unless that is the first. */
  lemma {:induction false} LastIsPart(f: Decoder, rows: seq<seq<Byte>>) returns (i: nat, k: nat)
    requires LastColumn(SeenOfRows(f, rows)) > 0
    ensures i < |rows| && k < |Transposed(rows[i])| && Transposed(rows[i])[k].col == LastColumn(SeenOfRows(f, rows)) < 8
  {
    var n := |rows| - 1;
    var s := SeenOfRow(f, rows[n]);
    LastConcat(SeenOfRows(f, rows[..n]), s);
    if LastColumn(s) == LastColumn(SeenOfRows(f, rows)) {
      i := n;
      k := LastAttained(s);
    } else {
      i, k := LastIsPart(f, rows[..n]);
    }
  }

  lemma {:induction false} LastAttained(s: seq<Seen>) returns (k: nat)
    requires LastColumn(s) > 0
    ensures k < |s| && s[k].col == LastColumn(s)
  {
    var n := |s| - 1;
    if s[n].col == LastColumn(s) { k := n; } else { k := LastAttained(s[..n]); }
  }
}
