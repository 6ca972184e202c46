/**
 The bytes that the line wrapper writes: where the text of each line stands on the screen, and what
 stands in between.
 */
module ScreenMeaning {
  import opened Bytes
  import opened DisplayWidth
  import opened LineWrapping
  import opened LineWrapper

  /** In front of column `x` stand `x` spaces, or one line break if the column is negative. */
  function GapLength(x: int): nat {
    if x < 0 then 1 else x
  }

  predicate Gap(out: seq<Byte>, at: nat, x: int) {
    at + GapLength(x) <= |out| && forall j :: at <= j < at + GapLength(x) ==> out[j] == if x < 0 then 10 else 32
  }

  predicate TextAt(out: seq<Byte>, at: nat, text: seq<Byte>) {
    at + |text| <= |out| && out[at..at + |text|] == text
  }

  /** Line `k` starts at `starts[k]`; behind its text comes one byte 10, then the gap, then the next line. */
  predicate LineAt(out: seq<Byte>, cs: seq<Chunk>, x: int, starts: seq<nat>, k: nat)
    requires k < |cs| == |starts|
  {
    var end := starts[k] + |cs[k].text|;
    && TextAt(out, starts[k], cs[k].text)
    && if k + 1 == |cs| then end == |out|
       else end < |out| && out[end] == 10 && Gap(out, end + 1, x) && starts[k + 1] == end + 1 + GapLength(x)
  }

  /** The output is those lines, the first of them without a gap in front. */
  ghost predicate Printed(out: seq<Byte>, cs: seq<Chunk>, x: int, starts: seq<nat>) {
    && |starts| == |cs| && (cs == [] ==> out == []) && (cs != [] ==> starts[0] == 0)
    && forall k :: 0 <= k < |cs| ==> LineAt(out, cs, x, starts, k)
  }

  lemma GapIs(x: int, out: seq<Byte>, more: seq<Byte>)
    ensures |Indentation(x)| == GapLength(x) && Gap(out + Indentation(x) + more, |out|, x)
  {
    var s := out + Indentation(x) + more;
    assert forall j :: |out| <= j < |out| + GapLength(x) ==> s[j] == Indentation(x)[j - |out|];
  }

  lemma StillThere(out: seq<Byte>, more: seq<Byte>, at: nat, text: seq<Byte>, x: int)
    ensures TextAt(out, at, text) ==> TextAt(out + more, at, text)
    ensures Gap(out, at, x) ==> Gap(out + more, at, x)
  {
    if TextAt(out, at, text) { assert (out + more)[at..at + |text|] == out[at..at + |text|]; }
  }

  /** One more line. */
  lemma PrintedSnoc(out: seq<Byte>, cs: seq<Chunk>, x: int, starts: seq<nat>, c: Chunk)
    requires Printed(out, cs, x, starts) && cs != []
    ensures Printed(out + ([10] + Indentation(x) + c.text), cs + [c], x, starts + [|out| + 1 + GapLength(x)])
  {
    var more := [10] + Indentation(x) + c.text;
    var z, starts' := out + more, starts + [|out| + 1 + GapLength(x)];
    GapIs(x, out + [10], c.text);
    assert z == out + [10] + Indentation(x) + c.text;
    assert TextAt(z, |out| + 1 + GapLength(x), c.text);
    forall k | 0 <= k < |cs| + 1
      ensures LineAt(z, cs + [c], x, starts', k)
    {
      if k < |cs| {
        assert LineAt(out, cs, x, starts, k);
        StillThere(out, more, starts[k], cs[k].text, x);
        StillThere(out, more, starts[k] + |cs[k].text| + 1, [], x);
      }
    }
  }

  /** What is written of some lines that follow each other on the screen. */
  lemma {:induction false} WrittenLines(cs: seq<Chunk>, x: int) returns (starts: seq<nat>)
    ensures Printed(Emit(cs, x, false), cs, x, starts)
  {
    if cs == [] {
      starts := [];
    } else {
      var n := |cs| - 1;
      starts := WrittenLines(cs[..n], x);
      EmitSnoc(cs[..n], cs[n], x, false);
      assert cs == cs[..n] + [cs[n]];
      if n == 0 {
        starts := [0];
        FirstLine(cs, x);
      } else {
        var out := Emit(cs[..n], x, false);
        PrintedSnoc(out, cs[..n], x, starts, cs[n]);
        assert out + [10] + Indentation(x) + cs[n].text == out + ([10] + Indentation(x) + cs[n].text);
        assert out + ([10] + Indentation(x)) + cs[n].text == out + ([10] + Indentation(x) + cs[n].text);
        starts := starts + [|out| + 1 + GapLength(x)];
      }
    }
  }

  lemma FirstLine(cs: seq<Chunk>, x: int)
    requires |cs| == 1
    ensures Printed(Emit(cs, x, false), cs, x, [0])
  {
    var out := Emit(cs, x, false);
    assert cs[1..] == [] && Emit(cs[1..], x, true) == [];
    assert out == cs[0].text && out[0..|out|] == out;
    assert LineAt(out, cs, x, [0], 0);
  }

  // ---------------------------------------------------------------- a whole session

  function AllOf(groups: seq<seq<Chunk>>): seq<Chunk> {
    if groups == [] then [] else AllOf(groups[..|groups| - 1]) + groups[|groups| - 1]
  }

  /** A piece of output is those lines. */
  ghost predicate IsPiece(out: seq<Byte>, cs: seq<Chunk>, x: int) {
    exists starts :: Printed(out, cs, x, starts)
  }

  /** Each text makes the wrapper write some of the lines that are due, in one piece. */
  ghost predicate Pieces(pieces: seq<seq<Byte>>, groups: seq<seq<Chunk>>, x: int) {
    |pieces| == |groups| && forall i :: 0 <= i < |pieces| ==> IsPiece(pieces[i], groups[i], x)
  }

  lemma PiecesSnoc(pieces: seq<seq<Byte>>, groups: seq<seq<Chunk>>, x: int, piece: seq<Byte>, group: seq<Chunk>)
    requires Pieces(pieces, groups, x) && IsPiece(piece, group, x)
    ensures Pieces(pieces + [piece], groups + [group], x)
    ensures Flatten(pieces + [piece]) == Flatten(pieces) + piece && AllOf(groups + [group]) == AllOf(groups) + group
  {
    assert (pieces + [piece])[..|pieces|] == pieces && (groups + [group])[..|groups|] == groups;
  }

  lemma SomePiece(cs: seq<Chunk>, x: int)
    ensures IsPiece(Emit(cs, x, false), cs, x)
  {
    var starts := WrittenLines(cs, x);
  }

  lemma {:induction false} SessionIs(texts: seq<seq<Byte>>, x: int, width: nat, f: Decoder)
    returns (pieces: seq<seq<Byte>>, groups: seq<seq<Chunk>>)
    ensures |pieces| == |texts| && Pieces(pieces, groups, x) && Flatten(pieces) == Session(texts, x, width, f).out
    ensures AllOf(groups) + Session(texts, x, width, f).held == AllLines(texts, width, f)
  {
    pieces, groups := [], [];
    if texts == [] {
      assert AllOf([]) + [] == [];
    } else {
      var n := |texts| - 1;
      var before := Session(texts[..n], x, width, f);
      var all := before.held + Wrap(texts[n], width, f);
      var k := WrittenOut(|all|);
      pieces, groups := SessionIs(texts[..n], x, width, f);
      SomePiece(all[..k], x);
      Cut(AllOf(groups), before.held, Wrap(texts[n], width, f), k);
      PiecesSnoc(pieces, groups, x, Emit(all[..k], x, false), all[..k]);
      pieces, groups := pieces + [Emit(all[..k], x, false)], groups + [all[..k]];
    }
  }

  lemma Cut(a: seq<Chunk>, b: seq<Chunk>, c: seq<Chunk>, k: nat)
    requires k <= |b + c|
    ensures a + (b + c)[..k] + (b + c)[k..] == a + b + c
  {
  }

  /** The whole output: a piece for each text, and then the lines left, with a gap in front of the first as
      well, and one byte 10 behind the last. All lines are there, in order. */
  lemma WholeOutput(texts: seq<seq<Byte>>, x: int, width: nat, f: Decoder)
    returns (pieces: seq<seq<Byte>>, groups: seq<seq<Chunk>>, last: seq<Chunk>, body: seq<Byte>, starts: seq<nat>)
    ensures |pieces| == |texts| && Pieces(pieces, groups, x) && AllOf(groups) + last == AllLines(texts, width, f)
    ensures Printed(body, last, x, starts)
    ensures var out := Flushed(Session(texts, x, width, f), x); var n := |Flatten(pieces)|;
      && n <= |out| && out[..n] == Flatten(pieces)
      && if last == [] then n == |out|
         else Gap(out, n, x) && out[n + GapLength(x)..] == body + [10]
  {
    var s := Session(texts, x, width, f);
    pieces, groups := SessionIs(texts, x, width, f);
    last := s.held;
    starts := WrittenLines(last, x);
    body := Emit(last, x, false);
    if last != [] {
      var out := Flushed(s, x);
      GapIs(x, s.out, body + [10]);
      assert out == s.out + Indentation(x) + (body + [10]);
    }
  }
}
