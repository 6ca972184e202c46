/**
 Wrapping text to a column: where one line ends, and what all the lines of a text give back.
 This is the specification the ring-buffered LineWrapper is proved against.
 */
module LineWrapping {
  import opened Bytes
  import opened DisplayWidth

  const SPACE: Byte := 32
  const NEWLINE: Byte := 10

  /** One output line, and whether a space was dropped behind it. */
  datatype Chunk = Chunk(text: seq<Byte>, spaceDropped: bool)

  /** End of the longest prefix of whole characters, from the boundary `n` on, that fits. */
  function FitFrom(s: seq<Byte>, n: nat, used: nat, width: nat, f: Decoder): (m: nat)
    requires n <= |s|
    ensures n <= m <= |s|
    decreases |s| - n
  {
    if n == |s| || used >= width then n else
      var c := f(s[n..]);
      if used + c.width > width || !(1 <= c.length <= |s| - n) then n
      else FitFrom(s, n + c.length, used + c.width, width, f)
  }

  function Fit(s: seq<Byte>, width: nat, f: Decoder): (m: nat)
    ensures m <= |s|
  {
    FitFrom(s, 0, 0, width, f)
  }

  /** The last space at or before position `i`, or -1. */
  function LastSpace(s: seq<Byte>, i: int): (k: int)
    requires -1 <= i < |s|
    ensures -1 <= k <= i && (k >= 0 ==> s[k] == SPACE)
    ensures forall j :: k < j <= i ==> s[j] != SPACE
    decreases i + 1
  {
    if i < 0 || s[i] == SPACE then i else LastSpace(s, i - 1)
  }

  /** The next line of `s`: everything if it fits, or else up to the last space that leaves the
      line short enough, or else as many characters as fit. */
  function NextChunk(s: seq<Byte>, width: nat, f: Decoder): (c: Chunk)
    ensures |c.text| <= |s|
    ensures c.spaceDropped ==> |c.text| < |s|
  {
    var m := Fit(s, width, f);
    if |s| <= width || m == |s| then Chunk(s, false) else
      var k := LastSpace(s, m);
      if k >= 0 then Chunk(s[..k], true) else Chunk(s[..m], false)
  }

  function Consumed(c: Chunk): nat {
    |c.text| + if c.spaceDropped then 1 else 0
  }

  /** The text that lines came from: the dropped spaces are put back. */
  function Rejoin(cs: seq<Chunk>): seq<Byte> {
    if cs == [] then [] else Source(cs[0]) + Rejoin(cs[1..])
  }

  /** The text of one line, with the space (byte 32) dropped behind it. */
  function Source(c: Chunk): seq<Byte> {
    c.text + if c.spaceDropped then [32] else []
  }

  ghost predicate AllFit(cs: seq<Chunk>, width: nat, f: Decoder) {
    forall i :: 0 <= i < |cs| ==> Width(f, cs[i].text) <= width
  }

  // ---------------------------------------------------------------- the fitting prefix

  /** `m` ends the longest prefix of whole characters that is at most `width` wide. */
  ghost predicate Longest(s: seq<Byte>, m: nat, width: nat, f: Decoder) {
    && Boundary(f, s, m) && m <= |s| && Width(f, s[..m]) <= width
    && (m < |s| ==> Width(f, s[..m]) + f(s[m..]).width > width)
  }

  lemma OneCharMore(s: seq<Byte>, n: nat, f: Decoder)
    requires Proper(f) && Boundary(f, s, n) && n < |s|
    ensures var c := f(s[n..]); var m := n + c.length;
      && 1 <= c.length <= |s| - n && 1 <= c.width && Boundary(f, s, m)
      && Width(f, s[..m]) == Width(f, s[..n]) + c.width
  {
    NextBoundary(f, s, n, n + f(s[n..]).length);
    WidthOfNext(f, s, n);
  }

  lemma {:induction false} FitFromIsLongest(s: seq<Byte>, n: nat, used: nat, width: nat, f: Decoder)
    requires Proper(f) && Boundary(f, s, n) && n <= |s| && used == Width(f, s[..n]) <= width
    ensures Longest(s, FitFrom(s, n, used, width, f), width, f)
    decreases |s| - n
  {
    if n < |s| {
      var c := f(s[n..]);
      OneCharMore(s, n, f);
      if used + c.width <= width {
        FitFromIsLongest(s, n + c.length, used + c.width, width, f);
      }
    }
  }

  lemma FitIsLongest(s: seq<Byte>, width: nat, f: Decoder)
    requires Proper(f)
    ensures var m := Fit(s, width, f);
      && Longest(s, m, width, f)
      && (2 <= width && s != [] ==> 1 <= m)
  {
    FitFromIsLongest(s, 0, 0, width, f);
    if s != [] { assert s[0..] == s; }
  }

  /** A prefix that ends in front of a space within the fitting prefix is not too wide either. */
  lemma ShorterFits(s: seq<Byte>, k: nat, m: nat, f: Decoder)
    requires Proper(f) && k <= m < |s| && Boundary(f, s, m) && s[k] == SPACE
    ensures Width(f, s[..k]) <= Width(f, s[..m])
  {
    PlainByteIsBoundary(f, s, k);
    BoundaryOfPrefix(f, s, k, m);
    WidthAtBoundary(f, s[..m], k);
    assert s[..m][..k] == s[..k];
  }

  /** `c` is a proper first line of `s`: it consumes something, is not too wide, and puts back the text it came
      from. It is the whole text if that fits; otherwise it ends at the last space (byte 32) that leaves it
      short enough, or if there is none, where no further character fits. */
  ghost predicate ProperLine(s: seq<Byte>, c: Chunk, width: nat, f: Decoder) {
    && 1 <= Consumed(c) <= |s|
    && Width(f, c.text) <= width
    && Source(c) + s[Consumed(c)..] == s
    && (Width(f, s) <= width ==> c == Chunk(s, false))
    && (Width(f, s) > width ==>
          if c.spaceDropped then forall j :: |c.text| < j < |s| && s[j] == 32 ==> Width(f, s[..j]) > width
          else Longest(s, |c.text|, width, f) && forall j :: 0 <= j < |s| && s[j] == 32 ==> Width(f, s[..j]) > width)
  }

  /** What goes beyond the longest fitting prefix is too wide. */
  lemma BeyondIsWider(s: seq<Byte>, m: nat, width: nat, f: Decoder, j: nat)
    requires Proper(f) && Longest(s, m, width, f) && m < j <= |s| && (j == |s| || s[j] == 32)
    ensures Width(f, s[..j]) > width
  {
    var t := s[m..];
    var k := f(t).length;
    assert forall i :: 1 <= i < k ==> t[i] != 32;
    assert j < |s| ==> t[j - m] == s[j];
    BoundaryOfPrefix(f, s, m, j);
    WidthAtBoundary(f, s[..j], m);
    assert s[..j][..m] == s[..m] && s[..j][m..] == t[..j - m];
    assert f(t[..j - m]) == f(t);
  }

  lemma ProperAtSpace(s: seq<Byte>, k: nat, m: nat, width: nat, f: Decoder)
    requires Proper(f) && Longest(s, m, width, f) && k <= m < |s| && s[k] == 32 && Width(f, s[..k]) <= width
    requires forall i :: k < i <= m ==> s[i] != 32
    ensures ProperLine(s, Chunk(s[..k], true), width, f)
  {
    assert s == s[..k] + [s[k]] + s[k + 1..];
    BeyondIsWider(s, m, width, f, |s|);
    assert s[..|s|] == s;
    forall j | k < j < |s| && s[j] == 32
      ensures Width(f, s[..j]) > width
    {
      BeyondIsWider(s, m, width, f, j);
    }
  }

  lemma ProperHardBreak(s: seq<Byte>, m: nat, width: nat, f: Decoder)
    requires Proper(f) && Longest(s, m, width, f) && 1 <= m < |s|
    requires forall i :: 0 <= i <= m ==> s[i] != 32
    ensures ProperLine(s, Chunk(s[..m], false), width, f)
  {
    assert s[..m] + [] == s[..m] && s == s[..m] + s[m..];
    BeyondIsWider(s, m, width, f, |s|);
    assert s[..|s|] == s;
    forall j | 0 <= j < |s| && s[j] == 32
      ensures Width(f, s[..j]) > width
    {
      BeyondIsWider(s, m, width, f, j);
    }
  }

  /** With at least two columns every line is proper. */
  lemma NextChunkFits(s: seq<Byte>, width: nat, f: Decoder)
    requires Proper(f) && s != [] && 2 <= width
    ensures ProperLine(s, NextChunk(s, width, f), width, f)
  {
    var m := Fit(s, width, f);
    FitIsLongest(s, width, f);
    if |s| <= width || m == |s| {
      WidthAtMostLength(f, s);
      assert s[..|s|] == s;
      WholeIsProper(s, width, f);
    } else {
      var k := LastSpace(s, m);
      if k >= 0 {
        ShorterFits(s, k, m, f);
        ProperAtSpace(s, k, m, width, f);
      } else {
        ProperHardBreak(s, m, width, f);
      }
    }
  }

  lemma WholeIsProper(s: seq<Byte>, width: nat, f: Decoder)
    requires s != [] && Width(f, s) <= width
    ensures ProperLine(s, Chunk(s, false), width, f)
  {
    assert s + [] + s[|s|..] == s;
  }

  // ---------------------------------------------------------------- all lines of a text

  function Wrap(s: seq<Byte>, width: nat, f: Decoder): seq<Chunk>
    decreases |s|
  {
    if s == [] then [] else
      var c := NextChunk(s, width, f);
      if Consumed(c) == 0 then [c] else [c] + Wrap(s[Consumed(c)..], width, f)
  }

  /** Each line is proper for what is left of the text, up to its end. */
  ghost predicate AllProper(s: seq<Byte>, cs: seq<Chunk>, width: nat, f: Decoder)
    decreases |cs|
  {
    if s == [] then cs == []
    else cs != [] && ProperLine(s, cs[0], width, f) && AllProper(s[Consumed(cs[0])..], cs[1..], width, f)
  }

  /** The lines of a text, with the dropped spaces put back, are the text; none is too wide; and each is as
      long as it can be. */
  lemma {:induction false} WrapRejoins(s: seq<Byte>, width: nat, f: Decoder)
    requires Proper(f) && 2 <= width
    ensures Rejoin(Wrap(s, width, f)) == s && AllFit(Wrap(s, width, f), width, f)
    ensures AllProper(s, Wrap(s, width, f), width, f)
    decreases |s|
  {
    if s != [] {
      NextChunkFits(s, width, f);
      var c := NextChunk(s, width, f);
      WrapRejoins(s[Consumed(c)..], width, f);
      assert Wrap(s, width, f)[1..] == Wrap(s[Consumed(c)..], width, f);
    }
  }

  lemma {:induction false} RejoinConcat(a: seq<Chunk>, b: seq<Chunk>)
    ensures Rejoin(a + b) == Rejoin(a) + Rejoin(b)
  {
    if a == [] {
      assert a + b == b;
    } else {
      RejoinConcat(a[1..], b);
      RejoinCons(a[0], a[1..] + b, a + b);
      RejoinCons(a[0], a[1..], a);
      Associative(Source(a[0]), Rejoin(a[1..]), Rejoin(b));
    }
  }

  lemma Associative(x: seq<Byte>, y: seq<Byte>, z: seq<Byte>)
    ensures x + (y + z) == (x + y) + z
  {
  }

  lemma RejoinCons(c: Chunk, rest: seq<Chunk>, cs: seq<Chunk>)
    requires cs == [c] + rest
    ensures Rejoin(cs) == Source(c) + Rejoin(rest)
  {
    assert cs[1..] == rest;
  }
}
