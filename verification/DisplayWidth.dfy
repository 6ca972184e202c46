/**
 Characters and their width on the screen, as the usage formatter decodes them: a start byte
 takes all continuation bytes behind it, everything else is a character of its own. Malformed
 text is decoded as well, with the code point wrapped to 32 bits.
 */
module DisplayWidth {
  import opened Bolts
  import opened Bytes

  predicate IsContinuation(b: Byte) {
    0x80 <= b <= 0xBF
  }

  /** Payload of a start byte: its length bits are masked off. For 0xFF the mask is undefined in the
      source; `undefined` is whatever the machine makes of it. */
  function StartPayload(b: Byte, undefined: nat): nat {
    var x := 0xFF - b;
    if x == 0 then undefined % 64
    else b % (if x < 2 then 2 else if x < 4 then 4 else if x < 8 then 8 else if x < 16 then 16 else if x < 32 then 32
              else 64)
  }

  /** The number of continuation bytes at the start of `s`. */
  function Continuations(s: seq<Byte>): (n: nat)
    ensures n <= |s|
  {
    if s == [] || !IsContinuation(s[0]) then 0 else 1 + Continuations(s[1..])
  }

  lemma {:induction false} ContinuationsAre(s: seq<Byte>)
    ensures forall i :: 0 <= i < Continuations(s) ==> IsContinuation(s[i])
  {
    if s != [] && IsContinuation(s[0]) {
      ContinuationsAre(s[1..]);
      assert forall i :: 1 <= i < Continuations(s) ==> s[i] == s[1..][i - 1];
    }
  }

  /** The code point continued by the bytes `s`. */
  function Decode(code: nat, s: seq<Byte>): nat
    decreases |s|
  {
    if s == [] then code else Decode((code * 64 + s[0] % 64) % WORD, s[1..])
  }

  predicate IsWideChar(ch: nat) {
    && ch != 0x303F
    && (|| 0x1100 <= ch <= 0x115F || 0x2329 <= ch <= 0x232A || 0x2E80 <= ch <= 0xA4C6
        || 0xA960 <= ch <= 0xA97C || 0xAC00 <= ch <= 0xD7FB || 0xF900 <= ch <= 0xFAFF
        || 0xFE10 <= ch <= 0xFE6B || 0xFF01 <= ch <= 0xFF60 || 0xFFE0 <= ch <= 0xFFE6
        || 0x1B000 <= ch)
  }

  /** The bytes of the first character. */
  function CharLength(s: seq<Byte>): (n: nat)
    requires s != []
    ensures 1 <= n <= |s|
  {
    if s[0] <= 0xC1 then 1 else 1 + Continuations(s[1..])
  }

  /** The screen columns of the first character. */
  function CharWidth(s: seq<Byte>, undefined: nat): (w: nat)
    requires s != []
    ensures 1 <= w <= 2
  {
    if s[0] > 0xC1 && IsWideChar(Decode(StartPayload(s[0], undefined), s[1..CharLength(s)])) then 2 else 1
  }

  // ---------------------------------------------------------------- any decoder

  /** A character: its bytes and its screen columns. */
  datatype Char = Char(length: nat, width: nat)

  /** Says which character a text starts with. */
  type Decoder = seq<Byte> -> Char

  /** The decoder of the formatter. */
  function DecoderOf(undefined: nat): Decoder {
    (s: seq<Byte>) => if s == [] then Char(1, 1) else Char(CharLength(s), CharWidth(s, undefined))
  }

  /** Characters are not empty and one or two columns wide, never wider than long; they do not
      depend on what follows them; and a byte that is not a continuation byte starts one. */
  ghost predicate Proper(f: Decoder) {
    && (forall s: seq<Byte> :: s != [] ==> 1 <= f(s).length <= |s| && 1 <= f(s).width <= 2 && f(s).width <= f(s).length)
    && (forall s: seq<Byte>, n: nat :: s != [] && f(s).length <= n <= |s| ==> f(s[..n]) == f(s))
    && (forall s: seq<Byte>, i: nat :: s != [] && 1 <= i < f(s).length <= |s| ==> IsContinuation(s[i]))
  }

  function Width(f: Decoder, s: seq<Byte>): nat
    decreases |s|
  {
    if s == [] || !(1 <= f(s).length <= |s|) then 0 else f(s).width + Width(f, s[f(s).length..])
  }

  /** A character starts, or the text ends, at position `n`. */
  predicate Boundary(f: Decoder, s: seq<Byte>, n: nat)
    decreases |s|
  {
    n == 0 || (s != [] && 1 <= f(s).length <= n <= |s| && Boundary(f, s[f(s).length..], n - f(s).length))
  }

  lemma DropDrop(s: seq<Byte>, k: nat, n: nat)
    requires k <= n <= |s|
    ensures s[k..][n - k..] == s[n..] && s[..n][k..] == s[k..][..n - k]
  {
  }

  /** Width adds up at a character boundary. */
  lemma {:induction false} WidthAtBoundary(f: Decoder, s: seq<Byte>, n: nat)
    requires Proper(f) && Boundary(f, s, n)
    ensures n <= |s| && Width(f, s) == Width(f, s[..n]) + Width(f, s[n..])
    decreases |s|
  {
    if n == 0 {
      assert s[..0] == [] && s[0..] == s;
    } else {
      var k := f(s).length;
      WidthAtBoundary(f, s[k..], n - k);
      DropDrop(s, k, n);
      assert f(s[..n]) == f(s);
    }
  }

  /** The character after a boundary ends at a boundary. */
  lemma {:induction false} NextBoundary(f: Decoder, s: seq<Byte>, n: nat, m: nat)
    requires Proper(f) && Boundary(f, s, n) && n < |s| && m == n + f(s[n..]).length
    ensures Boundary(f, s, m)
    decreases |s|
  {
    if n == 0 {
      assert s[0..] == s;
      assert Boundary(f, s[m..], 0);
    } else {
      var k := f(s).length;
      DropDrop(s, k, n);
      NextBoundary(f, s[k..], n - k, m - k);
    }
  }

  lemma {:induction false} BoundaryOfPrefix(f: Decoder, s: seq<Byte>, n: nat, m: nat)
    requires Proper(f) && Boundary(f, s, n) && n <= m <= |s|
    ensures Boundary(f, s[..m], n)
    decreases |s|
  {
    if n > 0 {
      var k := f(s).length;
      assert f(s[..m]) == f(s);
      BoundaryOfPrefix(f, s[k..], n - k, m - k);
      DropDrop(s, k, m);
    }
  }

  /** Extending a boundary prefix by the next character adds that character's width. */
  lemma WidthOfNext(f: Decoder, s: seq<Byte>, n: nat)
    requires Proper(f) && Boundary(f, s, n) && n < |s|
    ensures Width(f, s[..n + f(s[n..]).length]) == Width(f, s[..n]) + f(s[n..]).width
  {
    var m := n + f(s[n..]).length;
    BoundaryOfPrefix(f, s, n, m);
    WidthAtBoundary(f, s[..m], n);
    assert s[..m][..n] == s[..n];
    DropDrop(s, n, m);
  }

  /** A byte that is not a continuation byte always starts a character. */
  lemma {:induction false} PlainByteIsBoundary(f: Decoder, s: seq<Byte>, n: nat)
    requires Proper(f) && n < |s| && !IsContinuation(s[n])
    ensures Boundary(f, s, n)
    decreases |s|
  {
    if n > 0 {
      var k := f(s).length;
      assert k <= n;
      PlainByteIsBoundary(f, s[k..], n - k);
    }
  }

  /** No text is wider than it is long in bytes. */
  lemma {:induction false} WidthAtMostLength(f: Decoder, s: seq<Byte>)
    requires Proper(f)
    ensures Width(f, s) <= |s|
    decreases |s|
  {
    if s != [] {
      WidthAtMostLength(f, s[f(s).length..]);
    }
  }

  // ---------------------------------------------------------------- the formatter's decoder is proper

  lemma {:induction false} ContinuationsPrefix(s: seq<Byte>, n: nat)
    requires Continuations(s) <= n <= |s|
    ensures Continuations(s[..n]) == Continuations(s)
  {
    if s != [] && IsContinuation(s[0]) {
      ContinuationsPrefix(s[1..], n - 1);
      assert s[..n][1..] == s[1..][..n - 1];
    }
  }

  /** The first character of a text is that of every prefix that holds it whole. */
  lemma PrefixChar(s: seq<Byte>, n: nat, undefined: nat)
    requires s != [] && CharLength(s) <= n <= |s|
    ensures CharLength(s[..n]) == CharLength(s) && CharWidth(s[..n], undefined) == CharWidth(s, undefined)
  {
    var p := s[..n];
    assert p[1..] == s[1..][..n - 1];
    if s[0] > 0xC1 { ContinuationsPrefix(s[1..], n - 1); }
    assert p[1..CharLength(s)] == s[1..CharLength(s)];
  }

  lemma DecodeNarrow(s: seq<Byte>, undefined: nat)
    requires s != []
    ensures CharWidth(s, undefined) <= CharLength(s)
  {
    if s[0] > 0xC1 && CharLength(s) == 1 {
      assert s[1..1] == [];
      assert StartPayload(s[0], undefined) < 64;
    }
  }

  lemma DecoderIsProper(undefined: nat)
    ensures Proper(DecoderOf(undefined))
  {
    var f := DecoderOf(undefined);
    forall s: seq<Byte> | s != []
      ensures 1 <= f(s).length <= |s| && 1 <= f(s).width <= 2 && f(s).width <= f(s).length
    {
      DecodeNarrow(s, undefined);
    }
    forall s: seq<Byte>, n: nat | s != [] && f(s).length <= n <= |s|
      ensures f(s[..n]) == f(s)
    {
      PrefixChar(s, n, undefined);
    }
    forall s: seq<Byte>, i: nat | s != [] && 1 <= i < f(s).length <= |s|
      ensures IsContinuation(s[i])
    {
      ContinuationsAre(s[1..]);
      assert s[i] == s[1..][i - 1];
    }
  }

  // ---------------------------------------------------------------- decoding one character

  /** `f` is the formatter's decoder (see Bolts: code that only needs some proper
      decoder is not burdened with how characters are decoded). */
  ghost predicate Decodes(f: Decoder, u: nat) {
    forall k {:trigger Key(k)} :: Bolt(k) ==> f == DecoderOf(u)
  }

  /** Decodes the character at `at`: its number of bytes, and whether it takes two columns. */
  method DecodeChar(data: seq<Byte>, at: nat, u: nat, ghost f: Decoder) returns (charbytes: nat, wide: bool)
    requires at < |data| && Decodes(f, u)
    ensures f(data[at..]) == Char(charbytes, if wide then 2 else 1)
  {
    assert Key(0);
    ghost var s := data[at..];
    charbytes, wide := 1, false;
    if data[at] > 0xC1 {
      var ch: nat := StartPayload(data[at], u);
      ghost var start := ch;
      assert s[1..][0..] == s[1..];
      while at + charbytes < |data| && IsContinuation(data[at + charbytes])
        invariant 1 <= charbytes <= |s|
        invariant CharLength(s) == charbytes + Continuations(s[charbytes..])
        invariant Decode(start, s[1..CharLength(s)]) == Decode(ch, s[charbytes..CharLength(s)])
        decreases |s| - charbytes
      {
        assert s[charbytes..][1..] == s[charbytes + 1..];
        assert s[charbytes..CharLength(s)][1..] == s[charbytes + 1..CharLength(s)];
        ch := (ch * 64 + data[at + charbytes] % 64) % WORD;
        charbytes := charbytes + 1;
      }
      assert Continuations(s[charbytes..]) == 0;
      wide := ch >= 0x1100 && IsWideChar(ch);
    }
  }
}
