/**
 Base64 with a bit accumulator, against the groups of three bytes and four digits of section 4 of
 RFC 4648.
 */
module Base64 {
  import opened Bolts
  import opened Bytes

  // ---------------------------------------------------------------- the specification

  type Sextet = d: int | 0 <= d < 64

  /** The digits, in order. */
  function Digit(d: Sextet): char {
    if d < 26 then 'A' + d as char
    else if d < 52 then 'a' + (d - 26) as char
    else if d < 62 then '0' + (d - 52) as char
    else if d == 62 then '+' else '/'
  }

  const PAD := '='

  function Digits(t: seq<Sextet>): (s: string)
    ensures |s| == |t|
    ensures forall i :: 0 <= i < |t| ==> s[i] == Digit(t[i])
  {
    seq(|t|, i requires 0 <= i < |t| => Digit(t[i]))
  }

  /** How the bits of three bytes are spread over four digits. */
  datatype Grouping = Grouping(first: Byte -> Sextet, second: (Byte, Byte) -> Sextet, third: (Byte, Byte) -> Sextet,
                               fourth: Byte -> Sextet)

  /** How four digits are put together to three bytes. */
  datatype Ungrouping = Ungrouping(first: (Sextet, Sextet) -> Byte, second: (Sextet, Sextet) -> Byte,
                                   third: (Sextet, Sextet) -> Byte)

  /** Most significant bits first. */
  function Spread(): Grouping {
    Grouping((a: Byte) => a / 4, (a: Byte, b: Byte) => a % 4 * 16 + b / 16, (b: Byte, c: Byte) => b % 16 * 4 + c / 64,
      (c: Byte) => c % 64)
  }

  function Gather(): Ungrouping {
    Ungrouping((t: Sextet, u: Sextet) => (t as int) * 4 + (u as int) / 16,
      (u: Sextet, v: Sextet) => (u as int) % 16 * 16 + (v as int) / 4,
      (v: Sextet, w: Sextet) => (v as int) % 4 * 64 + (w as int))
  }

  /** Three bytes make four digits; one or two bytes left over are filled up with zero bits, and the
      missing digits with padding. */
  function Encoded(g: Grouping, s: seq<Byte>): string {
    if s == [] then []
    else if |s| == 1 then Digits([g.first(s[0]), g.second(s[0], 0)]) + [PAD, PAD]
    else if |s| == 2 then Digits([g.first(s[0]), g.second(s[0], s[1]), g.third(s[1], 0)]) + [PAD]
    else Digits([g.first(s[0]), g.second(s[0], s[1]), g.third(s[1], s[2]), g.fourth(s[2])]) + Encoded(g, s[3..])
  }

  /** Four digits make three bytes; bits that do not fill a byte are dropped. */
  function BytesOf(u: Ungrouping, t: seq<Sextet>): seq<Byte> {
    if |t| < 2 then []
    else if |t| == 2 then [u.first(t[0], t[1])]
    else if |t| == 3 then [u.first(t[0], t[1]), u.second(t[1], t[2])]
    else [u.first(t[0], t[1]), u.second(t[1], t[2]), u.third(t[2], t[3])] + BytesOf(u, t[4..])
  }

  /** The value of a digit, or -1. */
  function Value(c: char): (d: int)
    ensures -1 <= d < 64 && (d >= 0 ==> Digit(d) == c)
    ensures forall e: Sextet :: Digit(e) == c ==> d == e
  {
    if 'A' <= c <= 'Z' then c as int - 'A' as int
    else if 'a' <= c <= 'z' then c as int - 'a' as int + 26
    else if '0' <= c <= '9' then c as int - '0' as int + 52
    else if c == '+' then 62 else if c == '/' then 63 else -1
  }

  /** The values of the digits up to the first character that is none. */
  function Values(s: string): (t: seq<Sextet>)
    ensures |t| <= |s|
  {
    if s == [] || Value(s[0]) == -1 then [] else [Value(s[0])] + Values(s[1..])
  }

  function Decoded(u: Ungrouping, s: string): seq<Byte> {
    BytesOf(u, Values(s))
  }

  // ---------------------------------------------------------------- the round trip

  /** Gathering undoes spreading. */
  ghost predicate Inverse(g: Grouping, u: Ungrouping) {
    && (forall a: Byte, b: Byte :: u.first(g.first(a), g.second(a, b)) == a)
    && (forall a: Byte, b: Byte, c: Byte :: u.second(g.second(a, b), g.third(b, c)) == b)
    && (forall b: Byte, c: Byte :: u.third(g.third(b, c), g.fourth(c)) == c)
  }

  lemma SpreadGathers()
    ensures Inverse(Spread(), Gather())
  {
    forall a: Byte, b: Byte ensures Gather().first(Spread().first(a), Spread().second(a, b)) == a {
      Joined(a % 4, b / 16);
    }
    forall a: Byte, b: Byte, c: Byte ensures Gather().second(Spread().second(a, b), Spread().third(b, c)) == b {
      Joined(a % 4, b / 16);
      Joined4(b % 16, c / 64);
    }
    forall b: Byte, c: Byte ensures Gather().third(Spread().third(b, c), Spread().fourth(c)) == c {
      Joined4(b % 16, c / 64);
    }
  }

  lemma Joined(x: nat, y: nat)
    requires y < 16
    ensures (x * 16 + y) / 16 == x && (x * 16 + y) % 16 == y
  {
  }

  lemma Joined4(x: nat, y: nat)
    requires y < 4
    ensures (x * 4 + y) / 4 == x && (x * 4 + y) % 4 == y
  {
  }

  lemma {:induction false} ValuesOfDigits(t: seq<Sextet>, rest: string)
    ensures Values(Digits(t) + rest) == t + Values(rest)
  {
    var s := Digits(t) + rest;
    if t == [] {
      assert s == rest && [] + Values(rest) == Values(rest);
    } else {
      assert Digits(t)[1..] == Digits(t[1..]);
      assert s[1..] == Digits(t[1..]) + rest;
      ValuesOfDigits(t[1..], rest);
      assert [t[0]] + (t[1..] + Values(rest)) == t + Values(rest);
    }
  }

  lemma {:induction false} InverseRoundTrip(g: Grouping, u: Ungrouping, s: seq<Byte>)
    requires Inverse(g, u)
    ensures Decoded(u, Encoded(g, s)) == s
  {
    if s == [] {
    } else if |s| == 1 {
      ValuesOfDigits([g.first(s[0]), g.second(s[0], 0)], [PAD, PAD]);
      assert Value(PAD) == -1;
    } else if |s| == 2 {
      ValuesOfDigits([g.first(s[0]), g.second(s[0], s[1]), g.third(s[1], 0)], [PAD]);
      assert Value(PAD) == -1;
    } else {
      var t := [g.first(s[0]), g.second(s[0], s[1]), g.third(s[1], s[2]), g.fourth(s[2])];
      InverseRoundTrip(g, u, s[3..]);
      ValuesOfDigits(t, Encoded(g, s[3..]));
      assert [s[0], s[1], s[2]] + s[3..] == s;
    }
  }

  /** Decoding what was encoded gives it back. */
  lemma RoundTrip(s: seq<Byte>)
    ensures Decoded(Gather(), Encoded(Spread(), s)) == s
  {
    SpreadGathers();
    InverseRoundTrip(Spread(), Gather(), s);
  }

  /** The length is four thirds, rounded up to a multiple of four, and padding only stands at the end. */
  lemma {:induction false} EncodedLength(g: Grouping, s: seq<Byte>)
    ensures |Encoded(g, s)| == (|s| + 2) / 3 * 4
    ensures forall i :: 0 <= i < |Encoded(g, s)| - 2 ==> Value(Encoded(g, s)[i]) != -1
  {
    if |s| > 2 {
      EncodedLength(g, s[3..]);
      var e := Encoded(g, s);
      assert e[4..] == Encoded(g, s[3..]);
      forall i | 0 <= i < |e| - 2
        ensures Value(e[i]) != -1
      {
        if i >= 4 { assert e[i] == e[4..][i - 4]; }
      }
    }
  }

  /** The alphabet of table 1 of RFC 4648. */
  lemma Alphabet(d: Sextet)
    ensures Digit(0) == 'A' && Digit(25) == 'Z' && Digit(26) == 'a' && Digit(51) == 'z'
    ensures Digit(52) == '0' && Digit(61) == '9' && Digit(62) == '+' && Digit(63) == '/'
    ensures d != 25 && d != 51 && d < 61 ==> Digit(d + 1) as int == Digit(d) as int + 1
  {
  }

  /** The groups of bits, most significant first: whole groups, two bytes left over, and one. */
  lemma Groups(a: Byte, b: Byte, c: Byte)
    ensures Encoded(Spread(), [a, b, c]) ==
      [Digit(a / 4), Digit(a % 4 * 16 + b / 16), Digit(b % 16 * 4 + c / 64), Digit(c % 64)]
    ensures Encoded(Spread(), [a, b]) == [Digit(a / 4), Digit(a % 4 * 16 + b / 16), Digit(b % 16 * 4), '=']
    ensures Encoded(Spread(), [a]) == [Digit(a / 4), Digit(a % 4 * 16), '=', '=']
  {
    assert [a, b, c][3..] == [];
  }

  lemma FirstGroup(g: Grouping, s: seq<Byte>)
    requires |s| >= 3
    ensures Encoded(g, s) == Encoded(g, s[..3]) + Encoded(g, s[3..])
  {
    var first := Digits([g.first(s[0]), g.second(s[0], s[1]), g.third(s[1], s[2]), g.fourth(s[2])]);
    assert s[..3][3..] == [] && first + [] == first;
  }

  lemma OneGroupMore(g: Grouping, s: seq<Byte>, t: seq<Byte>)
    requires |s| >= 3 && Encoded(g, s[3..] + t) == Encoded(g, s[3..]) + Encoded(g, t)
    ensures Encoded(g, s + t) == Encoded(g, s) + Encoded(g, t)
  {
    var all := s + t;
    assert all[3..] == s[3..] + t && all[..3] == s[..3];
    FirstGroup(g, s);
    FirstGroup(g, all);
    Together(Encoded(g, s[..3]), Encoded(g, s[3..]), Encoded(g, t));
  }

  lemma Together(a: string, b: string, c: string)
    ensures a + (b + c) == a + b + c
  {
  }

  lemma {:induction false} GroupAfterGroup(g: Grouping, s: seq<Byte>, t: seq<Byte>)
    requires |s| % 3 == 0
    ensures Encoded(g, s + t) == Encoded(g, s) + Encoded(g, t)
  {
    if s == [] {
      assert s + t == t && [] + Encoded(g, t) == Encoded(g, t);
    } else {
      GroupAfterGroup(g, s[3..], t);
      OneGroupMore(g, s, t);
    }
  }

  /** Test vectors of section 10 of RFC 4648, the bytes of "foobar" being 102, 111, 111, 98, 97, 114. */
  lemma Vectors()
    ensures Encoded(Spread(), [102]) == "Zg==" && Encoded(Spread(), [102, 111]) == "Zm8="
    ensures Encoded(Spread(), [102, 111, 111]) == "Zm9v"
  {
    Groups(102, 111, 111);
  }

  lemma LongVector()
    ensures Encoded(Spread(), [102, 111, 111, 98, 97, 114]) == "Zm9vYmFy"
    ensures Decoded(Gather(), "Zm9vYmFy") == [102, 111, 111, 98, 97, 114]
  {
    var word := [102, 111, 111, 98, 97, 114];
    assert Encoded(Spread(), word) == "Zm9vYmFy" by { WholeVector(); }
    RoundTrip(word);
  }

  lemma WholeVector()
    ensures Encoded(Spread(), [102, 111, 111, 98, 97, 114]) == "Zm9vYmFy"
  {
    var foo, bar := [102, 111, 111], [98, 97, 114];
    GroupAfterGroup(Spread(), foo, bar);
    assert foo + bar == [102, 111, 111, 98, 97, 114];
    assert Encoded(Spread(), foo) == "Zm9v" by { Vectors(); }
    assert Encoded(Spread(), bar) == "YmFy" by { Groups(98, 97, 114); }
    assert "Zm9v" + "YmFy" == "Zm9vYmFy";
  }

  /** Decoding stops at the first character outside the alphabet, padding included. */
  lemma {:induction false} DecodingStops(s: string, c: char, t: string)
    requires !('A' <= c <= 'Z') && !('a' <= c <= 'z') && !('0' <= c <= '9') && c != '+' && c != '/'
    ensures Decoded(Gather(), s + [c] + t) == Decoded(Gather(), s)
  {
    ValuesStop(s, c, t);
  }

  lemma {:induction false} ValuesStop(s: string, c: char, t: string)
    requires Value(c) == -1
    ensures Values(s + [c] + t) == Values(s)
  {
    if s != [] {
      ValuesStop(s[1..], c, t);
      assert (s + [c] + t)[1..] == s[1..] + [c] + t;
    }
  }

  // ---------------------------------------------------------------- encoding byte by byte

  /** The place of the `n`-th element in its group of `m`. */
  function Phase(n: nat, m: nat): (p: nat)
    requires m > 0
    ensures p < m
  {
    if n < m then n else Phase(n - m, m)
  }

  lemma {:induction false} NextPhase(n: nat, m: nat)
    requires m > 0
    ensures Phase(n + 1, m) == if Phase(n, m) + 1 == m then 0 else Phase(n, m) + 1
  {
    if n >= m { NextPhase(n - m, m); }
  }

  /** The digits that are complete after `s`. */
  function Complete(g: Grouping, s: seq<Byte>): seq<Sextet> {
    if s == [] then []
    else if |s| == 1 then [g.first(s[0])]
    else if |s| == 2 then [g.first(s[0]), g.second(s[0], s[1])]
    else [g.first(s[0]), g.second(s[0], s[1]), g.third(s[1], s[2]), g.fourth(s[2])] + Complete(g, s[3..])
  }

  /** What one more byte completes, `p` being the byte before it. */
  function NewDigits(g: Grouping, n: nat, p: Byte, c: Byte): seq<Sextet> {
    if Phase(n, 3) == 0 then [g.first(c)] else if Phase(n, 3) == 1 then [g.second(p, c)]
      else [g.third(p, c), g.fourth(c)]
  }

  function Last(s: seq<Byte>): Byte { if s == [] then 0 else s[|s| - 1] }

  lemma {:induction false} CompleteSnoc(g: Grouping, s: seq<Byte>, c: Byte)
    ensures Complete(g, s + [c]) == Complete(g, s) + NewDigits(g, |s|, Last(s), c)
  {
    if |s| >= 3 {
      CompleteSnoc(g, s[3..], c);
      assert (s + [c])[3..] == s[3..] + [c];
      if Phase(|s|, 3) != 0 { assert Last(s[3..]) == Last(s); }
    } else if |s| == 2 {
      assert (s + [c])[3..] == [];
    }
  }

  /** The digit left at the end, and the padding. */
  function Ending(g: Grouping, n: nat, p: Byte): string {
    if Phase(n, 3) == 0 then [] else if Phase(n, 3) == 1 then [Digit(g.second(p, 0)), PAD, PAD]
      else [Digit(g.third(p, 0)), PAD]
  }

  lemma {:induction false} EncodedIsCompleteAndEnding(g: Grouping, s: seq<Byte>)
    ensures Encoded(g, s) == Digits(Complete(g, s)) + Ending(g, |s|, Last(s))
  {
    if |s| >= 3 {
      EncodedIsCompleteAndEnding(g, s[3..]);
      if Phase(|s|, 3) != 0 { assert Last(s[3..]) == Last(s); }
      var t := [g.first(s[0]), g.second(s[0], s[1]), g.third(s[1], s[2]), g.fourth(s[2])];
      DigitsConcat(t, Complete(g, s[3..]));
      assert Complete(g, s) == t + Complete(g, s[3..]) && Encoded(g, s) == Digits(t) + Encoded(g, s[3..]);
      assert Digits(t) + (Digits(Complete(g, s[3..])) + Ending(g, |s|, Last(s)))
        == Digits(t) + Digits(Complete(g, s[3..])) + Ending(g, |s|, Last(s));
    } else if |s| == 1 {
      DigitsConcat([g.first(s[0])], [g.second(s[0], 0)]);
    } else if |s| == 2 {
      DigitsConcat([g.first(s[0]), g.second(s[0], s[1])], [g.third(s[1], 0)]);
    }
  }

  lemma {:induction false} CompleteLength(g: Grouping, s: seq<Byte>)
    ensures |Complete(g, s)| % 4 == Phase(|s|, 3)
  {
    if |s| >= 3 {
      CompleteLength(g, s[3..]);
      Add4(1, |Complete(g, s[3..])|);
    }
  }

  lemma DigitsConcat(t: seq<Sextet>, u: seq<Sextet>)
    ensures Digits(t + u) == Digits(t) + Digits(u)
  {
  }

  // ---------------------------------------------------------------- bits of the accumulator

  /** What the machine keeps of a number: the low 32 bits; or, without a limit, all of it. */
  function Word(x: nat, wraps: bool): (w: nat) { if wraps then x % WORD else x }

  /** `x` shifted right by `b`, for the shifts that occur. */
  function Shift(x: nat, b: nat): nat {
    if b == 0 then x else if b == 2 then x / 4 else if b == 4 then x / 16 else x / 64
  }

  lemma Add64(k: int, y: int)
    ensures (64 * k + y) % 64 == y % 64
  {
  }

  lemma Add256(k: int, y: int)
    ensures (256 * k + y) % 256 == y % 256
  {
  }

  /** The low bits do not depend on the width of the accumulator. */
  lemma LowBits(x: nat, b: nat, wraps: bool)
    requires b == 0 || b == 2 || b == 4 || b == 6
    ensures Shift(Word(x, wraps), b) % 64 == Shift(x, b) % 64
    ensures b <= 4 ==> Shift(Word(x, wraps), b) % 256 == Shift(x, b) % 256
  {
    var q, r := x / WORD, x % WORD;
    if b == 0 {
      Add64(q * 0x400_0000, r);
      Add256(q * 0x100_0000, r);
    } else if b == 2 {
      Add64(q * 0x100_0000, r / 4);
      Add256(q * 0x40_0000, r / 4);
    } else if b == 4 {
      Add64(q * 0x40_0000, r / 16);
      Add256(q * 0x10_0000, r / 16);
    } else {
      Add64(q * 0x10_0000, r / 64);
    }
  }

  // ---------------------------------------------------------------- the encoder

  /** `g` spreads the bits as the encoding does (see Bolts). */
  ghost predicate Spreads(g: Grouping) {
    forall k {:trigger Key(k)} :: Bolt(k) ==> g == Spread()
  }

  ghost predicate Gathers(u: Ungrouping) {
    forall k {:trigger Key(k)} :: Bolt(k) ==> u == Gather()
  }

  /** The bits that wait for more after `n` bytes, the last of which is `p`: none, two or four. */
  predicate Pending(val: nat, valb: int, n: nat, p: Byte) {
    && valb == (if Phase(n, 3) == 0 then -6 else if Phase(n, 3) == 1 then -4 else -2)
    && (Phase(n, 3) != 0 ==> val % 16 == p % 16)
  }

  /** The digits taken out of the accumulator from bit `b` down. */
  function Taken(x: nat, b: int): seq<Sextet>
    decreases b + 6
  {
    if b < 0 then [] else [Shift(x, b) % 64] + Taken(x, b - 6)
  }

  lemma TwoAndFour(val: nat, c: Byte)
    ensures (val * 256 + c) / 16 % 64 == val % 4 * 16 + c / 16
  {
    assert (val * 256 + c) / 16 == val * 16 + c / 16;
    Add64(val / 4, val % 4 * 16 + c / 16);
  }

  lemma FourAndTwo(val: nat, c: Byte)
    ensures (val * 256 + c) / 64 % 64 == val % 16 * 4 + c / 64
  {
    assert (val * 256 + c) / 64 == val * 4 + c / 64;
    Add64(val / 16, val % 16 * 4 + c / 64);
  }

  lemma SameLowBits(val: nat, p: nat)
    requires val % 16 == p % 16
    ensures val % 4 == p % 4
  {
    Add4(4 * (val / 16), val % 16);
    Add4(4 * (p / 16), p % 16);
  }

  lemma Add4(k: int, y: int)
    ensures (4 * k + y) % 4 == y % 4
  {
  }

  lemma Add16(k: int, y: int)
    ensures (16 * k + y) % 16 == y % 16
  {
  }

  lemma FirstBits(val: nat, c: Byte)
    ensures (val * 256 + c) / 4 % 64 == c / 4 && (val * 256 + c) % 64 == c % 64
  {
    assert (val * 256 + c) / 4 == val * 64 + c / 4;
    Add64(val, c / 4);
    Add64(val * 4, c);
  }

  lemma Low16(x: nat, c: nat)
    requires x % 64 == c % 64
    ensures x % 16 == c % 16
  {
    Add16(4 * (x / 64), x % 64);
    Add16(4 * (c / 64), c % 64);
  }

  lemma TakenAre(g: Grouping, val: nat, valb: int, n: nat, p: Byte, c: Byte, wraps: bool)
    requires Spreads(g) && Pending(val, valb, n, p)
    ensures Taken(Word(val * 256 + c, wraps), valb + 8) == NewDigits(g, n, p, c)
    ensures Word(val * 256 + c, wraps) % 16 == c % 16
  {
    var x := val * 256 + c;
    FirstBits(val, c);
    LowBits(x, 0, wraps);
    LowBits(x, valb + 8, wraps);
    Low16(Word(x, wraps), c);
    if Phase(n, 3) != 0 {
      TwoAndFour(val, c);
      FourAndTwo(val, c);
      SameLowBits(val, p);
    }
    SpreadIs(g, p, c);
  }

  lemma SpreadIs(g: Grouping, p: Byte, c: Byte)
    requires Spreads(g)
    ensures g.first(c) == c / 4 && g.second(p, c) == p % 4 * 16 + c / 16
    ensures g.third(p, c) == p % 16 * 4 + c / 64 && g.fourth(c) == c % 64
  {
    assert Key(0);
  }

  /** One byte into the accumulator, and the digits it completes out of it. */
  method PushByte(val: nat, valb: int, c: Byte, wraps: bool, ghost g: Grouping, ghost n: nat, ghost p: Byte)
    returns (val': nat, valb': int, digits: seq<Sextet>)
    requires Spreads(g) && Pending(val, valb, n, p)
    ensures Pending(val', valb', n + 1, c) && digits == NewDigits(g, n, p, c)
  {
    TakenAre(g, val, valb, n, p, c, wraps);
    NextPhase(n, 3);
    val' := Word(val * 256 + c, wraps);
    valb' := valb + 8;
    digits := [];
    while valb' >= 0
      invariant -6 <= valb' <= 6 && valb' == valb + 8 - 6 * |digits|
      invariant digits + Taken(val', valb') == Taken(val', valb + 8)
      decreases valb' + 6
    {
      digits := digits + [Shift(val', valb') % 64];
      valb' := valb' - 6;
    }
  }

  /** The encoder, with an accumulator of 32 bits or without limit: both give the same encoding. */
  method EncodeWith(s: seq<Byte>, wraps: bool, ghost g: Grouping) returns (out: string)
    requires Spreads(g)
    ensures out == Encoded(g, s)
  {
    out := [];
    var val: nat, valb := 0, -6;
    var i := 0;
    while i < |s|
      invariant i <= |s| && Pending(val, valb, i, Last(s[..i]))
      invariant out == Digits(Complete(g, s[..i]))
    {
      var digits;
      CompleteSnoc(g, s[..i], s[i]);
      assert s[..i + 1] == s[..i] + [s[i]];
      val, valb, digits := PushByte(val, valb, s[i], wraps, g, i, Last(s[..i]));
      DigitsConcat(Complete(g, s[..i]), digits);
      out := out + Digits(digits);
      i := i + 1;
    }
    assert s[..i] == s;
    EncodedIsCompleteAndEnding(g, s);
    CompleteLength(g, s);
    out := Finish(out, val, valb, wraps, g, |s|, Last(s));
  }

  method Encode(s: seq<Byte>, wraps: bool) returns (out: string)
    ensures out == Encoded(Spread(), s)
  {
    out := EncodeWith(s, wraps, Spread());
  }

  lemma LastDigit(g: Grouping, val: nat, valb: int, n: nat, p: Byte, wraps: bool)
    requires Spreads(g) && Pending(val, valb, n, p) && Phase(n, 3) != 0
    ensures Shift(Word(val * 256, wraps), valb + 8) % 64 == if Phase(n, 3) == 1 then g.second(p, 0) else g.third(p, 0)
  {
    LowBits(val * 256, valb + 8, wraps);
    TwoAndFour(val, 0);
    FourAndTwo(val, 0);
    SameLowBits(val, p);
    SpreadIs(g, p, 0);
  }

  /** The bits left over, filled up with zeros, and the padding. */
  method Finish(complete: string, val: nat, valb: int, wraps: bool, ghost g: Grouping, ghost n: nat, ghost p: Byte)
    returns (out: string)
    requires Spreads(g) && Pending(val, valb, n, p) && |complete| % 4 == Phase(n, 3)
    ensures out == complete + Ending(g, n, p)
  {
    ghost var ending := Ending(g, n, p);
    out := complete;
    if valb > -6 {
      LastDigit(g, val, valb, n, p, wraps);
      out := out + [Digit(Shift(Word(val * 256, wraps), valb + 8) % 64)];
    }
    var padding := Pad(|out|);
    assert out + padding == complete + ending;
    out := out + padding;
  }

  /** As many padding characters as are missing to a multiple of four. */
  method Pad(length: nat) returns (padding: string)
    ensures |padding| < 4 && (length + |padding|) % 4 == 0 && forall i :: 0 <= i < |padding| ==> padding[i] == '='
  {
    padding := [];
    while (length + |padding|) % 4 != 0
      invariant |padding| <= (if length % 4 == 0 then 0 else 4 - length % 4)
      invariant forall i :: 0 <= i < |padding| ==> padding[i] == '='
      decreases 4 - |padding|
    {
      padding := padding + [PAD];
    }
  }

  // ---------------------------------------------------------------- the decoder

  /** The byte that one more digit completes, if any. */
  function NewByte(u: Ungrouping, n: nat, p: Sextet, d: Sextet): seq<Byte> {
    if Phase(n, 4) == 0 then [] else if Phase(n, 4) == 1 then [u.first(p, d)]
    else if Phase(n, 4) == 2 then [u.second(p, d)] else [u.third(p, d)]
  }

  function LastOf(t: seq<Sextet>): Sextet { if t == [] then 0 else t[|t| - 1] }

  lemma {:induction false} BytesSnoc(u: Ungrouping, t: seq<Sextet>, d: Sextet)
    ensures BytesOf(u, t + [d]) == BytesOf(u, t) + NewByte(u, |t|, LastOf(t), d)
  {
    if |t| >= 4 {
      BytesSnoc(u, t[4..], d);
      assert (t + [d])[4..] == t[4..] + [d];
      if Phase(|t|, 4) != 0 { assert LastOf(t[4..]) == LastOf(t); }
    } else if |t| == 3 {
      assert (t + [d])[4..] == [];
    }
  }

  /** The table of digit values, filled from the alphabet. */
  method Table() returns (table: array<int>)
    ensures fresh(table) && table.Length == 256
    ensures forall c: char :: c as int < 256 ==> table[c as int] == Value(c)
  {
    table := new int[256](_ => -1);
    var i := 0;
    while i < 64
      invariant 0 <= i <= 64
      invariant forall c: char :: c as int < 256 ==> table[c as int] == if Value(c) < i then Value(c) else -1
    {
      table[Digit(i) as int] := i;
      i := i + 1;
    }
  }

  /** The bits that wait for more after `n` digits, the last of which is `p`: none, six, four or two. */
  predicate Waiting(val: nat, valb: int, n: nat, p: Sextet) {
    && valb == (if Phase(n, 4) == 0 then -8 else if Phase(n, 4) == 1 then -2 else if Phase(n, 4) == 2 then -4 else -6)
    && (Phase(n, 4) != 0 ==> val % 64 == p)
  }

  lemma SixAndTwo(val: nat, d: Sextet)
    ensures (val * 64 + d) / 16 % 256 == val % 64 * 4 + d / 16
  {
    assert (val * 64 + d) / 16 == val * 4 + d / 16;
    Add256(val / 64, val % 64 * 4 + d / 16);
  }

  lemma FourAndFour(val: nat, d: Sextet)
    ensures (val * 64 + d) / 4 % 256 == val % 16 * 16 + d / 4
  {
    assert (val * 64 + d) / 4 == val * 16 + d / 4;
    Add256(val / 16, val % 16 * 16 + d / 4);
  }

  lemma TwoAndSix(val: nat, d: Sextet)
    ensures (val * 64 + d) % 256 == val % 4 * 64 + d
  {
    Add256(val / 4, val % 4 * 64 + d);
  }

  lemma GatherIs(u: Ungrouping, p: Sextet, d: Sextet)
    requires Gathers(u)
    ensures u.first(p, d) == p * 4 + d / 16 && u.second(p, d) == p % 16 * 16 + d / 4 && u.third(p, d) == p % 4 * 64 + d
  {
    assert Key(0);
  }

  lemma GatheredIs(u: Ungrouping, val: nat, valb: int, n: nat, p: Sextet, d: Sextet, wraps: bool)
    requires Gathers(u) && Waiting(val, valb, n, p)
    ensures Phase(n, 4) != 0 ==> [Shift(Word(val * 64 + d, wraps), valb + 6) % 256] == NewByte(u, n, p, d)
    ensures Word(val * 64 + d, wraps) % 64 == d
  {
    var x := val * 64 + d;
    LowBits(x, 0, wraps);
    Add64(val, d);
    if Phase(n, 4) != 0 {
      LowBits(x, valb + 6, wraps);
      SixAndTwo(val, d);
      FourAndFour(val, d);
      TwoAndSix(val, d);
      Low16(val, p);
      SameLowBits(val, p);
      GatherIs(u, p, d);
    }
  }

  /** One digit into the accumulator, and the byte it completes, if any, out of it. */
  method PushDigit(val: nat, valb: int, d: Sextet, wraps: bool, ghost u: Ungrouping, ghost n: nat, ghost p: Sextet)
    returns (val': nat, valb': int, bytes: seq<Byte>)
    requires Gathers(u) && Waiting(val, valb, n, p)
    ensures Waiting(val', valb', n + 1, d) && bytes == NewByte(u, n, p, d)
  {
    GatheredIs(u, val, valb, n, p, d, wraps);
    NextPhase(n, 4);
    val' := Word(val * 64 + d, wraps);
    valb' := valb + 6;
    bytes := [];
    if valb' >= 0 {
      bytes := [Shift(val', valb') % 256];
      valb' := valb' - 8;
    }
  }

  lemma Associative(t: seq<Sextet>, u: seq<Sextet>, v: seq<Sextet>)
    ensures t + (u + v) == t + u + v
  {
  }

  /** The decoder: it stops at the first character that is no digit. */
  method DecodeWith(s: string, wraps: bool, ghost u: Ungrouping) returns (out: seq<Byte>)
    requires Gathers(u) && forall i :: 0 <= i < |s| ==> s[i] as int < 256
    ensures out == Decoded(u, s)
  {
    var table := Table();
    out := [];
    var val: nat, valb := 0, -8;
    ghost var t: seq<Sextet> := [];
    var i := 0;
    assert s[0..] == s;
    while i < |s|
      invariant i <= |s| && Values(s) == t + Values(s[i..])
      invariant Waiting(val, valb, |t|, LastOf(t)) && out == BytesOf(u, t)
      invariant table.Length == 256 && forall c: char :: c as int < 256 ==> table[c as int] == Value(c)
    {
      var value := table[s[i] as int];
      if value == -1 {
        assert t + [] == t;
        return;
      }
      var bytes;
      val, valb, bytes := PushDigit(val, valb, value, wraps, u, |t|, LastOf(t));
      BytesSnoc(u, t, value);
      Associative(t, [value], Values(s[i + 1..]));
      t := t + [value];
      out := out + bytes;
      i := i + 1;
    }
    assert s[i..] == [] && t + [] == t;
  }

  method Decode(s: string, wraps: bool) returns (out: seq<Byte>)
    requires forall i :: 0 <= i < |s| ==> s[i] as int < 256
    ensures out == Decoded(Gather(), s)
  {
    out := DecodeWith(s, wraps, Gather());
  }
}
