/**
 The decoder of the formatter on well-formed text: it reads the encoding of section 3 of RFC 3629,
 and plain ASCII text is as wide as it is long.
 */
module CharMeaning {
  import opened Bytes
  import opened DisplayWidth

  /** The bytes of a code point. */
  function Utf8(cp: nat): (s: seq<Byte>)
    requires cp < 0x110000
    ensures 1 <= |s| <= 4
  {
    if cp < 0x80 then [cp]
    else if cp < 0x800 then [0xC0 + cp / 64, 0x80 + cp % 64]
    else if cp < 0x10000 then [0xE0 + cp / 4096, 0x80 + cp / 64 % 64, 0x80 + cp % 64]
    else [0xF0 + cp / 262144, 0x80 + cp / 4096 % 64, 0x80 + cp / 64 % 64, 0x80 + cp % 64]
  }

  /** The code points that take two columns. */
  predicate TwoColumns(cp: nat) {
    || 0x1100 <= cp <= 0x115F || 0x2329 <= cp <= 0x232A || 0x2E80 <= cp < 0x303F || 0x303F < cp <= 0xA4C6
    || 0xA960 <= cp <= 0xA97C || 0xAC00 <= cp <= 0xD7FB || 0xF900 <= cp <= 0xFAFF || 0xFE10 <= cp <= 0xFE6B
    || 0xFF01 <= cp <= 0xFF60 || 0xFFE0 <= cp <= 0xFFE6 || 0x1B000 <= cp
  }

  lemma StartBits(b: Byte, undefined: nat)
    ensures 0xC0 <= b < 0xE0 ==> StartPayload(b, undefined) == b - 0xC0
    ensures 0xE0 <= b < 0xF0 ==> StartPayload(b, undefined) == b - 0xE0
    ensures 0xF0 <= b < 0xF8 ==> StartPayload(b, undefined) == b - 0xF0
    ensures 0xF8 <= b < 0xFC ==> StartPayload(b, undefined) == b - 0xF8
    ensures 0xFC <= b < 0xFE ==> StartPayload(b, undefined) == b - 0xFC
    ensures b == 0xFE ==> StartPayload(b, undefined) == 0
  {
  }

  lemma MoreBits(code: nat, b: nat)
    requires b < 64 && code < 0x10000
    ensures var c: Byte := 0x80 + b; IsContinuation(c) && (code * 64 + c % 64) % WORD == code * 64 + b
  {
    assert (0x80 + b) % 64 == b;
  }

  lemma {:induction false} AllContinue(s: seq<Byte>, t: seq<Byte>)
    requires forall i :: 0 <= i < |s| ==> IsContinuation(s[i])
    requires t == [] || !IsContinuation(t[0])
    ensures Continuations(s + t) == |s|
  {
    if s == [] {
      assert s + t == t;
    } else {
      AllContinue(s[1..], t);
      assert (s + t)[1..] == s[1..] + t;
    }
  }

  lemma Decode1(code: nat, a: nat)
    requires a < 64 && code < 0x10000
    ensures Decode(code, [0x80 + a]) == code * 64 + a
  {
    MoreBits(code, a);
    assert [0x80 + a][1..] == [];
  }

  lemma Decode2(code: nat, a: nat, b: nat)
    requires a < 64 && b < 64 && code < 0x400
    ensures Decode(code, [0x80 + a, 0x80 + b]) == (code * 64 + a) * 64 + b
  {
    MoreBits(code, a);
    assert [0x80 + a, 0x80 + b][1..] == [0x80 + b];
    Decode1(code * 64 + a, b);
  }

  lemma Decode3(code: nat, a: nat, b: nat, c: nat)
    requires a < 64 && b < 64 && c < 64 && code < 0x10
    ensures Decode(code, [0x80 + a, 0x80 + b, 0x80 + c]) == ((code * 64 + a) * 64 + b) * 64 + c
  {
    MoreBits(code, a);
    assert [0x80 + a, 0x80 + b, 0x80 + c][1..] == [0x80 + b, 0x80 + c];
    Decode2(code * 64 + a, b, c);
  }

  /** The bytes `s` are one character that is no ASCII character, with the code point `cp`. */
  predicate Reads(s: seq<Byte>, cp: nat, undefined: nat) {
    && s != [] && s[0] > 0xC1 && Decode(StartPayload(s[0], undefined), s[1..]) == cp
    && forall i :: 1 <= i < |s| ==> IsContinuation(s[i])
  }

  lemma TwoBytes(a: nat, b: nat, undefined: nat)
    requires 2 <= a < 32 && b < 64
    ensures Reads([0xC0 + a, 0x80 + b], a * 64 + b, undefined)
  {
    var s: seq<Byte> := [0xC0 + a, 0x80 + b];
    StartBits(s[0], undefined);
    assert s[1..] == [0x80 + b];
    Decode1(a, b);
  }

  lemma ThreeBytes(a: nat, b: nat, c: nat, undefined: nat)
    requires a < 16 && b < 64 && c < 64
    ensures Reads([0xE0 + a, 0x80 + b, 0x80 + c], (a * 64 + b) * 64 + c, undefined)
  {
    var s: seq<Byte> := [0xE0 + a, 0x80 + b, 0x80 + c];
    StartBits(s[0], undefined);
    assert s[1..] == [0x80 + b, 0x80 + c];
    Decode2(a, b, c);
  }

  lemma FourBytes(a: nat, b: nat, c: nat, d: nat, undefined: nat)
    requires a < 8 && b < 64 && c < 64 && d < 64
    ensures Reads([0xF0 + a, 0x80 + b, 0x80 + c, 0x80 + d], ((a * 64 + b) * 64 + c) * 64 + d, undefined)
  {
    var s: seq<Byte> := [0xF0 + a, 0x80 + b, 0x80 + c, 0x80 + d];
    StartBits(s[0], undefined);
    assert s[1..] == [0x80 + b, 0x80 + c, 0x80 + d];
    Decode3(a, b, c, d);
  }

  lemma Sixtyfourths(cp: nat)
    requires cp < 0x110000
    ensures cp == cp / 64 * 64 + cp % 64 && cp % 64 < 64
    ensures cp / 64 == cp / 4096 * 64 + cp / 64 % 64 && cp / 64 % 64 < 64
    ensures cp / 4096 == cp / 262144 * 64 + cp / 4096 % 64 && cp / 4096 % 64 < 64
    ensures cp < 0x800 ==> cp / 64 < 32
    ensures cp < 0x10000 ==> cp / 4096 < 16
    ensures cp / 262144 < 8
  {
    assert cp / 4096 == cp / 64 / 64;
    assert cp / 262144 == cp / 4096 / 64;
  }

  lemma DecodesMultibyte(cp: nat, undefined: nat)
    requires 0x80 <= cp < 0x110000
    ensures Reads(Utf8(cp), cp, undefined)
  {
    Sixtyfourths(cp);
    if cp < 0x800 {
      TwoBytes(cp / 64, cp % 64, undefined);
    } else if cp < 0x10000 {
      ThreeBytes(cp / 4096, cp / 64 % 64, cp % 64, undefined);
    } else {
      FourBytes(cp / 262144, cp / 4096 % 64, cp / 64 % 64, cp % 64, undefined);
    }
  }

  /** A code point in front of a text that starts with a character: its bytes and its width are found. */
  lemma DecodesUtf8(cp: nat, t: seq<Byte>, undefined: nat)
    requires cp < 0x110000 && (t == [] || !(0x80 <= t[0] <= 0xBF))
    ensures DecoderOf(undefined)(Utf8(cp) + t) == Char(|Utf8(cp)|, if TwoColumns(cp) then 2 else 1)
  {
    var s := Utf8(cp);
    if cp >= 0x80 {
      DecodesMultibyte(cp, undefined);
      assert (s + t)[1..] == s[1..] + t;
      AllContinue(s[1..], t);
      assert (s + t)[1..|s|] == s[1..];
    }
  }

  function EncodedText(cps: seq<nat>): (s: seq<Byte>)
    requires forall i :: 0 <= i < |cps| ==> cps[i] < 0x110000
    ensures s == [] || !(0x80 <= s[0] <= 0xBF)
  {
    if cps == [] then [] else Utf8(cps[0]) + EncodedText(cps[1..])
  }

  function ColumnsOf(cps: seq<nat>): nat {
    if cps == [] then 0 else (if TwoColumns(cps[0]) then 2 else 1) + ColumnsOf(cps[1..])
  }

  /** The width of a text is that of its code points. */
  lemma {:induction false} WidthOfText(cps: seq<nat>, undefined: nat)
    requires forall i :: 0 <= i < |cps| ==> cps[i] < 0x110000
    ensures Width(DecoderOf(undefined), EncodedText(cps)) == ColumnsOf(cps)
  {
    if cps != [] {
      var rest := EncodedText(cps[1..]);
      WidthOfText(cps[1..], undefined);
      DecodesUtf8(cps[0], rest, undefined);
      assert (Utf8(cps[0]) + rest)[|Utf8(cps[0])|..] == rest;
    }
  }

  /** ASCII text is as wide as it is long. */
  lemma {:induction false} WidthOfAscii(s: seq<Byte>, undefined: nat)
    requires forall i :: 0 <= i < |s| ==> s[i] < 0x80
    ensures Width(DecoderOf(undefined), s) == |s|
  {
    if s != [] {
      WidthOfAscii(s[1..], undefined);
      assert DecoderOf(undefined)(s) == Char(1, 1);
    }
  }

  /** Malformed text: a byte that starts no character of two bytes or more is a narrow character of its own, and
      the code of an overlong sequence wraps around. */
  lemma LoneByte(b: Byte, t: seq<Byte>, undefined: nat)
    requires 0x80 <= b <= 0xC1
    ensures DecoderOf(undefined)([b] + t) == Char(1, 1)
  {
  }

  lemma {:induction false} CodeWraps(code: nat, s: seq<Byte>, b: Byte)
    requires code < 0x1_0000_0000
    ensures Decode(code, s + [b]) == (Decode(code, s) * 64 + b % 64) % 0x1_0000_0000
    decreases |s|
  {
    if s == [] {
      assert [] + [b] == [b] && [b][1..] == [];
    } else {
      assert (s + [b])[1..] == s[1..] + [b];
      CodeWraps((code * 64 + s[0] % 64) % 0x1_0000_0000, s[1..], b);
    }
  }
}
