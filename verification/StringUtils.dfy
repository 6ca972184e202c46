/**
 Splitting strings at delimiters, and replacing substrings by searching from the start again after
 every replacement.
 */
module StringUtils {
  import opened Bolts

  /** `a` stands in `s` at position `i`. */
  predicate At(s: string, a: string, i: nat) {
    i + |a| <= |s| && forall k {:trigger a[k]} :: 0 <= k < |a| ==> s[i + k] == a[k]
  }

  ghost predicate Contains(s: string, a: string) {
    exists i: nat :: At(s, a, i)
  }

  /** The first position from `from` on where `a` stands, or -1. */
  function Find(s: string, a: string, from: nat): (p: int)
    ensures p == -1 || from <= p <= |s| - |a|
    decreases |s| - from
  {
    if from + |a| > |s| then -1 else if At(s, a, from) then from else Find(s, a, from + 1)
  }

  lemma {:induction false} FindStands(s: string, a: string, from: nat)
    ensures var p := Find(s, a, from); p >= 0 ==> At(s, a, p)
    decreases |s| - from
  {
    if from + |a| <= |s| && !At(s, a, from) { FindStands(s, a, from + 1); }
  }

  lemma {:induction false} FindIsFirst(s: string, a: string, from: nat, i: nat)
    requires from <= i && At(s, a, i)
    ensures 0 <= Find(s, a, from) <= i
    decreases |s| - from
  {
    if !At(s, a, from) { FindIsFirst(s, a, from + 1, i); }
  }

  lemma FindIsContains(s: string, a: string)
    ensures Find(s, a, 0) == -1 <==> !Contains(s, a)
  {
    FindStands(s, a, 0);
    if Contains(s, a) {
      var i: nat :| At(s, a, i);
      FindIsFirst(s, a, 0, i);
    }
  }

  /** The slice of `s` at position `i` that is as long as `a`, is `a`. */
  predicate IsSlice(s: string, a: string, i: int) {
    0 <= i <= |s| - |a| && s[i..i + |a|] == a
  }

  lemma AtIsIsSlice(s: string, a: string, i: nat)
    ensures At(s, a, i) <==> IsSlice(s, a, i)
  {
    if IsSlice(s, a, i) {
      forall k | 0 <= k < |a| ensures s[i + k] == a[k] {
        assert s[i..i + |a|][k] == s[i + k];
      }
    }
  }

  /** One string is contained in another just if it is a slice of it; and what is found is the first such slice. */
  lemma ContainsIsSlice(s: string, a: string)
    ensures Contains(s, a) <==> exists i :: IsSlice(s, a, i)
    ensures Find(s, a, 0) >= 0 <==> Contains(s, a)
    ensures Find(s, a, 0) >= 0 ==> IsSlice(s, a, Find(s, a, 0)) && forall i :: i < Find(s, a, 0) ==> !IsSlice(s, a, i)
  {
    FindIsContains(s, a);
    FindStands(s, a, 0);
    var p := Find(s, a, 0);
    if p >= 0 { AtIsIsSlice(s, a, p); }
    forall i | IsSlice(s, a, i)
      ensures Contains(s, a) && 0 <= p <= i
    {
      AtIsIsSlice(s, a, i);
      FindIsFirst(s, a, 0, i);
    }
  }

  lemma AtPart(s: string, lo: nat, hi: nat, a: string, i: nat)
    requires lo <= hi <= |s|
    ensures At(s[lo..hi], a, i) <==> At(s, a, lo + i) && lo + i + |a| <= hi
  {
  }

  /** A part of a string contains nothing the string does not contain. */
  lemma PartContains(s: string, lo: nat, hi: nat, a: string)
    requires lo <= hi <= |s| && Contains(s[lo..hi], a)
    ensures Contains(s, a)
  {
    var i: nat :| At(s[lo..hi], a, i);
    AtPart(s, lo, hi, a, i);
  }

  // ---------------------------------------------------------------- replacing

  /** One pass from left to right that replaces every occurrence of `a` not overlapping one before. */
  function OnePass(s: string, a: string, b: string): string
    requires a != ""
  {
    if s == "" then "" else if a <= s then b + OnePass(s[|a|..], a, b) else [s[0]] + OnePass(s[1..], a, b)
  }

  function Occurrences(s: string, a: string): nat
    requires a != ""
  {
    if s == "" then 0 else if a <= s then 1 + Occurrences(s[|a|..], a) else Occurrences(s[1..], a)
  }

  predicate Disjoint(a: string, b: string) {
    forall i :: 0 <= i < |b| ==> b[i] !in a
  }

  /** No occurrence of `a` can arise where `b` is put in its place. */
  predicate Clean(a: string, b: string) {
    a != "" && Disjoint(a, b) && (b != "" || |a| == 1)
  }

  /** Each replacement makes the string shorter, or uses up characters of `a`. */
  predicate Shrinks(a: string, b: string) {
    a != "" && (Disjoint(a, b) || |b| < |a|)
  }

  /** How many characters of `s` occur in `a`. */
  function CharsOf(s: string, a: string): nat {
    if s == "" then 0 else CharsOf(s[..|s| - 1], a) + if s[|s| - 1] in a then 1 else 0
  }

  lemma {:induction false} CharsOfConcat(s: string, t: string, a: string)
    ensures CharsOf(s + t, a) == CharsOf(s, a) + CharsOf(t, a)
  {
    if t == "" {
      assert s + t == s;
    } else {
      CharsOfConcat(s, t[..|t| - 1], a);
      assert (s + t)[..|s + t| - 1] == s + t[..|t| - 1];
    }
  }

  lemma {:induction false} CharsOfAll(s: string, a: string)
    ensures (forall i :: 0 <= i < |s| ==> s[i] in a) ==> CharsOf(s, a) == |s|
    ensures Disjoint(a, s) ==> CharsOf(s, a) == 0
  {
    if s != "" { CharsOfAll(s[..|s| - 1], a); }
  }

  /** The termination measure of the replacements. */
  function Measure(s: string, a: string, b: string): nat {
    if Disjoint(a, b) then CharsOf(s, a) else |s|
  }

  lemma ReplacementShrinks(s: string, a: string, b: string, p: nat)
    requires Shrinks(a, b) && At(s, a, p)
    ensures Measure(s[..p] + b + s[p + |a|..], a, b) < Measure(s, a, b)
  {
    AtIsSlice(s, a, p);
    if Disjoint(a, b) {
      assert s == s[..p] + a + s[p + |a|..];
      CharsOfConcat(s[..p] + a, s[p + |a|..], a);
      CharsOfConcat(s[..p], a, a);
      CharsOfConcat(s[..p] + b, s[p + |a|..], a);
      CharsOfConcat(s[..p], b, a);
      CharsOfAll(a, a);
      CharsOfAll(b, a);
    }
  }

  /** Replaces the first occurrence. */
  method ReplaceFirst(st: string, a: string, b: string) returns (st': string, found: bool)
    ensures found <==> Contains(st, a)
    ensures !found ==> st' == st
    ensures found ==> var p := Find(st, a, 0); p >= 0 && st' == st[..p] + b + st[p + |a|..]
  {
    FindIsContains(st, a);
    var pos := Find(st, a, 0);
    if pos == -1 {
      return st, false;
    }
    st', found := st[..pos] + b + st[pos + |a|..], true;
  }

  /** The first `n` replacements, or all if there are fewer. */
  function Rewritten(s: string, a: string, b: string, n: nat): string
    decreases n
  {
    var p := Find(s, a, 0);
    if n == 0 || p == -1 then s else Rewritten(s[..p] + b + s[p + |a|..], a, b, n - 1)
  }

  lemma {:induction false} RewrittenNext(s: string, a: string, b: string, n: nat)
    ensures Rewritten(s, a, b, n + 1) == Rewritten(Rewritten(s, a, b, n), a, b, 1)
    decreases n
  {
    var p := Find(s, a, 0);
    if n > 0 && p != -1 { RewrittenNext(s[..p] + b + s[p + |a|..], a, b, n - 1); }
  }

  /** At some point nothing is left to replace. */
  ghost predicate Ends(s: string, a: string, b: string) {
    exists n: nat :: Find(Rewritten(s, a, b, n), a, 0) == -1
  }

  ghost predicate AlwaysEnds(a: string, b: string) {
    forall s: string :: Ends(s, a, b)
  }

  /** `s'` is what `n` replacements, and no fewer, leave without an occurrence. */
  ghost predicate IsReplaced(s: string, a: string, b: string, s': string, n: nat) {
    s' == Rewritten(s, a, b, n) && !Contains(s', a) && NotBefore(s, a, b, n)
  }

  ghost predicate NotBefore(s: string, a: string, b: string, n: nat) {
    forall m: nat :: m < n ==> Contains(Rewritten(s, a, b, m), a)
  }

  lemma OneMore(s: string, a: string, b: string, n: nat, t: string)
    requires NotBefore(s, a, b, n) && t == Rewritten(s, a, b, n) && Contains(t, a)
    ensures NotBefore(s, a, b, n + 1)
    ensures var p := Find(t, a, 0); p >= 0 && t[..p] + b + t[p + |a|..] == Rewritten(s, a, b, n + 1)
  {
    RewrittenNext(s, a, b, n);
    FindIsContains(t, a);
    var p := Find(t, a, 0);
    assert Rewritten(t[..p] + b + t[p + |a|..], a, b, 0) == Rewritten(t, a, b, 1);
  }

  /** Replacing shorter strings, or strings of other characters, always ends. */
  lemma {:induction false} ShrinkingEnds(s: string, a: string, b: string)
    requires Shrinks(a, b)
    ensures Ends(s, a, b)
    decreases Measure(s, a, b)
  {
    var p := Find(s, a, 0);
    if p == -1 {
      assert Find(Rewritten(s, a, b, 0), a, 0) == -1;
    } else {
      FindStands(s, a, 0);
      ReplacementShrinks(s, a, b, p);
      var t := s[..p] + b + s[p + |a|..];
      ShrinkingEnds(t, a, b);
      var n: nat :| Find(Rewritten(t, a, b, n), a, 0) == -1;
      assert Rewritten(s, a, b, n + 1) == Rewritten(t, a, b, n);
    }
  }

  /** If `a` is in `b` the replacements never end. */
  lemma NeverEnds(s: string, a: string, b: string)
    requires Contains(s, a) && Contains(b, a)
    ensures !Ends(s, a, b)
  {
    forall n: nat
      ensures Find(Rewritten(s, a, b, n), a, 0) != -1
    {
      StillContains(s, a, b, n);
      FindIsContains(Rewritten(s, a, b, n), a);
    }
  }

  lemma {:induction false} StillContains(s: string, a: string, b: string, n: nat)
    requires Contains(s, a) && Contains(b, a)
    ensures Contains(Rewritten(s, a, b, n), a)
    decreases n
  {
    if n > 0 {
      var p := Find(s, a, 0);
      FindIsContains(s, a);
      PutInContains(s[..p], b, s[p + |a|..], a);
      StillContains(s[..p] + b + s[p + |a|..], a, b, n - 1);
    }
  }

  lemma PutInContains(s: string, b: string, t: string, a: string)
    requires Contains(b, a)
    ensures Contains(s + b + t, a)
  {
    assert (s + b + t)[|s|..|s| + |b|] == b;
    PartContains(s + b + t, |s|, |s| + |b|, a);
  }

  /** `done` was searched already: it holds no occurrence, and none can reach beyond its end. */
  predicate Settled(done: string, a: string) {
    Find(done, a, 0) == -1 && (done != "" ==> done[|done| - 1] !in a)
  }

  lemma NoneReachesBeyond(done: string, rest: string, a: string, i: nat)
    requires a != "" && Settled(done, a) && i < |done|
    ensures !At(done + rest, a, i)
  {
    if i + |a| <= |done| {
      assert (done + rest)[0..|done|] == done;
      AtPart(done + rest, 0, |done|, a, i);
      if At(done, a, i) { FindIsFirst(done, a, 0, i); }
    } else {
      var k := |done| - 1 - i;
      assert a[k] in a && (done + rest)[i + k] == done[|done| - 1];
    }
  }

  lemma StandsBehind(done: string, rest: string, a: string, i: nat)
    ensures At(done + rest, a, |done| + i) <==> At(rest, a, i)
  {
    var s := done + rest;
    assert s[|done|..|s|] == rest;
    AtPart(s, |done|, |s|, a, i);
  }

  /** The first occurrence behind a settled beginning is that of the rest. */
  lemma FindBehind(done: string, rest: string, a: string)
    requires a != "" && Settled(done, a)
    ensures Find(done + rest, a, 0) == if Find(rest, a, 0) == -1 then -1 else |done| + Find(rest, a, 0)
  {
    NotFurther(done, rest, a);
    NotEarlier(done, rest, a);
  }

  lemma NotFurther(done: string, rest: string, a: string)
    ensures Find(rest, a, 0) >= 0 ==> 0 <= Find(done + rest, a, 0) <= |done| + Find(rest, a, 0)
  {
    var q := Find(rest, a, 0);
    if q >= 0 {
      FindStands(rest, a, 0);
      StandsBehind(done, rest, a, q);
      FindIsFirst(done + rest, a, 0, |done| + q);
    }
  }

  lemma NotEarlier(done: string, rest: string, a: string)
    requires a != "" && Settled(done, a)
    ensures Find(done + rest, a, 0) >= 0 ==> 0 <= Find(rest, a, 0) <= Find(done + rest, a, 0) - |done|
  {
    var p := Find(done + rest, a, 0);
    if p >= 0 {
      FindStands(done + rest, a, 0);
      if p < |done| { NoneReachesBeyond(done, rest, a, p); }
      StandsBehind(done, rest, a, p - |done|);
      FindIsFirst(rest, a, 0, p - |done|);
    }
  }

  lemma NoneBeforeFirst(rest: string, a: string, b: string, i: nat)
    requires Clean(a, b) && Find(rest, a, 0) >= 0
    ensures !At(rest[..Find(rest, a, 0)] + b, a, i)
  {
    var p := Find(rest, a, 0);
    var t := rest[..p] + b;
    if i + |a| <= p {
      assert t[0..p] == rest[0..p];
      AtPart(t, 0, p, a, i);
      AtPart(rest, 0, p, a, i);
      if At(rest, a, i) { FindIsFirst(rest, a, 0, i); }
    } else if i + |a| <= |t| {
      var k := if i < p then p - i else 0;
      assert a[k] in a && t[i + k] == b[i + k - p];
    }
  }

  lemma LastBeforeFirst(rest: string, a: string, b: string)
    requires Clean(a, b) && Find(rest, a, 0) >= 0
    ensures var t := rest[..Find(rest, a, 0)] + b; t != "" ==> t[|t| - 1] !in a
  {
    var p := Find(rest, a, 0);
    if b == "" && p > 0 && rest[p - 1] in a {
      assert At(rest, a, p - 1);
      FindIsFirst(rest, a, 0, p - 1);
    }
  }

  lemma SettledNext(done: string, rest: string, a: string, b: string)
    requires Clean(a, b) && Settled(done, a) && Find(rest, a, 0) >= 0
    ensures Settled(done + (rest[..Find(rest, a, 0)] + b), a)
  {
    var t := rest[..Find(rest, a, 0)] + b;
    FindStands(t, a, 0);
    if Find(t, a, 0) >= 0 { NoneBeforeFirst(rest, a, b, Find(t, a, 0)); }
    FindBehind(done, t, a);
    LastBeforeFirst(rest, a, b);
  }

  /** The single pass up to the first occurrence, at `p`, copies, and then goes on behind it. */
  ghost predicate PassesTo(s: string, a: string, b: string, p: int)
    requires a != ""
  {
    forall k {:trigger Key(k)} :: Bolt(k) ==>
      if p < 0 then OnePass(s, a, b) == s && Occurrences(s, a) == 0
      else
        && p + |a| <= |s| && Occurrences(s, a) == 1 + Occurrences(s[p + |a|..], a)
        && OnePass(s, a, b) == s[..p] + (b + OnePass(s[p + |a|..], a, b))
  }

  lemma {:induction false} OnePassAtFirst(s: string, a: string, b: string)
    requires a != ""
    ensures PassesTo(s, a, b, Find(s, a, 0))
  {
    assert Key(0);
    if s == "" {
    } else if a <= s {
      assert s[..0] == "" && s[0 + |a|..] == s[|a|..];
    } else {
      OnePassAtFirst(s[1..], a, b);
      FindInTail(s, a);
      OnePassLater(s, a, b, Find(s[1..], a, 0));
    }
  }

  lemma OnePassLater(s: string, a: string, b: string, p: int)
    requires a != "" && s != "" && !(a <= s) && -1 <= p && PassesTo(s[1..], a, b, p)
    ensures PassesTo(s, a, b, if p == -1 then -1 else p + 1)
  {
    assert Key(0);
    if p == -1 {
      assert [s[0]] + s[1..] == s;
    } else {
      assert s[..p + 1] == [s[0]] + s[1..][..p] && s[1..][p + |a|..] == s[p + 1 + |a|..];
      var more := b + OnePass(s[p + 1 + |a|..], a, b);
      assert [s[0]] + (s[1..][..p] + more) == s[..p + 1] + more;
    }
  }

  lemma FindInTail(s: string, a: string)
    requires s != "" && a != "" && !(a <= s)
    ensures Find(s, a, 0) == if Find(s[1..], a, 0) == -1 then -1 else 1 + Find(s[1..], a, 0)
  {
    assert s[1..] == s[1..|s|];
    var p, q := Find(s, a, 0), Find(s[1..], a, 0);
    FindStands(s, a, 0);
    FindStands(s[1..], a, 0);
    if p >= 0 {
      AtPart(s, 1, |s|, a, p - 1);
      FindIsFirst(s[1..], a, 0, p - 1);
    }
    if q >= 0 {
      AtPart(s, 1, |s|, a, q);
      FindIsFirst(s, a, 0, 1 + q);
    }
  }

  /** Replaces first occurrences as long as there are any, which ends just if at some point none is left.
      If no occurrence can arise anew this is the single pass, and the count is that of the occurrences it
      meets. */
  method ReplaceAll(st: string, a: string, b: string) returns (st': string, replacements: nat)
    requires Ends(st, a, b)
    ensures IsReplaced(st, a, b, st', replacements)
    ensures forall c :: c in st' ==> c in st || c in b
    ensures Clean(a, b) ==> st' == OnePass(st, a, b) && replacements == Occurrences(st, a)
  {
    ghost var n: nat :| Find(Rewritten(st, a, b, n), a, 0) == -1;
    st', replacements := st, 0;
    ghost var done, rest := "", st;
    if Clean(a, b) { NothingReplaced(st, a, b); }
    var found := true;
    while found
      invariant replacements <= n && st' == Rewritten(st, a, b, replacements) && NotBefore(st, a, b, replacements)
      invariant !found ==> !Contains(st', a)
      invariant forall c :: c in st' ==> c in st || c in b
      invariant Clean(a, b) ==> Replacing(st, a, b, st', replacements, done, rest)
      decreases n - replacements, found
    {
      ghost var before := st';
      FindIsContains(before, a);
      st', found := ReplaceFirst(st', a, b);
      if found {
        OneMore(st, a, b, replacements, before);
        if Clean(a, b) {
          done, rest := OneReplaced(st, a, b, before, replacements, done, rest);
        }
        replacements := replacements + 1;
      }
    }
    if Clean(a, b) {
      FindIsContains(st', a);
      AllReplaced(st, a, b, st', replacements, done, rest);
    }
  }

  /** The replacements so far are those of the single pass up to `rest` (see Bolts). */
  ghost predicate Replacing(st: string, a: string, b: string, now: string, n: nat, done: string, rest: string)
    requires a != ""
  {
    forall k {:trigger Key(k)} :: Bolt(k) ==>
      && now == done + rest && Settled(done, a)
      && done + OnePass(rest, a, b) == OnePass(st, a, b)
      && n + Occurrences(rest, a) == Occurrences(st, a)
  }

  lemma NothingReplaced(st: string, a: string, b: string)
    requires a != ""
    ensures Replacing(st, a, b, st, 0, "", st)
  {
    assert "" + st == st && "" + OnePass(st, a, b) == OnePass(st, a, b);
    IsReplacing(st, a, b, st, 0, "", st);
  }

  lemma OneReplaced(st: string, a: string, b: string, now: string, n: nat, done: string, rest: string)
    returns (done': string, rest': string)
    requires Clean(a, b) && Replacing(st, a, b, now, n, done, rest) && Find(now, a, 0) >= 0
    ensures var p := Find(now, a, 0); Replacing(st, a, b, now[..p] + b + now[p + |a|..], n + 1, done', rest')
  {
    var q := FirstInRest(st, a, b, now, n, done, rest);
    OneReplacedAt(st, a, b, n, done, rest, q);
    CutBehind(done, rest, q, |a|);
    done', rest' := done + (rest[..q] + b), rest[q + |a|..];
    assert done + rest[..q] + b == done';
  }

  lemma FirstInRest(st: string, a: string, b: string, now: string, n: nat, done: string, rest: string) returns (q: nat)
    requires a != "" && Replacing(st, a, b, now, n, done, rest) && Find(now, a, 0) >= 0
    ensures q + |a| <= |rest| && q == Find(rest, a, 0) && Find(now, a, 0) == |done| + q && now == done + rest
  {
    assert Key(0);
    FindBehind(done, rest, a);
    q := Find(rest, a, 0);
  }

  lemma OneReplacedAt(st: string, a: string, b: string, n: nat, done: string, rest: string, q: nat)
    requires Clean(a, b) && q == Find(rest, a, 0) && Replacing(st, a, b, done + rest, n, done, rest)
    ensures var done', rest' := done + (rest[..q] + b), rest[q + |a|..];
      Replacing(st, a, b, done' + rest', n + 1, done', rest')
  {
    assert Key(0);
    OnePassAtFirst(rest, a, b);
    PassGoesOn(st, a, b, done, rest, q);
    SettledNext(done, rest, a, b);
    IsReplacing(st, a, b, done + (rest[..q] + b) + rest[q + |a|..], n + 1, done + (rest[..q] + b), rest[q + |a|..]);
  }

  lemma CutBehind(done: string, rest: string, q: nat, k: nat)
    requires q + k <= |rest|
    ensures (done + rest)[..|done| + q] == done + rest[..q] && (done + rest)[|done| + q + k..] == rest[q + k..]
  {
  }

  lemma IsReplacing(st: string, a: string, b: string, now: string, n: nat, done: string, rest: string)
    requires a != "" && now == done + rest && Settled(done, a)
    requires done + OnePass(rest, a, b) == OnePass(st, a, b) && n + Occurrences(rest, a) == Occurrences(st, a)
    ensures Replacing(st, a, b, now, n, done, rest)
  {
  }

  lemma AllReplaced(st: string, a: string, b: string, now: string, n: nat, done: string, rest: string)
    requires a != "" && Replacing(st, a, b, now, n, done, rest) && Find(now, a, 0) == -1
    ensures now == OnePass(st, a, b) && n == Occurrences(st, a)
  {
    assert Key(0);
    FindBehind(done, rest, a);
    OnePassAtFirst(rest, a, b);
  }

  lemma PassGoesOn(st: string, a: string, b: string, done: string, rest: string, q: nat)
    requires a != "" && done + OnePass(rest, a, b) == OnePass(st, a, b) && PassesTo(rest, a, b, q)
    ensures q + |a| <= |rest| && done + (rest[..q] + b) + OnePass(rest[q + |a|..], a, b) == OnePass(st, a, b)
    ensures Occurrences(rest, a) == 1 + Occurrences(rest[q + |a|..], a)
  {
    assert Key(0);
  }

  /** The string with every undesired character replaced. */
  function Stripped(s: string, undesired: set<string>, b: string): string {
    if s == "" then "" else (if [s[0]] in undesired then b else [s[0]]) + Stripped(s[1..], undesired, b)
  }

  /** How many of its characters are undesired. */
  function Undesired(s: string, undesired: set<string>): nat {
    if s == "" then 0 else (if [s[0]] in undesired then 1 else 0) + Undesired(s[1..], undesired)
  }

  /** Replaced one after the other, in that order. */
  ghost predicate ReplacedInTurn(s: string, order: seq<string>, b: string, s': string, n: nat) {
    if order == [] then s' == s && n == 0
    else
      var k := |order| - 1;
      exists t, m: nat :: m <= n && ReplacedInTurn(s, order[..k], b, t, m) && IsReplaced(t, order[k], b, s', n - m)
  }

  /** `order` lists the members of a set. */
  predicate Lists(order: seq<string>, members: set<string>) {
    multiset(order) == multiset(members)
  }

  /** Single characters, none of which is in the replacement. */
  predicate Characters(undesired: set<string>, b: string) {
    forall a :: a in undesired ==> |a| == 1 && a[0] !in b
  }

  /** Replaces every undesired string, one after the other, in any order. If they are single characters
      that do not occur in the replacement, the order does not matter: each is replaced where it stands. */
  method StripStr(st: string, b: string, undesired: set<string>)
    returns (st': string, replacements: nat, ghost order: seq<string>)
    requires forall a :: a in undesired ==> AlwaysEnds(a, b)
    ensures Lists(order, undesired) && ReplacedInTurn(st, order, b, st', replacements)
    ensures Characters(undesired, b) ==> st' == Stripped(st, undesired, b) && replacements == Undesired(st, undesired)
  {
    st', replacements, order := st, 0, [];
    var rest := undesired;
    NothingStripped(st, b);
    while rest != {}
      invariant rest <= undesired && Lists(order, undesired - rest)
      invariant ReplacedInTurn(st, order, b, st', replacements)
      invariant Characters(undesired, b) ==>
        st' == Stripped(st, undesired - rest, b) && replacements == Undesired(st, undesired - rest)
      decreases rest
    {
      var a :| a in rest;
      var n;
      ghost var before, done := st', undesired - rest;
      assert AlwaysEnds(a, b);
      st', n := ReplaceAll(st', a, b);
      CharactersNext(st, done, undesired, b, a, before, replacements, st', n);
      NextTurn(st, order, b, before, replacements, a, st', n);
      ListsNext(order, done, a);
      replacements, order, rest := replacements + n, order + [a], rest - {a};
      assert undesired - rest == done + {a};
    }
    assert undesired - rest == undesired;
  }

  lemma CharactersNext(st: string, done: set<string>, undesired: set<string>, b: string, a: string, t: string, m: nat,
                       st': string, n: nat)
    requires Characters(undesired, b) ==> t == Stripped(st, done, b) && m == Undesired(st, done)
    requires a in undesired && a !in done && (Clean(a, b) ==> st' == OnePass(t, a, b) && n == Occurrences(t, a))
    ensures Characters(undesired, b) ==> st' == Stripped(st, done + {a}, b) && m + n == Undesired(st, done + {a})
  {
    if Characters(undesired, b) { StrippedNext(st, done, a, b); }
  }

  lemma NextTurn(s: string, order: seq<string>, b: string, t: string, m: nat, a: string, s': string, n: nat)
    requires ReplacedInTurn(s, order, b, t, m) && IsReplaced(t, a, b, s', n)
    ensures ReplacedInTurn(s, order + [a], b, s', m + n)
  {
    assert (order + [a])[..|order|] == order && (order + [a])[|order|] == a && (m + n) - m == n;
  }

  lemma ListsNext(order: seq<string>, members: set<string>, a: string)
    requires Lists(order, members) && a !in members
    ensures Lists(order + [a], members + {a})
  {
  }

  lemma {:induction false} NothingStripped(s: string, b: string)
    ensures Stripped(s, {}, b) == s && Undesired(s, {}) == 0
  {
    if s != "" {
      NothingStripped(s[1..], b);
      assert [s[0]] + s[1..] == s;
    }
  }

  /** One more character: what was put in for others stays. */
  lemma {:induction false} StrippedNext(s: string, done: set<string>, a: string, b: string)
    requires |a| == 1 && a[0] !in b && a !in done
    ensures OnePass(Stripped(s, done, b), a, b) == Stripped(s, done + {a}, b)
    ensures Undesired(s, done) + Occurrences(Stripped(s, done, b), a) == Undesired(s, done + {a})
  {
    if s != "" {
      StrippedNext(s[1..], done, a, b);
      var more := Stripped(s[1..], done, b);
      if [s[0]] in done {
        PassCopies(b, more, a, b);
      } else {
        var t := [s[0]] + more;
        assert t[1..] == more && (a <= t <==> a == [s[0]]);
      }
    }
  }

  lemma {:induction false} PassCopies(s: string, more: string, a: string, b: string)
    requires |a| == 1 && a[0] !in s
    ensures OnePass(s + more, a, b) == s + OnePass(more, a, b) && Occurrences(s + more, a) == Occurrences(more, a)
  {
    if s == "" {
      assert s + more == more;
    } else {
      PassCopies(s[1..], more, a, b);
      assert (s + more)[1..] == s[1..] + more;
    }
  }

  // ---------------------------------------------------------------- splitting

  function Join(pieces: seq<string>, d: string): string {
    if pieces == [] then "" else if |pieces| == 1 then pieces[0] else pieces[0] + d + Join(pieces[1..], d)
  }

  /** The pieces of `s` between delimiters, each delimiter being taken where it first occurs. */
  predicate IsSplit(pieces: seq<string>, s: string, d: string) {
    && pieces != [] && Join(pieces, d) == s
    && (forall i :: 0 <= i < |pieces| - 1 ==> Find(pieces[i] + d, d, 0) == |pieces[i]|)
    && Find(pieces[|pieces| - 1], d, 0) == -1
  }

  /** No piece contains the delimiter. */
  lemma PiecesAreFree(pieces: seq<string>, s: string, d: string, i: nat)
    requires IsSplit(pieces, s, d) && i < |pieces| && d != ""
    ensures !Contains(pieces[i], d)
  {
    FindIsContains(pieces[i], d);
    if i < |pieces| - 1 {
      var p := Find(pieces[i], d, 0);
      FindStands(pieces[i], d, 0);
      if p >= 0 {
        assert (pieces[i] + d)[0..|pieces[i]|] == pieces[i];
        AtPart(pieces[i] + d, 0, |pieces[i]|, d, p);
        FindIsFirst(pieces[i] + d, d, 0, p);
      }
    }
  }

  /** A string has only one such split. */
  lemma {:induction false} SplitIsUnique(p: seq<string>, q: seq<string>, s: string, d: string)
    requires IsSplit(p, s, d) && IsSplit(q, s, d) && d != ""
    ensures p == q
    decreases |p|
  {
    FirstPiece(p, s, d);
    FirstPiece(q, s, d);
    if |p| > 1 {
      SplitIsUnique(p[1..], q[1..], s[|p[0]| + |d|..], d);
      assert p == [p[0]] + p[1..] && q == [q[0]] + q[1..];
    }
  }

  /** The first piece ends where the delimiter first occurs. */
  lemma FirstPiece(p: seq<string>, s: string, d: string)
    requires IsSplit(p, s, d) && d != ""
    ensures |p| == 1 <==> Find(s, d, 0) == -1
    ensures |p| == 1 ==> p == [s]
    ensures |p| > 1 ==> Find(s, d, 0) == |p[0]| && p[0] == s[..|p[0]|] && IsSplit(p[1..], s[|p[0]| + |d|..], d)
  {
    if |p| > 1 {
      var n := |p[0]|;
      assert s == p[0] + d + Join(p[1..], d);
      assert s[..n] == p[0] && s[n..n + |d|] == d && s[n + |d|..] == Join(p[1..], d);
      assert s[0..n + |d|] == p[0] + d;
      var i := Find(s, d, 0);
      assert At(s, d, n);
      FindIsFirst(s, d, 0, n);
      FindStands(s, d, 0);
      AtPart(s, 0, n + |d|, d, i);
      FindIsFirst(s[0..n + |d|], d, 0, i);
    }
  }

  /** Pieces with a delimiter behind each. */
  function Lead(pieces: seq<string>, d: string): string {
    if pieces == [] then "" else Lead(pieces[..|pieces| - 1], d) + (pieces[|pieces| - 1] + d)
  }

  lemma {:induction false} JoinIsLead(pieces: seq<string>, last: string, d: string)
    ensures Join(pieces + [last], d) == Lead(pieces, d) + last
  {
    if pieces != [] {
      var n := |pieces| - 1;
      var p := pieces[n];
      JoinIsLead(pieces[..n], p + d + last, d);
      LastTwo(pieces[..n], p, last, d);
      assert pieces + [last] == pieces[..n] + [p, last];
      assert Lead(pieces[..n], d) + (p + d + last) == Lead(pieces[..n], d) + (p + d) + last;
    }
  }

  lemma {:induction false} LastTwo(pieces: seq<string>, p: string, q: string, d: string)
    ensures Join(pieces + [p, q], d) == Join(pieces + [p + d + q], d)
  {
    if pieces == [] {
      assert [p, q][1..] == [q];
      assert Join([p, q], d) == p + d + q;
      assert pieces + [p, q] == [p, q] && pieces + [p + d + q] == [p + d + q];
    } else {
      LastTwo(pieces[1..], p, q, d);
      assert (pieces + [p, q])[1..] == pieces[1..] + [p, q];
      assert (pieces + [p + d + q])[1..] == pieces[1..] + [p + d + q];
    }
  }

  /** Splits at one delimiter. */
  method SplitString(source: string, delimiter: string) returns (result: seq<string>)
    requires delimiter != ""
    ensures IsSplit(result, source, delimiter)
  {
    result := [];
    var start: nat := 0;
    var end := Find(source, delimiter, 0);
    while end != -1
      invariant SplitSoFar(result, source, delimiter, start) && end == Find(source, delimiter, start)
      decreases |source| - start
    {
      var piece := source[start..end];
      OnePieceMore(result, source, delimiter, start, end);
      result := result + [piece];
      start := end + |delimiter|;
      end := Find(source, delimiter, start);
    }
    LastPiece(source, delimiter, start);
    JoinIsLead(result, source[start..], delimiter);
    Concat(source, 0, start, |source|);
    result := result + [source[start..]];
  }

  /** The pieces found in front of position `start`. */
  predicate SplitSoFar(pieces: seq<string>, s: string, d: string, start: nat) {
    && start <= |s| && Lead(pieces, d) == s[..start]
    && forall i :: 0 <= i < |pieces| ==> Find(pieces[i] + d, d, 0) == |pieces[i]|
  }

  lemma OnePieceMore(pieces: seq<string>, s: string, d: string, start: nat, end: nat)
    requires d != "" && SplitSoFar(pieces, s, d, start) && end == Find(s, d, start)
    ensures end + |d| <= |s| && SplitSoFar(pieces + [s[start..end]], s, d, end + |d|)
  {
    FindStands(s, d, start);
    AtIsSlice(s, d, end);
    FindInPart(s, d, start, end);
    Joined(s, d, start, end, end + |d|);
    LeadSnoc(pieces, s[start..end], d);
    LeadGoesOn(Lead(pieces, d), s, d, start, end, end + |d|);
  }

  lemma LeadGoesOn(lead: string, s: string, d: string, start: nat, end: nat, hi: nat)
    requires start <= end <= hi <= |s| && s[end..hi] == d && lead == s[..start]
    ensures lead + (s[start..end] + d) == s[..hi]
  {
    Concat(s, start, end, hi);
    Concat(s, 0, start, hi);
  }

  lemma LeadSnoc(pieces: seq<string>, p: string, d: string)
    ensures Lead(pieces + [p], d) == Lead(pieces, d) + (p + d)
  {
    assert (pieces + [p])[..|pieces|] == pieces;
  }

  lemma Joined(s: string, d: string, start: nat, end: nat, hi: nat)
    requires start <= end <= hi <= |s| && s[end..hi] == d
    ensures s[start..end] + d == s[start..hi]
  {
    Concat(s, start, end, hi);
  }

  lemma AtIsSlice(s: string, d: string, i: nat)
    requires At(s, d, i)
    ensures s[i..i + |d|] == d
  {
  }

  lemma Concat(s: string, i: nat, j: nat, k: nat)
    requires i <= j <= k <= |s|
    ensures s[i..j] + s[j..k] == s[i..k]
  {
  }

  lemma FindInPart(s: string, d: string, start: nat, end: nat)
    requires start <= |s| && end == Find(s, d, start)
    ensures end + |d| <= |s| && Find(s[start..end + |d|], d, 0) == end - start
  {
    FindStands(s, d, start);
    var t := s[start..end + |d|];
    AtPart(s, start, end + |d|, d, end - start);
    FindIsFirst(t, d, 0, end - start);
    NoneEarlier(s, d, start, end, Find(t, d, 0));
  }

  lemma NoneEarlier(s: string, d: string, start: nat, end: nat, p: nat)
    requires start <= end && end + |d| <= |s| && end == Find(s, d, start) && p == Find(s[start..end + |d|], d, 0)
    ensures end <= start + p
  {
    FindStands(s[start..end + |d|], d, 0);
    AtPart(s, start, end + |d|, d, p);
    FindIsFirst(s, d, start, start + p);
  }

  lemma LastPiece(s: string, d: string, start: nat)
    requires start <= |s| && Find(s, d, start) == -1
    ensures Find(s[start..], d, 0) == -1
  {
    assert s[start..] == s[start..|s|];
    var p := Find(s[start..], d, 0);
    FindStands(s[start..], d, 0);
    if p >= 0 {
      AtPart(s, start, |s|, d, p);
      FindIsFirst(s, d, start, start + p);
    }
  }

  function Flatten(groups: seq<seq<string>>): seq<string> {
    if groups == [] then [] else Flatten(groups[..|groups| - 1]) + groups[|groups| - 1]
  }

  /** Every string is replaced by its pieces (see Bolts). */
  ghost predicate SplitsTo(source: seq<string>, d: string, result: seq<string>) {
    forall k {:trigger Key(k)} :: Bolt(k) ==>
      exists groups: seq<seq<string>> :: AreSplits(groups, source, d) && result == Flatten(groups)
  }

  predicate AreSplits(groups: seq<seq<string>>, source: seq<string>, d: string) {
    |groups| == |source| && forall k :: 0 <= k < |groups| ==> IsSplit(groups[k], source[k], d)
  }

  /** Splits each of several strings at one delimiter. */
  method SplitStrings(source: seq<string>, delimiter: string) returns (result: seq<string>)
    requires delimiter != ""
    ensures SplitsTo(source, delimiter, result)
  {
    result := [];
    ghost var groups: seq<seq<string>> := [];
    var k := 0;
    while k < |source|
      invariant k == |groups| <= |source| && result == Flatten(groups)
      invariant forall i :: 0 <= i < k ==> IsSplit(groups[i], source[i], delimiter)
    {
      var next := SplitString(source[k], delimiter);
      assert (groups + [next])[..k] == groups;
      groups := groups + [next];
      result := result + next;
      k := k + 1;
    }
    assert AreSplits(groups, source, delimiter);
  }

  /** Split at one delimiter after the other, in that order. */
  ghost predicate SplitInTurn(source: string, order: seq<string>, result: seq<string>)
    decreases |order|
  {
    forall k {:trigger Key(k)} :: Bolt(k) ==>
      if order == [] then result == [source]
      else
        var n := |order| - 1;
        exists mid :: SplitInTurn(source, order[..n], mid) && SplitsTo(mid, order[n], result)
  }

  /** Splits at every delimiter of a set, one after the other, in any order. */
  method SplitAtAll(source: string, delimiters: set<string>) returns (result: seq<string>, ghost order: seq<string>)
    requires "" !in delimiters
    ensures Lists(order, delimiters) && SplitInTurn(source, order, result)
    ensures FreeOf(result, delimiters) && Rejoins(source, result, delimiters)
  {
    result, order := [source], [];
    var rest := delimiters;
    while rest != {}
      invariant rest <= delimiters && Lists(order, delimiters - rest) && SplitInTurn(source, order, result)
      decreases rest
    {
      var delimiter :| delimiter in rest;
      ghost var done := delimiters - rest;
      ghost var before := result;
      result := SplitStrings(result, delimiter);
      ListsNext(order, done, delimiter);
      NextSplit(source, order, before, delimiter, result);
      order, rest := order + [delimiter], rest - {delimiter};
      assert delimiters - rest == done + {delimiter};
    }
    assert delimiters - rest == delimiters;
    SplitIsFree(source, order, delimiters, result);
    SplitRejoins(source, order, delimiters, result);
  }

  /** No piece contains any of the delimiters. */
  ghost predicate FreeOf(pieces: seq<string>, delimiters: set<string>) {
    forall d, i :: d in delimiters && 0 <= i < |pieces| ==> !Contains(pieces[i], d)
  }

  /** Put back together, with delimiters in between, the pieces give the source. */
  ghost predicate Rejoins(source: string, pieces: seq<string>, delimiters: set<string>) {
    exists seps :: Weaves(source, pieces, seps) && forall x :: x in seps ==> x in delimiters
  }

  lemma SplitIsFree(source: string, order: seq<string>, delimiters: set<string>, result: seq<string>)
    requires Lists(order, delimiters) && SplitInTurn(source, order, result) && "" !in delimiters
    ensures FreeOf(result, delimiters)
  {
    forall d, i | d in delimiters && 0 <= i < |result|
      ensures !Contains(result[i], d)
    {
      assert d in multiset(order) && "" !in multiset(order);
      NoPieceContains(source, order, result, d, i);
    }
  }

  lemma SplitRejoins(source: string, order: seq<string>, delimiters: set<string>, result: seq<string>)
    requires Lists(order, delimiters) && SplitInTurn(source, order, result)
    ensures Rejoins(source, result, delimiters)
  {
    var seps := WeaveBack(source, order, result);
    forall x | x in seps
      ensures x in delimiters
    {
      assert x in multiset(order);
    }
  }

  lemma NextSplit(source: string, order: seq<string>, mid: seq<string>, d: string, result: seq<string>)
    requires SplitInTurn(source, order, mid) && SplitsTo(mid, d, result)
    ensures SplitInTurn(source, order + [d], result)
  {
    assert order + [d] != [] && (order + [d])[..|order|] == order && (order + [d])[|order|] == d;
  }

  lemma {:induction false} NoPieceContains(source: string, order: seq<string>, result: seq<string>, d: string, i: nat)
    requires SplitInTurn(source, order, result) && "" !in order && d in order && i < |result|
    ensures !Contains(result[i], d)
    decreases |order|
  {
    assert Key(0);
    var n := |order| - 1;
    var mid :| SplitInTurn(source, order[..n], mid) && SplitsTo(mid, order[n], result);
    var groups: seq<seq<string>> :| AreSplits(groups, mid, order[n]) && result == Flatten(groups);
    var k, j := InGroup(groups, i);
    if d == order[n] {
      PiecesAreFree(groups[k], mid[k], d, j);
    } else {
      NoPieceContains(source, order[..n], mid, d, k);
      var lo, hi := PieceIsPart(groups[k], mid[k], order[n], j);
      if Contains(result[i], d) { PartContains(mid[k], lo, hi, d); }
    }
  }

  lemma {:induction false} InGroup(groups: seq<seq<string>>, i: nat) returns (k: nat, j: nat)
    requires i < |Flatten(groups)|
    ensures k < |groups| && j < |groups[k]| && Flatten(groups)[i] == groups[k][j]
  {
    var n := |groups| - 1;
    var before := Flatten(groups[..n]);
    if i < |before| {
      k, j := InGroup(groups[..n], i);
    } else {
      k, j := n, i - |before|;
    }
  }

  lemma {:induction false} PieceIsPart(pieces: seq<string>, s: string, d: string, i: nat) returns (lo: nat, hi: nat)
    requires pieces != [] && Join(pieces, d) == s && i < |pieces|
    ensures lo <= hi <= |s| && s[lo..hi] == pieces[i]
  {
    if |pieces| == 1 {
      lo, hi := 0, |s|;
    } else if i == 0 {
      lo, hi := 0, |pieces[0]|;
    } else {
      var rest := Join(pieces[1..], d);
      lo, hi := PieceIsPart(pieces[1..], rest, d, i - 1);
      var off := |pieces[0]| + |d|;
      assert s == pieces[0] + d + rest;
      assert s[off..] == rest;
      assert s[off + lo..off + hi] == s[off..][lo..hi];
      lo, hi := off + lo, off + hi;
    }
  }

  // ---------------------------------------------------------------- putting back together

  /** The pieces with a separator between any two. */
  function Weave(pieces: seq<string>, seps: seq<string>): string
    requires |pieces| == |seps| + 1
  {
    if seps == [] then pieces[0]
    else
      var n := |seps| - 1;
      Weave(pieces[..n + 1], seps[..n]) + (seps[n] + pieces[n + 1])
  }

  predicate Weaves(s: string, pieces: seq<string>, seps: seq<string>) {
    |pieces| == |seps| + 1 && Weave(pieces, seps) == s
  }

  lemma {:induction false} WeaveConcat(p: seq<string>, s: seq<string>, x: string, q: seq<string>, t: seq<string>)
    requires |p| == |s| + 1 && |q| == |t| + 1
    ensures Weave(p + q, s + [x] + t) == Weave(p, s) + (x + Weave(q, t))
    decreases |t|
  {
    var n := |t|;
    assert (p + q)[..|p| + n] == p + q[..n] && (s + [x] + t)[..|s| + n] == (s + [x] + t)[..|s| + n];
    if n == 0 {
      assert p + q[..0] == p && (s + [x] + t)[..|s|] == s && s + [x] + t == s + [x];
    } else {
      WeaveConcat(p, s, x, q[..n], t[..n - 1]);
      assert (s + [x] + t)[..|s| + n] == s + [x] + t[..n - 1];
      assert (p + q)[|p| + n] == q[n] && (s + [x] + t)[|s| + n] == t[n - 1];
      assert Weave(p, s) + (x + Weave(q[..n], t[..n - 1])) + (t[n - 1] + q[n])
        == Weave(p, s) + (x + (Weave(q[..n], t[..n - 1]) + (t[n - 1] + q[n])));
    }
  }

  lemma {:induction false} JoinIsWeave(pieces: seq<string>, d: string) returns (seps: seq<string>)
    requires pieces != []
    ensures Weaves(Join(pieces, d), pieces, seps) && forall x :: x in seps ==> x == d
  {
    if |pieces| == 1 {
      seps := [];
    } else {
      var more := JoinIsWeave(pieces[1..], d);
      WeaveConcat([pieces[0]], [], d, pieces[1..], more);
      assert [pieces[0]] + pieces[1..] == pieces && [] + [d] + more == [d] + more;
      seps := [d] + more;
      assert pieces[0] + d + Join(pieces[1..], d) == pieces[0] + (d + Join(pieces[1..], d));
    }
  }

  /** Splitting the pieces again weaves more separators in, and changes nothing else. */
  lemma {:induction false} WeaveGroups(mid: seq<string>, seps: seq<string>, groups: seq<seq<string>>, d: string)
    returns (more: seq<string>)
    requires |mid| == |seps| + 1 && AreSplits(groups, mid, d)
    ensures Weaves(Weave(mid, seps), Flatten(groups), more) && forall x :: x in more ==> x == d || x in seps
    decreases |mid|
  {
    var n := |seps|;
    var last := JoinIsWeave(groups[n], d);
    if n == 0 {
      assert groups[..0] == [] && Flatten(groups) == groups[0];
      more := last;
    } else {
      var before := WeaveGroups(mid[..n], seps[..n - 1], groups[..n], d);
      WeaveConcat(Flatten(groups[..n]), before, seps[n - 1], groups[n], last);
      more := before + [seps[n - 1]] + last;
    }
  }

  lemma {:induction false} WeaveBack(source: string, order: seq<string>, result: seq<string>)
    returns (seps: seq<string>)
    requires SplitInTurn(source, order, result)
    ensures Weaves(source, result, seps) && forall x :: x in seps ==> x in order
    decreases |order|
  {
    assert Key(0);
    if order == [] {
      seps := [];
    } else {
      var n := |order| - 1;
      var mid :| SplitInTurn(source, order[..n], mid) && SplitsTo(mid, order[n], result);
      var groups: seq<seq<string>> :| AreSplits(groups, mid, order[n]) && result == Flatten(groups);
      var before := WeaveBack(source, order[..n], mid);
      seps := WeaveGroups(mid, before, groups, order[n]);
    }
  }
}
