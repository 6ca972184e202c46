/**
 Where each argument of the vector ends up: a pass is a stable partition. Every scanned
 argument carries a mark - option part or plain word - and the two groups keep their order.
 */
module Partition {
  import opened Maybes
  import opened OptionScan

  /** One mark per scanned argument: true for options, their consumed arguments and "--". */
  function Marks(step: Stepper, gnu: bool, a: seq<string>): seq<bool> {
    if a == [] then []
    else if IsWord(a[0]) then if gnu then [false] + Marks(step, gnu, a[1..]) else []
    else if a[0] == "--" then [true]
    else
      var s := step(a[0], Candidate(a));
      if s.Fatal? then []
      else if Used(s, a) == 2 then [true, true] + Marks(step, gnu, a[2..])
      else [true] + Marks(step, gnu, a[1..])
  }

  /** The elements of `a` whose mark is `v`, in their order. */
  function Pick<T>(a: seq<T>, marks: seq<bool>, v: bool): seq<T>
    requires |marks| <= |a|
  {
    if marks == [] then []
    else (if marks[0] == v then [a[0]] else []) + Pick(a[1..], marks[1..], v)
  }

  ghost predicate PartitionedBy(r: Scan, a: seq<string>, marks: seq<bool>) {
    && |marks| <= |a|
    && r.rest == a[|marks|..]
    && r.opts == Pick(a, marks, true)
    && r.words == Pick(a, marks, false)
    && forall i :: 0 <= i < |marks| && !marks[i] ==> IsWord(a[i])
  }

  /** A pass splits the vector into options and words without changing the order within either,
      and leaves a suffix unscanned. */
  lemma {:induction false} StablePartition(step: Stepper, gnu: bool, a: seq<string>)
    ensures PartitionedBy(ScanArgs(step, gnu, a), a, Marks(step, gnu, a))
    decreases |a|
  {
    if a == [] {
    } else if IsWord(a[0]) {
      if gnu {
        StablePartition(step, gnu, a[1..]);
        assert [a[0]] + a[1..] == a;
      }
    } else if a[0] == "--" {
      assert Pick(a[1..], [], true) == [] && Pick(a[1..], [], false) == [];
    } else {
      var s := step(a[0], Candidate(a));
      if s.Done? {
        StablePartitionOption(step, gnu, a, s);
      }
    }
  }

  lemma {:induction false} StablePartitionOption(step: Stepper, gnu: bool, a: seq<string>, s: Step)
    requires a != [] && IsOption(a[0]) && s == step(a[0], Candidate(a)) && s.Done?
    ensures PartitionedBy(ScanArgs(step, gnu, a), a, Marks(step, gnu, a))
    decreases |a|, 0
  {
    var k := Used(s, a);
    var r, m := ScanArgs(step, gnu, a[k..]), Marks(step, gnu, a[k..]);
    StablePartition(step, gnu, a[k..]);
    if k == 2 { PrefixedTwice(r, a, m); } else { PrefixedOption(r, a, m); }
  }

  lemma PrefixedTwice(r: Scan, a: seq<string>, m: seq<bool>)
    requires |a| > 1 && PartitionedBy(r, a[2..], m)
    ensures PartitionedBy(r.(opts := a[..2] + r.opts), a, [true, true] + m)
  {
    assert a[1..][1..] == a[2..];
    PrefixedOption(r, a[1..], m);
    PrefixedOption(r.(opts := a[1..2] + r.opts), a, [true] + m);
    assert [true, true] + m == [true] + ([true] + m);
    assert a[..2] + r.opts == a[..1] + (a[1..2] + r.opts);
  }

  lemma PrefixedOption(r: Scan, a: seq<string>, m: seq<bool>)
    requires a != [] && PartitionedBy(r, a[1..], m)
    ensures PartitionedBy(r.(opts := a[..1] + r.opts), a, [true] + m)
  {
    assert a[..1] == [a[0]];
    assert [a[0]] + a[1..] == a;
  }

  lemma AddFirst<T>(x: T, a: multiset<T>, b: multiset<T>, c: multiset<T>, d: multiset<T>)
    requires a + b + c == d
    ensures (multiset{x} + a) + b + c == multiset{x} + d && a + (multiset{x} + b) + c == multiset{x} + d
  {
  }

  lemma {:induction false} PickPermutes<T>(a: seq<T>, marks: seq<bool>)
    requires |marks| <= |a|
    ensures multiset(Pick(a, marks, true)) + multiset(Pick(a, marks, false)) + multiset(a[|marks|..]) == multiset(a)
  {
    if marks == [] {
      assert a[0..] == a;
    } else {
      var x, rest := a[0], a[1..];
      PickPermutes(rest, marks[1..]);
      assert a == [x] + rest && rest[|marks| - 1..] == a[|marks|..];
      var ts, fs := Pick(rest, marks[1..], true), Pick(rest, marks[1..], false);
      AddFirst(x, multiset(ts), multiset(fs), multiset(a[|marks|..]), multiset(rest));
      if marks[0] {
        assert Pick(a, marks, true) == [x] + ts && Pick(a, marks, false) == fs;
      } else {
        assert Pick(a, marks, true) == ts && Pick(a, marks, false) == [x] + fs;
      }
    }
  }

  /** No argument is lost or invented. */
  lemma ScanPermutes(step: Stepper, gnu: bool, a: seq<string>)
    ensures var r := ScanArgs(step, gnu, a);
      multiset(r.opts + r.words + r.rest) == multiset(a)
  {
    StablePartition(step, gnu, a);
    PickPermutes(a, Marks(step, gnu, a));
  }

  /** A successful pass stops early only at the terminator "--" (which is then the last of the
      option part) or, without gnu, at the first word; without gnu no word is ever skipped. */
  lemma {:induction false} WhereScanStops(step: Stepper, gnu: bool, a: seq<string>)
    requires !ScanArgs(step, gnu, a).fatal
    ensures var r := ScanArgs(step, gnu, a);
      && (!gnu ==> r.words == [])
      && (r.rest != [] ==>
            || (r.opts != [] && r.opts[|r.opts| - 1] == "--")
            || (!gnu && IsWord(r.rest[0])))
    decreases |a|
  {
    if a == [] || a[0] == "--" {
    } else if IsWord(a[0]) {
      if gnu { WhereScanStops(step, gnu, a[1..]); }
    } else {
      WhereScanStops(step, gnu, a[Used(step(a[0], Candidate(a)), a)..]);
    }
  }

  /** Without gnu nothing is reordered, whether the pass succeeds or is aborted. */
  lemma {:induction false} PosixKeepsOrder(step: Stepper, a: seq<string>)
    ensures var r := ScanArgs(step, false, a);
      r.words == [] && r.opts + r.rest == a
    decreases |a|
  {
    if a != [] && !IsWord(a[0]) && a[0] != "--" {
      var s := step(a[0], Candidate(a));
      if s.Done? {
        var k := Used(s, a);
        PosixKeepsOrder(step, a[k..]);
        var r := ScanArgs(step, false, a[k..]);
        assert a[..k] + r.opts + r.rest == a[..k] + (r.opts + r.rest);
      }
    }
  }

  lemma ScanKeepsLength(step: Stepper, gnu: bool, a: seq<string>)
    ensures var r := ScanArgs(step, gnu, a); |r.opts + r.words + r.rest| == |a|
  {
    ScanPermutes(step, gnu, a);
    var r := ScanArgs(step, gnu, a);
    assert |multiset(r.opts + r.words + r.rest)| == |r.opts + r.words + r.rest|;
    assert |multiset(a)| == |a|;
  }
}
