/**
 The argument vector as an array with a NULL terminator or a count, and the in-place rotation
 that moves an argument in front of the words already passed over.
 */
module ArgVector {
  import opened Maybes
  import opened OptionScan

  /** The number of arguments in front of the first NULL, or `argc` if that comes first. A negative
      `argc` means the NULL decides. */
  function Length(v: seq<Maybe<string>>, argc: int): (n: nat)
    requires argc <= |v|
    ensures n <= |v| && (argc >= 0 ==> n <= argc)
    ensures forall i :: 0 <= i < n ==> v[i].Some?
    ensures n < |v| && n != argc ==> v[n] == None
  {
    LengthFrom(v, argc, 0)
  }

  function LengthFrom(v: seq<Maybe<string>>, argc: int, from: nat): (n: nat)
    requires argc <= |v| && from <= |v| && (argc >= 0 ==> from <= argc)
    ensures from <= n <= |v| && (argc >= 0 ==> n <= argc)
    ensures forall i :: from <= i < n ==> v[i].Some?
    ensures n < |v| && n != argc ==> v[n] == None
    decreases |v| - from
  {
    if from == |v| || from == argc || v[from] == None then from else LengthFrom(v, argc, from + 1)
  }

  /** A count of arguments that are there, or a vector that ends with NULL. */
  predicate WellFormed(v: seq<Maybe<string>>, argc: int) {
    && argc <= |v|
    && (argc < 0 ==> Length(v, argc) < |v|)
  }

  function Args(v: seq<Maybe<string>>, argc: int): (a: seq<string>)
    requires argc <= |v|
    ensures |a| == Length(v, argc)
    ensures forall i :: 0 <= i < |a| ==> v[i] == Some(a[i])
  {
    seq(Length(v, argc), i requires 0 <= i < Length(v, argc) => v[i].value)
  }

  function Somes(a: seq<string>): (v: seq<Maybe<string>>)
    ensures |v| == |a| && forall i :: 0 <= i < |a| ==> v[i] == Some(a[i])
  {
    seq(|a|, i requires 0 <= i < |a| => Some(a[i]))
  }

  /** Rotates the element at `at` in front of the `count` elements before it. */
  method Shift(argv: array<Maybe<string>>, at: nat, count: nat)
    requires count <= at < argv.Length
    modifies argv
    ensures argv[..] == old(argv[..at - count]) + [old(argv[at])] + old(argv[at - count..at]) + old(argv[at + 1..])
  {
    ghost var v := argv[..];
    var i := 0;
    while i < count
      invariant i <= count && argv[at - i] == v[at]
      invariant forall j :: 0 <= j < at - i || at < j < argv.Length ==> argv[j] == v[j]
      invariant forall j :: at - i < j <= at ==> argv[j] == v[j - 1]
    {
      var temp := argv[at - i];
      argv[at - i] := argv[at - i - 1];
      argv[at - i - 1] := temp;
      i := i + 1;
    }
    Rotated(v, argv[..], at, count);
  }

  lemma Rotated<T>(v: seq<T>, w: seq<T>, at: nat, count: nat)
    requires count <= at < |v| == |w| && w[at - count] == v[at]
    requires forall j :: 0 <= j < at - count || at < j < |v| ==> w[j] == v[j]
    requires forall j :: at - count < j <= at ==> w[j] == v[j - 1]
    ensures w == v[..at - count] + [v[at]] + v[at - count..at] + v[at + 1..]
  {
  }

  /** Shifting the argument at the cursor in front of the words makes it the last of the options. */
  method MoveToOptions(argv: array<Maybe<string>>, at: nat, count: nat, ghost opts: seq<string>,
                       ghost words: seq<string>, ghost rem: seq<string>, ghost tail: seq<Maybe<string>>)
    requires at == |opts| + |words| && count == |words| && rem != []
    requires argv[..] == Somes(opts + words + rem) + tail
    modifies argv
    ensures argv[..] == Somes(opts + [rem[0]] + words + rem[1..]) + tail
  {
    ghost var v := argv[..];
    Shift(argv, at, count);
    assert argv[..] == v[..at - count] + [v[at]] + v[at - count..at] + v[at + 1..];
  }

  lemma SomesConcat(a: seq<string>, b: seq<string>)
    ensures Somes(a + b) == Somes(a) + Somes(b)
  {
  }

  /** Moves an option, and the argument it took, in front of the words: one shift for each. */
  method MoveTaken(argv: array<Maybe<string>>, cur: nat, nonops: nat, consumed: bool, ghost opts: seq<string>,
                   ghost words: seq<string>, ghost rem: seq<string>, ghost tail: seq<Maybe<string>>)
    requires cur == |opts| + |words| && nonops == |words|
    requires |rem| >= if consumed then 2 else 1
    requires argv[..] == Somes(opts + words + rem) + tail
    modifies argv
    ensures var k := if consumed then 2 else 1;
      argv[..] == Somes(opts + rem[..k] + words + rem[k..]) + tail
  {
    MoveToOptions(argv, cur, nonops, opts, words, rem, tail);
    assert rem[..1] == [rem[0]];
    if consumed {
      MoveToOptions(argv, cur + 1, nonops, opts + [rem[0]], words, rem[1..], tail);
      assert opts + [rem[0]] + [rem[1]] == opts + rem[..2];
      assert rem[1..][1..] == rem[2..];
    }
  }

  lemma Permuted(opts: seq<string>, words: seq<string>, rem: seq<string>, k: nat, v: seq<Maybe<string>>,
                 w: seq<Maybe<string>>, tail: seq<Maybe<string>>)
    requires k <= |rem|
    requires v == Somes(opts + words + rem) + tail && w == Somes(opts + rem[..k] + words + rem[k..]) + tail
    ensures multiset(v) == multiset(w)
  {
    var taken, left := rem[..k], rem[k..];
    assert rem == taken + left;
    SomesConcat(opts + words, rem);
    SomesConcat(opts, words);
    SomesConcat(taken, left);
    SomesConcat(opts + taken + words, left);
    SomesConcat(opts + taken, words);
    SomesConcat(opts, taken);
    assert v == Somes(opts) + Somes(words) + (Somes(taken) + Somes(left)) + tail;
    assert w == Somes(opts) + Somes(taken) + Somes(words) + Somes(left) + tail;
  }

  /** Moves the first `k` elements of the rest - an option and what it took - in front of the words. */
  method Reorder(argv: array<Maybe<string>>, cur: nat, nonops: nat, k: nat, ghost opts: seq<string>,
                 ghost words: seq<string>, ghost rem: seq<string>, ghost tail: seq<Maybe<string>>)
    requires cur == |opts| + |words| && nonops == |words|
    requires k <= |rem| && k <= 2
    requires argv[..] == Somes(opts + words + rem) + tail
    modifies argv
    ensures argv[..] == Somes(opts + rem[..k] + words + rem[k..]) + tail
    ensures multiset(argv[..]) == multiset(old(argv[..]))
  {
    if k == 0 {
      assert opts + rem[..0] + words + rem[0..] == opts + words + rem;
    } else {
      MoveTaken(argv, cur, nonops, k == 2, opts, words, rem, tail);
      Permuted(opts, words, rem, k, old(argv[..]), argv[..], tail);
    }
  }

  /** Counts the arguments in front of the terminating NULL. */
  method CountRest(argv: array<Maybe<string>>, cur: nat, ghost rem: seq<string>, ghost tail: seq<Maybe<string>>)
    returns (n: nat)
    requires cur <= argv.Length && argv[cur..] == Somes(rem) + tail
    requires tail != [] && tail[0] == None
    ensures n == |rem|
  {
    n := 0;
    assert forall i :: 0 <= i < |rem| ==> argv[cur + i] == argv[cur..][i] == Some(rem[i]);
    assert argv[cur + |rem|] == argv[cur..][|rem|] == None;
    while argv[cur + n].Some?
      invariant n <= |rem|
      decreases |rem| - n
    {
      n := n + 1;
    }
  }
}
