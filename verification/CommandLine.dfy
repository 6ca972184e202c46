/**
 Counting before parsing, as the executable does it: a first pass sizes the arrays, a second
 pass over what the first left of the argument vector fills them.
 */
module CommandLine {
  import opened Bolts
  import opened Maybes
  import opened OptionScan
  import opened OptionChain
  import opened OptionStore
  import opened OptionSteps
  import opened ArgVector
  import opened ParseRun
  import opened Workhorse
  import Reparse
  import Checks
  import Partition

  /** Adds the options of one vector to the counts. */
  method AddToStats(stats: Stats, cfg: Settings, gnu: bool, argv: array<Maybe<string>>, argc: int, ghost run: Run)
    requires WellFormed(argv[..], argc) && stats.counter.Valid()
    requires run == RunOf(cfg, gnu, argv[..], argc, stats.counter.counted, Some(INT_MAX - stats.counter.bufferMax))
    modifies stats, stats.counter, argv
    ensures stats.counter.bufferMax == old(stats.counter.bufferMax) + Accepted(run.room, |run.whole.events|)
    ensures forall i :: 0 <= i < |cfg.usage| ==> cfg.usage[i].index + 1 < stats.optionsMax
    ensures exists ok :: Outcome(run, argv[..], stats.counter.counted, ok)
  {
    stats.SizeOptions(cfg.usage);
    var action := Counting(stats.counter);
    assert action.Consistent(cfg.usage);
    var ok := Workhorse.Workhorse(cfg, gnu, argv, argc, action, run);
    assert Outcome(run, argv[..], stats.counter.counted, ok);
    assert Key(0);
  }

  /** Parses one vector into the arrays; `bufmax` and `kept` as in StoreAction. */
  method Parse(cfg: Settings, gnu: bool, argv: array<Maybe<string>>, argc: int, options: array<Option>,
               buffer: array<Option>, bufmax: int, kept: Maybe<(nat, nat)>, ghost prior: seq<Parsed>, ghost run: Run)
    returns (store: StoreAction, err: bool)
    requires WellFormed(argv[..], argc)
    requires Linked(cfg.usage, options[..], buffer[..], prior)
    requires if bufmax < 0 then |prior| < buffer.Length else bufmax <= buffer.Length
    requires |prior| <= INT_MAX && bufmax <= INT_MAX
    requires forall i :: 0 <= i < |cfg.usage| ==> cfg.usage[i].index < options.Length
    requires argv as object != options && argv as object != buffer
    requires argv as object !in options[..] && argv as object !in buffer[..]
    requires run == RunOf(cfg, gnu, argv[..], argc, [], if bufmax < 0 then Some(INT_MAX - |prior|) else None)
    requires bufmax < 0 ==> |prior| + |run.whole.events| <= buffer.Length || INT_MAX <= buffer.Length
    modifies argv, options[..], buffer[..]
    ensures fresh(store) && store.Valid() && store.prior == prior && store.options == options && store.buffer == buffer
    ensures store.usage == cfg.usage && store.bufmax == bufmax
    ensures options[..] == old(options[..]) && buffer[..] == old(buffer[..])
    ensures Outcome(run, argv[..], store.performed, !err)
    ensures store.nonops == if !err && Reported(run).0 > 0 then Some(Reported(run)) else kept
  {
    store := new StoreAction(cfg.usage, options, buffer, bufmax, kept, prior);
    var action := Storing(store);
    assert action.Consistent(cfg.usage);
    var ok := Workhorse.Workhorse(cfg, gnu, argv, argc, action, run);
    assert Key(0);
    err := !ok;
  }

  /** An array of unused options. */
  method AllocateOptions(n: nat) returns (a: array<Option>)
    ensures fresh(a) && a.Length == n
    ensures forall i :: 0 <= i < n ==> fresh(a[i]) && !a[i].Used() && IsChain([a[i]])
    ensures forall i, j :: 0 <= i < j < n ==> a[i] != a[j]
  {
    var s: seq<Option> := [];
    while |s| < n
      invariant |s| <= n
      invariant forall i :: 0 <= i < |s| ==> fresh(s[i]) && !s[i].Used() && IsChain([s[i]])
      invariant forall i, j :: 0 <= i < j < |s| ==> s[i] != s[j]
    {
      var o := new Option();
      s := s + [o];
    }
    a := new Option[n](i requires 0 <= i < |s| => s[i]);
  }

  /** The vector a completed first pass leaves is as long as the one it was given. */
  lemma SecondArgs(v: seq<Maybe<string>>, argc: int, b: seq<string>)
    requires WellFormed(v, argc) && |b| == |Args(v, argc)|
    ensures var w := Somes(b) + v[|b|..];
      WellFormed(w, argc) && Args(w, argc) == b
  {
    var w := Somes(b) + v[|b|..];
    assert forall i :: |b| <= i < |v| ==> w[i] == v[i];
    assert forall i :: 0 <= i < |b| ==> w[i] == Some(b[i]);
  }

  /** The scan of the counting pass, which prints no messages. */
  ghost function Counted(cfg: Settings, gnu: bool, a: seq<string>): Scan {
    ScanArgs(StepsOf(cfg.(msg := false)), gnu, a)
  }

  /** The scan of the parsing pass over what the counting pass leaves. */
  ghost function Parsing(cfg: Settings, gnu: bool, gnuParse: bool, a: seq<string>): Scan {
    ScanArgs(StepsOf(cfg.(msg := true)), gnuParse, Reparse.Reordered(Counted(cfg, gnu, a)))
  }

  /** The options of the parsing pass fit in an array with one slot more than were counted. */
  ghost predicate Suffices(cfg: Settings, gnu: bool, gnuParse: bool, a: seq<string>) {
    |Counted(cfg, gnu, a).events| < INT_MAX ==>
      |Parsing(cfg, gnu, gnuParse, a).events| <= 1 + |Counted(cfg, gnu, a).events|
  }

  /** The parsing pass performs no more than was counted: without gnu; for steady tables, even if a pass is
      aborted; and for stable tables if the counting pass is not. In all but the second case it performs
      exactly what was counted. */
  lemma CountedIsEnough(cfg: Settings, gnu: bool, gnuParse: bool, a: seq<string>)
    requires Checks.MessageBlind(cfg.usage) && (gnuParse ==> gnu)
    requires var step := StepsOf(cfg.(msg := false));
      gnu ==> Checks.Steady(step) || (Reparse.Stable(step) && !Counted(cfg, gnu, a).fatal)
    ensures |Parsing(cfg, gnu, gnuParse, a).events| <= |Counted(cfg, gnu, a).events|
    ensures gnu ==> !Counted(cfg, gnu, a).fatal ==>
      Parsing(cfg, gnu, gnuParse, a).events == Counted(cfg, gnu, a).events && !Parsing(cfg, gnu, gnuParse, a).fatal
    ensures !gnu ==> Parsing(cfg, gnu, gnuParse, a) == Counted(cfg, gnu, a)
  {
    var step := StepsOf(cfg.(msg := false));
    Checks.ScanBlind(cfg, gnuParse, Reparse.Reordered(Counted(cfg, gnu, a)));
    if !gnu {
      PosixLeaves(step, a);
    } else {
      Reparse.StepsAreSound(cfg.(msg := false));
      if Checks.Steady(step) {
        Checks.SteadyIsStable(step);
        Checks.SecondPassNoMore(step, gnuParse, a);
      }
      if !Counted(cfg, gnu, a).fatal { Repeats(step, gnuParse, a); }
    }
  }

  lemma Repeats(step: Stepper, gnu: bool, a: seq<string>)
    requires Reparse.Sound(step) && Reparse.Stable(step) && !ScanArgs(step, true, a).fatal
    ensures var q := ScanArgs(step, gnu, Reparse.Reordered(ScanArgs(step, true, a)));
      !q.fatal && q.events == ScanArgs(step, true, a).events
  {
    Reparse.StableSuffices(step);
    assert Reparse.SecondPassAgrees(step, gnu, a);
  }

  /** Without gnu the vector is left as it was. */
  lemma PosixLeaves(step: Stepper, a: seq<string>)
    ensures Reparse.Reordered(ScanArgs(step, false, a)) == a
  {
    Partition.PosixKeepsOrder(step, a);
    var r := ScanArgs(step, false, a);
    assert r.opts + r.words == r.opts;
  }

  function Min(a: nat, b: nat): nat { if a <= b then a else b }

  /** A permutation of a vector that ends with NULL still has one. */
  lemma StillWellFormed(v: seq<Maybe<string>>, w: seq<Maybe<string>>, argc: int)
    requires WellFormed(v, argc) && multiset(v) == multiset(w)
    ensures WellFormed(w, argc)
  {
    assert |v| == |multiset(v)| == |multiset(w)| == |w|;
    if argc < 0 {
      assert v[Length(v, argc)] == None;
      assert None in multiset(w);
      var i :| 0 <= i < |w| && w[i] == None;
    }
  }

  /** The vector between the passes: what the scan of the first one leaves, unless that was refused an
      option while it reordered. */
  lemma BetweenPasses(cfg: Settings, gnu: bool, v: seq<Maybe<string>>, w: seq<Maybe<string>>, argc: int,
                      first: Run, counted: seq<Parsed>, ok: bool)
    requires WellFormed(v, argc)
    requires first == RunOf(cfg.(msg := false), gnu, v, argc, [], Some(INT_MAX - 1)) && Outcome(first, w, counted, ok)
    ensures WellFormed(w, argc)
    ensures (gnu ==> |first.whole.events| < INT_MAX) ==> Args(w, argc) == Reparse.Reordered(first.whole)
  {
    StillWellFormed(v, w, argc);
    var r := first.whole;
    if !gnu {
      PosixLeaves(first.step, Args(v, argc));
    } else if |r.events| < INT_MAX {
      Partition.ScanKeepsLength(first.step, gnu, Args(v, argc));
      SecondArgs(v, argc, r.opts + r.words + r.rest);
    }
  }

  /** What the store holds after a pass from empty arrays without a limit. */
  lemma StoredAll(run: Run, now: seq<Maybe<string>>, store: StoreAction, ok: bool)
    requires run.before == [] && run.room == Some(INT_MAX)
    requires Outcome(run, now, store.performed, ok)
    requires store.Valid() && store.prior == [] && store.bufmax == -1
    ensures store.stored == run.whole.events[..Min(|run.whole.events|, INT_MAX)]
    ensures ok == (!run.whole.fatal && |run.whole.events| <= INT_MAX)
  {
    var kept := |store.stored| - |store.prior|;
    assert store.StoredIsPrefix();
    assert kept == |store.performed|;
    assert store.performed[..kept] == store.performed;
    assert [] + store.performed == store.performed;
    var m := Accepted(run.room, |run.whole.events|);
    assert [] + run.whole.events[..m] == run.whole.events[..m];
  }

  /** Sizes the arrays with a counting pass and fills them with a parsing pass over what the first pass
      left of the vector. No write of the second pass is out of range, whether or not either pass is
      aborted, if its options fit (see `CountedIsEnough`). Just if they are no more than were counted, a
      slot of the buffer stays unused as a sentinel. */
  method CountAndParse(cfg: Settings, gnu: bool, gnuParse: bool, argv: array<Maybe<string>>, argc: int)
    returns (stats: Stats, store: StoreAction, err: bool)
    requires WellFormed(argv[..], argc) && Suffices(cfg, gnu, gnuParse, Args(argv[..], argc))
    modifies argv
    ensures var a := Args(old(argv[..]), argc);
      var r, q := Counted(cfg, gnu, a), Parsing(cfg, gnu, gnuParse, a);
      && store.Valid() && store.prior == [] && store.usage == cfg.usage
      && store.buffer.Length == stats.counter.bufferMax == 1 + Min(|r.events|, INT_MAX - 1)
      && store.options.Length == stats.optionsMax
      && ((gnu ==> |r.events| < INT_MAX) ==>
            && store.stored == q.events[..Min(|q.events|, INT_MAX)]
            && err == (q.fatal || |q.events| > INT_MAX)
            && (|store.stored| < store.buffer.Length <==> |q.events| <= Min(|r.events|, INT_MAX - 1)))
      && (!gnu && !gnuParse ==> argv[..] == old(argv[..]))
  {
    stats := new Stats();
    var off, on := cfg.(msg := false), cfg.(msg := true);
    ghost var v := argv[..];
    ghost var first := RunOf(off, gnu, v, argc, [], Some(INT_MAX - 1));
    AddToStats(stats, off, gnu, argv, argc, first);
    ghost var ok1 :| Outcome(first, argv[..], stats.counter.counted, ok1);
    BetweenPasses(cfg, gnu, v, argv[..], argc, first, stats.counter.counted, ok1);
    ghost var second := RunOf(on, gnuParse, argv[..], argc, [], Some(INT_MAX));
    store, err := ParseCounted(on, gnuParse, argv, argc, stats, second);
  }

  method ParseCounted(cfg: Settings, gnuParse: bool, argv: array<Maybe<string>>, argc: int, stats: Stats,
                      ghost second: Run)
    returns (store: StoreAction, err: bool)
    requires WellFormed(argv[..], argc)
    requires second == RunOf(cfg, gnuParse, argv[..], argc, [], Some(INT_MAX))
    requires stats.counter.bufferMax > 0
    requires |second.whole.events| <= stats.counter.bufferMax || INT_MAX <= stats.counter.bufferMax
    requires forall i :: 0 <= i < |cfg.usage| ==> cfg.usage[i].index + 1 < stats.optionsMax
    modifies argv
    ensures store.Valid() && store.prior == [] && store.usage == cfg.usage
    ensures store.buffer.Length == stats.counter.bufferMax && store.options.Length == stats.optionsMax
    ensures store.stored == second.whole.events[..Min(|second.whole.events|, INT_MAX)]
    ensures err == (second.whole.fatal || |second.whole.events| > INT_MAX)
    ensures !gnuParse ==> argv[..] == old(argv[..])
  {
    var options := AllocateOptions(stats.optionsMax);
    var buffer := AllocateOptions(stats.counter.bufferMax);
    store, err := Parse(cfg, gnuParse, argv, argc, options, buffer, -1, None, [], second);
    StoredAll(second, argv[..], store, !err);
  }
}
