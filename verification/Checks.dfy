/**
 Properties of check functions that a caller can establish by reading them, and what they give:
 an option that never looks at a detached candidate, or that insists on one, treats all
 candidates alike, so reordering changes nothing - not even in runs that end in a fatal check.
 The usage table of the proxy executable is of this kind.
 */
module Checks {
  import opened Maybes
  import opened OptionScan
  import opened Reparse

  /** The length of an option's name: one character for a short option, up to '=' for a long one. */
  function OptionNameLength(name: string): nat
    requires name != ""
  {
    if name[0] != '-' then 1 else NameLength(name, 1)
  }

  predicate NothingAttached(name: string) {
    name != "" && OptionNameLength(name) == |name|
  }

  ghost predicate IgnoresDetached(f: CheckArg) {
    forall name, arg, msg :: NothingAttached(name) ==> f(name, arg, msg) in {ArgNone, ArgIgnore}
  }

  ghost predicate InsistsOnArgument(f: CheckArg) {
    && (forall name, arg, msg :: f(name, arg, msg) in {ArgOk, ArgIllegal})
    && (forall name, msg :: f(name, None, msg) == ArgIllegal)
  }

  ghost predicate Orderly(usage: seq<Descriptor>) {
    forall i :: 0 <= i < |usage| ==> IgnoresDetached(usage[i].checkArg) || InsistsOnArgument(usage[i].checkArg)
  }

  ghost predicate MessageBlind(usage: seq<Descriptor>) {
    forall i, name, arg :: 0 <= i < |usage| ==>
      usage[i].checkArg(name, arg, true) == usage[i].checkArg(name, arg, false)
  }

  /** An option argument that leaves one candidate leaves every candidate. */
  ghost predicate Steady(step: Stepper) {
    forall s, c, d :: IsOption(s) && Leaves(step, s, c) ==> Leaves(step, s, d)
  }

  // ---------------------------------------------------------------- orderly tables are steady

  lemma NoEqualsNothingAttached(param: string, from: nat)
    requires 1 <= from <= |param| && param[0] == '-' && NameLength(param[from..], 0) == |param| - from
    requires from == 2 ==> param[1] == '-'
    requires from <= 2
    ensures NothingAttached(param)
  {
    assert forall j :: from <= j < |param| ==> param[j] == param[from..][j - from];
  }

  lemma LongStepSteady(cfg: Settings, i: nat, param: string, from: nat, c: Maybe<string>, d: Maybe<string>)
    requires Orderly(cfg.usage) && i <= |cfg.usage|
    requires 1 <= from <= 2 && from <= |param| && param[0] == '-' && (from == 2 ==> param[1] == '-')
    requires var x := LongStep(cfg, i, param, param[from..], c); x.Done? && !x.consumed
    ensures var y := LongStep(cfg, i, param, param[from..], d); y.Done? && !y.consumed
  {
    if NameLength(param[from..], 0) == |param| - from {
      NoEqualsNothingAttached(param, from);
    }
  }

  lemma {:induction false} ShortStepSteady(cfg: Settings, param: string, pos: nat, c: Maybe<string>, d: Maybe<string>)
    requires Orderly(cfg.usage)
    requires var x := ShortStep(cfg, param, pos, c); x.Done? && !x.consumed
    ensures var y := ShortStep(cfg, param, pos, d); y.Done? && !y.consumed
    decreases |param| - pos
  {
    if pos < |param| {
      var k := Resolve(cfg.usage, FirstShort(cfg.usage, param[pos], 0));
      if pos + 1 == |param| {
        assert |param[pos..]| == 1;
        assert NothingAttached(param[pos..]);
        assert ShortStep(cfg, param, pos + 1, d) == Done([], false);
      } else if k == None || cfg.usage[k.value].checkArg(param[pos..], Some(param[pos + 1..]), cfg.msg) != ArgOk {
        ShortStepSteady(cfg, param, pos + 1, c, d);
      }
    }
  }

  lemma OrderlyIsSteady(cfg: Settings)
    requires Orderly(cfg.usage)
    ensures Steady(StepsOf(cfg))
  {
    var step := StepsOf(cfg);
    forall s, c, d | IsOption(s) && Leaves(step, s, c)
      ensures Leaves(step, s, d)
    {
      if s[1] == '-' {
        LongStepSteady(cfg, LongIndex(cfg, s[2..]), s, 2, c, d);
      } else if cfg.singleMinus && LongIndex(cfg, s[1..]) < |cfg.usage| {
        LongStepSteady(cfg, LongIndex(cfg, s[1..]), s, 1, c, d);
      } else {
        ShortStepSteady(cfg, s, 1, c, d);
      }
    }
  }

  lemma SteadyIsStable(step: Stepper)
    requires Steady(step)
    ensures Stable(step)
  {
    forall s, o: string | IsOption(s) && LeavesSomething(step, s) && (IsWord(o) || Acceptable(step, o))
      ensures Leaves(step, s, Some(o))
    {
      var c: Maybe<string> :| (c.Some? ==> IsWord(c.value)) && Leaves(step, s, c);
    }
  }

  // ---------------------------------------------------------------- the second pass never does more

  /** A pass over words followed by an argument whose check is fatal. */
  lemma FatalAfterWords(step: Stepper, gnu: bool, w: seq<string>, a: seq<string>)
    requires forall p :: p in w ==> IsWord(p)
    requires a != [] && IsOption(a[0]) && step(a[0], Candidate(a)).Fatal?
    ensures |ScanArgs(step, gnu, w + a).events| <= |ScanArgs(step, true, a).events|
  {
    if w == [] {
      assert w + a == a;
    } else {
      SkipWords(step, gnu, w, a);
    }
  }

  /** On the vector that a first pass leaves behind - whether it succeeded or was aborted - a
      second pass performs at most as many options. */
  lemma {:induction false} SteadyCount(step: Stepper, gnu: bool, a: seq<string>, w: seq<string>)
    requires Sound(step)
    requires Steady(step)
    requires forall p :: p in w ==> IsWord(p)
    ensures var r := ScanArgs(step, true, a);
      |ScanArgs(step, gnu, r.opts + (w + r.words + r.rest)).events| <= |r.events|
    decreases |a|
  {
    var r := ScanArgs(step, true, a);
    var b := r.opts + (w + r.words + r.rest);
    if a == [] {
      assert b == w;
      WordsOnly(step, gnu, w);
    } else if IsWord(a[0]) {
      SteadyCount(step, gnu, a[1..], w + [a[0]]);
      var r' := ScanArgs(step, true, a[1..]);
      assert w + [a[0]] + r'.words + r'.rest == w + r.words + r.rest;
    } else if a[0] == "--" {
      assert b[0] == "--";
    } else {
      var s := step(a[0], Candidate(a));
      if s.Fatal? {
        assert b == w + a;
        FatalAfterWords(step, gnu, w, a);
      } else {
        SteadyCountOption(step, gnu, a, w);
      }
    }
  }

  lemma {:induction false} SteadyCountOption(step: Stepper, gnu: bool, a: seq<string>, w: seq<string>)
    requires Sound(step)
    requires Steady(step)
    requires forall p :: p in w ==> IsWord(p)
    requires a != [] && IsOption(a[0]) && step(a[0], Candidate(a)).Done?
    ensures var r := ScanArgs(step, true, a);
      |ScanArgs(step, gnu, r.opts + (w + r.words + r.rest)).events| <= |r.events|
    decreases |a|, 0
  {
    var r := ScanArgs(step, true, a);
    var b := r.opts + (w + r.words + r.rest);
    var s := step(a[0], Candidate(a));
    var k := Used(s, a);
    var r' := ScanArgs(step, true, a[k..]);
    var b' := r'.opts + (w + r'.words + r'.rest);
    SteadyCount(step, gnu, a[k..], w);
    assert b == a[..k] + b';
    assert b[k..] == b' && b[..k] == a[..k];
    if s.consumed {
      assert b[1] == a[1];
    } else {
      assert Leaves(step, a[0], Candidate(a));
      assert Leaves(step, a[0], Candidate(b));
      assert Comparable(step(a[0], Candidate(a)), step(a[0], Candidate(b)));
    }
    var q' := ScanArgs(step, gnu, b');
    assert ScanArgs(step, gnu, b) == q'.(events := s.events + q'.events, opts := b[..k] + q'.opts);
  }

  lemma SecondPassNoMore(step: Stepper, gnu: bool, a: seq<string>)
    requires Sound(step) && Steady(step)
    ensures |ScanArgs(step, gnu, Reordered(ScanArgs(step, true, a))).events| <= |ScanArgs(step, true, a).events|
  {
    var r := ScanArgs(step, true, a);
    SteadyCount(step, gnu, a, []);
    assert r.opts + ([] + r.words + r.rest) == Reordered(r);
  }

  // ---------------------------------------------------------------- the message flag

  lemma {:induction false} ShortStepBlind(cfg: Settings, param: string, pos: nat, c: Maybe<string>)
    requires MessageBlind(cfg.usage)
    ensures ShortStep(cfg.(msg := true), param, pos, c) == ShortStep(cfg.(msg := false), param, pos, c)
    decreases |param| - pos
  {
    if pos < |param| {
      ShortStepBlind(cfg, param, pos + 1, c);
    }
  }

  lemma LongStepBlind(cfg: Settings, i: nat, param: string, given: string, c: Maybe<string>)
    requires MessageBlind(cfg.usage) && i <= |cfg.usage|
    ensures LongStep(cfg.(msg := true), i, param, given, c) == LongStep(cfg.(msg := false), i, param, given, c)
  {
  }

  lemma StepBlind(cfg: Settings, s: string, c: Maybe<string>)
    requires MessageBlind(cfg.usage) && IsOption(s)
    ensures ParamStep(cfg.(msg := true), s, c) == ParamStep(cfg.(msg := false), s, c)
  {
    var on, off := cfg.(msg := true), cfg.(msg := false);
    var from := if s[1] == '-' then 2 else 1;
    var given := s[from..];
    assert LongIndex(on, given) == LongIndex(off, given);
    LongStepBlind(cfg, LongIndex(on, given), s, given, c);
    ShortStepBlind(cfg, s, 1, c);
  }

  lemma {:induction false} ScanBlind(cfg: Settings, gnu: bool, a: seq<string>)
    requires MessageBlind(cfg.usage)
    ensures ScanArgs(StepsOf(cfg.(msg := true)), gnu, a) == ScanArgs(StepsOf(cfg.(msg := false)), gnu, a)
    decreases |a|
  {
    if a == [] || a[0] == "--" {
    } else if IsWord(a[0]) {
      ScanBlind(cfg, gnu, a[1..]);
    } else {
      StepBlind(cfg, a[0], Candidate(a));
      var s := StepsOf(cfg.(msg := true))(a[0], Candidate(a));
      assert s == StepsOf(cfg.(msg := false))(a[0], Candidate(a));
      if s.Done? { ScanBlind(cfg, gnu, a[Used(s, a)..]); }
    }
  }

  // ---------------------------------------------------------------- the proxy's own table

  function CheckNone(name: string, arg: Maybe<string>, msg: bool): ArgStatus { ArgNone }

  /** Accepts an attached argument only. */
  function CheckOptional(name: string, arg: Maybe<string>, msg: bool): ArgStatus {
    if arg.Some? && name != "" && !NothingAttached(name) then ArgOk else ArgIgnore
  }

  /** Accepts exactly the arguments satisfying `valid`; a missing argument is illegal. */
  function CheckValid(valid: string -> bool): CheckArg {
    (name: string, arg: Maybe<string>, msg: bool) => if arg.Some? && valid(arg.value) then ArgOk else ArgIllegal
  }

  const LOG_KINDS: set<string> := {"error", "warning", "info"}

  /** The options of the executable. Whether a text is a number or names a readable file is asked
      of the environment. */
  function ProxyUsage(numeric: string -> bool, readable: string -> bool): seq<Descriptor> {
    [ Descriptor(0, 0, "", "", CheckNone),
      Descriptor(0, 0, "", "", CheckNone),
      Descriptor(1, 0, "h", "help", CheckNone),
      Descriptor(5, 0, "v", "version", CheckNone),
      Descriptor(0, 0, "", "", CheckNone),
      Descriptor(2, 0, "c", "config-path", CheckValid(readable)),
      Descriptor(3, 0, "r", "reload-time", CheckValid(numeric)),
      Descriptor(6, 0, "t", "timeout", CheckValid(numeric)),
      Descriptor(0, 0, "", "", CheckNone),
      Descriptor(4, 0, "d", "debug", CheckNone),
      Descriptor(7, 0, "", "log-filter", CheckValid(_ => true)),
      Descriptor(8, 0, "", "log-verbosity", CheckValid(text => text in LOG_KINDS)),
      Descriptor(0, 0, "", "", CheckNone) ]
  }

  lemma CheckKinds(valid: string -> bool)
    ensures IgnoresDetached(CheckNone) && IgnoresDetached(CheckOptional) && InsistsOnArgument(CheckValid(valid))
  {
  }

  /** For the executable's table the documented promise does hold. */
  lemma ProxyUsageIsOrderly(numeric: string -> bool, readable: string -> bool, cfg: Settings)
    requires cfg.usage == ProxyUsage(numeric, readable)
    ensures Orderly(cfg.usage) && MessageBlind(cfg.usage) && ReparseLaw(StepsOf(cfg))
  {
    CheckKinds(numeric);
    CheckKinds(readable);
    CheckKinds(_ => true);
    CheckKinds(text => text in LOG_KINDS);
    OrderlyIsSteady(cfg);
    SteadyIsStable(StepsOf(cfg));
    StepsAreSound(cfg);
    StableSuffices(StepsOf(cfg));
  }
}
