/**
 The parser itself: one loop over the argument vector that rotates options in front of the
 words it skips, calling an action for every option. It refines the left-to-right scan of
 module OptionScan.
 */
module Workhorse {
  import opened Bolts
  import opened Maybes
  import opened OptionScan
  import opened OptionSteps
  import opened ArgVector
  import opened ParseRun
  import Partition

  /** `step` is what the parser with these settings does (see Bolts). */
  ghost predicate Implements(step: Stepper, cfg: Settings) {
    forall k {:trigger Key(k)} :: Bolt(k) ==> step == StepsOf(cfg)
  }

  /** Processes one option argument whose step is `s`. */
  method Step(cfg: Settings, param: string, cand: Maybe<string>, action: Action, ghost n: nat, ghost step: Stepper,
              ghost s: OptionScan.Step)
    returns (exit: Exit, consumed: bool)
    requires IsOption(param) && Implements(step, cfg) && s == step(param, cand)
    requires action.Valid(cfg.usage) && action.SafeFor(n) && |s.events| <= n
    modifies action.Frame()
    ensures action.Valid(cfg.usage) && action.Nonops() == old(action.Nonops())
    ensures Effect(s, old(action.Performed()), action.Performed(), old(action.Room()), action.Room(), exit, consumed)
    ensures exit != Refused ==> action.SafeFor(n - |s.events|)
    ensures consumed ==> cand.Some?
    ensures s.Done? && s.consumed ==> cand.Some?
  {
    assert Key(0);
    exit, consumed := OneParam(cfg, param, cand, action, n, s);
  }

  /** Moves the first `k` arguments of the rest in front of the words. */
  method MoveFront(argv: array<Maybe<string>>, cur: nat, numargs: int, nonops: nat, k: nat, ghost run: Run,
                   ghost p: Progress, ghost performed: seq<Parsed>, ghost roomNow: Maybe<nat>, ghost action: Action,
                   ghost usage: seq<Descriptor>, ghost n: nat)
    requires Between(run, p, argv[..], cur, numargs, nonops, performed, roomNow) && run.argc <= |run.v|
    requires k <= |p.rem| && k <= 2
    requires argv !in action.Frame() && argv !in action.Arrays() && argv != action.Self()
    modifies argv
    ensures Moved(run, p, argv[..], k)
    ensures action.Valid(usage) == old(action.Valid(usage)) && action.SafeFor(n) == old(action.SafeFor(n))
    ensures action.Performed() == old(action.Performed()) && action.Room() == old(action.Room())
    ensures action.Nonops() == old(action.Nonops())
  {
    assert Key(0);
    Reorder(argv, cur, nonops, k, p.opts, p.words, p.rem, run.v[|Args(run.v, run.argc)|..]);
  }

  /** One turn of the loop, at an argument that is an option: it is performed and moved in front
      of the words together with what it took. */
  method Turn(cfg: Settings, argv: array<Maybe<string>>, cur: nat, numargs: int, nonops: nat, action: Action,
              ghost run: Run, ghost p: Progress)
    returns (goOn: bool, cur': nat, numargs': int, ghost q: Progress)
    requires Implements(run.step, cfg) && argv !in action.Frame() && argv !in action.Arrays() && run.argc <= |run.v|
    requires Between(run, p, argv[..], cur, numargs, nonops, action.Performed(), action.Room())
    requires p.rem != [] && IsOption(p.rem[0])
    requires action.Valid(cfg.usage) && action.SafeFor(Left(run, p))
    modifies argv, action.Frame()
    ensures action.Valid(cfg.usage) && action.Nonops() == old(action.Nonops())
    ensures goOn ==>
      && |q.rem| < |p.rem| && action.SafeFor(Left(run, q))
      && Between(run, q, argv[..], cur', numargs', nonops, action.Performed(), action.Room())
    ensures !goOn ==> Outcome(run, argv[..], action.Performed(), false)
  {
    ghost var was, mid, roomMid := argv[..], action.Performed(), action.Room();
    AtCursor(run, p, was, cur, numargs, nonops, mid, roomMid);
    var param := argv[cur].value;
    var haveMoreArgs := numargs > 1 || numargs < 0;
    var cand := if haveMoreArgs then argv[cur + 1] else None;
    ghost var s := run.step(p.rem[0], Candidate(p.rem));
    EnoughLeft(run, p, s, was, cur, numargs, nonops, mid, roomMid);
    var exit, consumed := Step(cfg, param, cand, action, Left(run, p), run.step, s);
    var k := if exit == Completed then if consumed then 2 else 1 else if exit == Refused && consumed then 1 else 0;
    MoveFront(argv, cur, numargs, nonops, k, run, p, mid, roomMid, action, cfg.usage, Left(run, p) - |s.events|);
    goOn := exit == Completed;
    cur' := cur + k;
    numargs' := if numargs > 0 then numargs - k else numargs;
    if goOn {
      OptionPassed(run, p, s, was, argv[..], cur, numargs, nonops, mid, action.Performed(), roomMid, action.Room(),
                   consumed, k);
      q := After(p, s);
    } else {
      OptionAborted(run, p, s, was, argv[..], cur, numargs, nonops, mid, action.Performed(), roomMid, action.Room(),
                    exit, consumed, k);
      q := p;
    }
  }

  lemma EnoughLeft(run: Run, p: Progress, s: OptionScan.Step, now: seq<Maybe<string>>, cur: nat, numargs: int,
                   nonops: nat, performed: seq<Parsed>, roomNow: Maybe<nat>)
    requires Between(run, p, now, cur, numargs, nonops, performed, roomNow)
    requires p.rem != [] && IsOption(p.rem[0]) && s == run.step(p.rem[0], Candidate(p.rem))
    ensures |s.events| <= Left(run, p)
  {
    assert Key(0);
  }

  /** The terminator at the cursor. */
  method TurnTerminator(argv: array<Maybe<string>>, cur: nat, numargs: int, nonops: nat, ghost run: Run,
                        ghost p: Progress, ghost action: Action, ghost usage: seq<Descriptor>)
    returns (ghost q: Progress)
    requires argv !in action.Frame() && argv !in action.Arrays() && argv != action.Self() && run.argc <= |run.v|
    requires Between(run, p, argv[..], cur, numargs, nonops, action.Performed(), action.Room())
    requires p.rem != [] && p.rem[0] == "--"
    modifies argv
    ensures Over(run, q, argv[..], cur + 1, if numargs > 0 then numargs - 1 else numargs, nonops,
                 action.Performed(), action.Room())
    ensures action.Valid(usage) == old(action.Valid(usage)) && action.Nonops() == old(action.Nonops())
  {
    ghost var was, performed, room := argv[..], action.Performed(), action.Room();
    MoveFront(argv, cur, numargs, nonops, 1, run, p, performed, room, action, usage, 0);
    q := TerminatorPassed(run, p, was, argv[..], cur, numargs, nonops, performed, room);
  }

  /** How one iteration of the loop ends: with the next one, with the scan over, or aborted. */
  datatype Turned = Onward | Ended | Failed

  /** One iteration, at the argument under the cursor. */
  method Iterate(cfg: Settings, gnu: bool, argv: array<Maybe<string>>, cur: nat, numargs: int, nonops: nat,
                 action: Action, ghost run: Run, ghost p: Progress)
    returns (turned: Turned, cur': nat, numargs': int, nonops': nat, ghost q: Progress)
    requires gnu == run.gnu && Implements(run.step, cfg) && run.argc <= |run.v|
    requires argv !in action.Frame() && argv !in action.Arrays() && argv != action.Self()
    requires Between(run, p, argv[..], cur, numargs, nonops, action.Performed(), action.Room())
    requires numargs != 0 && cur < argv.Length && argv[cur].Some?
    requires action.Valid(cfg.usage) && action.SafeFor(Left(run, p))
    modifies argv, action.Frame()
    ensures action.Valid(cfg.usage) && action.Nonops() == old(action.Nonops())
    ensures turned == Onward ==>
      && |q.rem| < |p.rem| && action.SafeFor(Left(run, q))
      && Between(run, q, argv[..], cur', numargs', nonops', action.Performed(), action.Room())
    ensures turned == Ended ==> Over(run, q, argv[..], cur', numargs', nonops', action.Performed(), action.Room())
    ensures turned == Failed ==> Outcome(run, argv[..], action.Performed(), false)
  {
    AtCursor(run, p, argv[..], cur, numargs, nonops, action.Performed(), action.Room());
    var param := argv[cur].value;
    turned, cur', nonops', q := Ended, cur, nonops, p;
    numargs' := if numargs > 0 then numargs - 1 else numargs;
    if param == "" || param[0] != '-' || |param| == 1 {
      if gnu {
        q := PassWord(run, p, argv[..], cur, numargs, nonops, action.Performed(), action.Room());
        nonops', cur' := nonops + 1, cur + 1;
        turned := Onward;
      } else {
        numargs' := numargs;
        EndOfScan(run, p, argv[..], cur, numargs, nonops, action.Performed(), action.Room());
      }
    } else if param == "--" {
      q := TurnTerminator(argv, cur, numargs, nonops, run, p, action, cfg.usage);
      cur' := cur + 1;
    } else {
      var goOn;
      goOn, cur', numargs', q := Turn(cfg, argv, cur, numargs, nonops, action, run, p);
      turned := if goOn then Onward else Failed;
    }
  }

  /** The loop over the vector: it ends after the terminator, at the end, at the first word without
      `gnu`, or aborted. */
  method Pass(cfg: Settings, gnu: bool, argv: array<Maybe<string>>, argc: int, action: Action, ghost run: Run)
    returns (ok: bool, cur: nat, numargs: int, nonops: nat, ghost p: Progress)
    requires gnu == run.gnu && argc == run.argc && argv[..] == run.v && WellFormed(run.v, argc)
    requires run.before == action.Performed() && run.room == action.Room()
    requires Proper(run) && Implements(run.step, cfg)
    requires argv !in action.Frame() && argv !in action.Arrays() && argv != action.Self()
    requires action.Valid(cfg.usage) && action.SafeFor(|run.whole.events|)
    modifies argv, action.Frame()
    ensures action.Valid(cfg.usage) && action.Nonops() == old(action.Nonops())
    ensures ok ==> Over(run, p, argv[..], cur, numargs, nonops, action.Performed(), action.Room())
    ensures !ok ==> Outcome(run, argv[..], action.Performed(), false)
  {
    numargs, nonops, cur := argc, 0, 0;
    p := Start(run);
    StartsBetween(run);
    AtCursor(run, p, argv[..], cur, numargs, nonops, action.Performed(), action.Room());
    while numargs != 0 && argv[cur].Some?
      invariant Between(run, p, argv[..], cur, numargs, nonops, action.Performed(), action.Room())
      invariant action.Valid(cfg.usage) && action.Nonops() == old(action.Nonops())
      invariant action.SafeFor(Left(run, p))
      invariant numargs != 0 ==> cur < argv.Length
      decreases |p.rem|
    {
      var turned;
      turned, cur, numargs, nonops, p := Iterate(cfg, gnu, argv, cur, numargs, nonops, action, run, p);
      if turned != Onward {
        ok := turned == Ended;
        return;
      }
      AtCursor(run, p, argv[..], cur, numargs, nonops, action.Performed(), action.Room());
    }
    AtCursor(run, p, argv[..], cur, numargs, nonops, action.Performed(), action.Room());
    EndOfScan(run, p, argv[..], cur, numargs, nonops, action.Performed(), action.Room());
    ok := true;
  }

  ghost function RunOf(cfg: Settings, gnu: bool, v: seq<Maybe<string>>, argc: int, before: seq<Parsed>,
                       room: Maybe<nat>): Run
    requires argc <= |v|
  {
    Run(StepsOf(cfg), gnu, v, argc, before, room, ScanArgs(StepsOf(cfg), gnu, Args(v, argc)))
  }

  /** What `finished` is told: the number of arguments after the option part, and where they start. */
  ghost function Reported(run: Run): (nat, nat)
    requires run.argc <= |run.v|
  {
    var n := |run.whole.words| + RestCount(run.argc, |Args(run.v, run.argc)|, |run.whole.rest|);
    (if n < 0 then 0 else n, |run.whole.opts|)
  }

  lemma BehindOptions(now: seq<Maybe<string>>, opts: seq<string>, words: seq<string>, rest: seq<string>,
                      tail: seq<Maybe<string>>)
    requires now == Somes(opts + words + rest) + tail
    ensures |opts| + |words + rest| <= |now| && now[|opts|..|opts| + |words + rest|] == Somes(words + rest)
  {
    var left := words + rest;
    forall i | 0 <= i < |left|
      ensures now[|opts|..|opts| + |left|][i] == Somes(left)[i]
    {
      assert (opts + words + rest)[|opts| + i] == left[i];
    }
  }

  /** What is reported are the non-options themselves: the part of the vector behind the options, up to the end
      of what is there. Only a count that runs past the first NULL is kept, if anything is left unscanned. */
  lemma ReportedSlice(run: Run, now: seq<Maybe<string>>, performed: seq<Parsed>)
    requires Proper(run) && Outcome(run, now, performed, true)
    ensures var (n, at) := Reported(run); var left := run.whole.words + run.whole.rest;
      && at + |left| <= |now| && now[at..at + |left|] == Somes(left) && at == |run.whole.opts|
      && (run.argc < 0 || run.argc == |Args(run.v, run.argc)| ==> n == |left|)
      && (run.whole.rest == [] ==> n == |left|)
      && (run.argc >= 0 && run.whole.rest != [] ==> at + n == run.argc)
  {
    var r := run.whole;
    Partition.ScanKeepsLength(run.step, run.gnu, Args(run.v, run.argc));
    BehindOptions(now, r.opts, r.words, r.rest, run.v[|Args(run.v, run.argc)|..]);
  }

  /** The number of arguments handed to `finished`, the words included, and their start. */
  method FinalCount(argv: array<Maybe<string>>, cur: nat, numargs: int, nonops: nat, ghost run: Run, ghost p: Progress,
                    ghost performed: seq<Parsed>, ghost roomNow: Maybe<nat>)
    returns (n: nat, at: nat)
    requires Over(run, p, argv[..], cur, numargs, nonops, performed, roomNow) && run.argc <= |run.v|
    ensures (n, at) == Reported(run)
    ensures Outcome(run, argv[..], performed, true)
  {
    Concluded(run, p, argv[..], cur, numargs, nonops, performed, roomNow);
    at := cur - nonops;
    n := CountAll(argv, cur, numargs, nonops, run, p, performed, roomNow);
  }

  method CountAll(argv: array<Maybe<string>>, cur: nat, numargs: int, nonops: nat, ghost run: Run, ghost p: Progress,
                  ghost performed: seq<Parsed>, ghost roomNow: Maybe<nat>)
    returns (n: nat)
    requires Over(run, p, argv[..], cur, numargs, nonops, performed, roomNow)
    ensures run.argc <= |run.v| && n == |p.words| + RestCount(run.argc, |Args(run.v, run.argc)|, |p.rem|)
  {
    OverLayout(run, p, argv[..], cur, numargs, nonops, performed, roomNow);
    n := nonops;
    if numargs > 0 && argv[cur].Some? {
      n := n + numargs;
    } else if numargs < 0 {
      assert argv[cur..] == argv[..][cur..];
      var rest := CountRest(argv, cur, p.rem, run.v[|Args(run.v, run.argc)|..]);
      n := n + rest;
    }
  }

  /** The core function. On every exit the vector is a permutation of what it was. When all
      options were accepted, it lists the options and what they took, then the words, then what was
      not scanned, and the action has seen exactly the options of the scan; `finished` is told about
      everything after the options. */
  method Workhorse(cfg: Settings, gnu: bool, argv: array<Maybe<string>>, argc: int, action: Action, ghost run: Run)
    returns (ok: bool)
    requires WellFormed(argv[..], argc)
    requires argv !in action.Frame() && argv !in action.Arrays() && argv != action.Self()
    requires run == RunOf(cfg, gnu, argv[..], argc, action.Performed(), action.Room())
    requires action.Valid(cfg.usage) && action.SafeFor(|run.whole.events|)
    modifies argv, action.Frame()
    ensures action.Valid(cfg.usage)
    ensures Outcome(run, argv[..], action.Performed(), ok)
    ensures action.Storing? ==>
      action.Nonops() == if ok && Reported(run).0 > 0 then Some(Reported(run)) else old(action.Nonops())
  {
    var cur, numargs, nonops;
    ghost var p;
    ok, cur, numargs, nonops, p := Pass(cfg, gnu, argv, argc, action, run);
    if ok {
      var n, at := FinalCount(argv, cur, numargs, nonops, run, p, action.Performed(), action.Room());
      action.Finished(n, at, cfg.usage);
    }
  }
}
