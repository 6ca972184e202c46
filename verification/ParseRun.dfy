/**
 The bookkeeping of a pass that stands somewhere inside the argument vector: what was done so
 far, continued by the scan of the rest, is the scan of the whole vector.
 */
module ParseRun {
  import opened Bolts
  import opened Maybes
  import opened OptionScan
  import opened OptionSteps
  import opened ArgVector
  import Partition

  /** A scan of which a first part is already known. */
  function Glue(taken: seq<Parsed>, opts: seq<string>, words: seq<string>, r: Scan): Scan {
    Scan(taken + r.events, opts + r.opts, words + r.words, r.rest, r.fatal)
  }

  lemma GlueOption(step: Stepper, gnu: bool, whole: Scan, taken: seq<Parsed>, opts: seq<string>, words: seq<string>,
                   rem: seq<string>)
    requires rem != [] && IsOption(rem[0]) && step(rem[0], Candidate(rem)).Done?
    requires whole == Glue(taken, opts, words, ScanArgs(step, gnu, rem))
    ensures var s := step(rem[0], Candidate(rem)); var k := Used(s, rem);
      whole == Glue(taken + s.events, opts + rem[..k], words, ScanArgs(step, gnu, rem[k..]))
  {
    var s := step(rem[0], Candidate(rem));
    var k := Used(s, rem);
    var r := ScanArgs(step, gnu, rem[k..]);
    assert taken + (s.events + r.events) == taken + s.events + r.events;
    assert opts + (rem[..k] + r.opts) == opts + rem[..k] + r.opts;
  }

  /** What a pass was started with, and what its scan is. */
  datatype Run = Run(step: Stepper, gnu: bool, v: seq<Maybe<string>>, argc: int, before: seq<Parsed>, room: Maybe<nat>,
                     whole: Scan)

  /** What a pass has done: options performed, the option part, the words, and what is not scanned yet. */
  datatype Progress = Progress(taken: seq<Parsed>, opts: seq<string>, words: seq<string>, rem: seq<string>)

  /** The vector lists the option part, the words and the rest; the cursor stands at the rest. */
  ghost predicate Layout(run: Run, p: Progress, now: seq<Maybe<string>>, cur: nat, numargs: int, nonops: nat) {
    && WellFormed(run.v, run.argc)
    && var a := Args(run.v, run.argc);
    && cur == |p.opts| + |p.words| && nonops == |p.words|
    && cur <= |a| && p.rem == a[cur..]
    && numargs == (if run.argc < 0 then run.argc else run.argc - cur)
    && now == Somes(p.opts + p.words + p.rem) + run.v[|a|..]
    && multiset(now) == multiset(run.v)
  }

  /** The scan so far, continued at the rest, is the whole scan. */
  ghost predicate OnCourse(run: Run, p: Progress) {
    run.whole == Glue(p.taken, p.opts, p.words, ScanArgs(run.step, run.gnu, p.rem))
  }

  ghost predicate Proper(run: Run) {
    WellFormed(run.v, run.argc) && run.whole == ScanArgs(run.step, run.gnu, Args(run.v, run.argc))
  }

  /** The state of the vector, the cursor and the action between two arguments. The loop over
      the vector only carries it along (see Bolts). */
  ghost predicate Between(run: Run, p: Progress, now: seq<Maybe<string>>, cur: nat, numargs: int, nonops: nat,
                          performed: seq<Parsed>, roomNow: Maybe<nat>) {
    forall k {:trigger Key(k)} :: Bolt(k) ==>
      && Proper(run)
      && Layout(run, p, now, cur, numargs, nonops)
      && OnCourse(run, p)
      && Ahead(run.before, performed, run.room, roomNow, p.taken)
  }

  /** The same, when the scan is over and successful. */
  ghost predicate Over(run: Run, p: Progress, now: seq<Maybe<string>>, cur: nat, numargs: int, nonops: nat,
                       performed: seq<Parsed>, roomNow: Maybe<nat>) {
    forall k {:trigger Key(k)} :: Bolt(k) ==>
      && Proper(run)
      && Layout(run, p, now, cur, numargs, nonops)
      && run.whole == Scan(p.taken, p.opts, p.words, p.rem, false)
      && Ahead(run.before, performed, run.room, roomNow, p.taken)
  }

  /** How a pass ends: the action has seen the options of the scan, or as many as it accepted; if
      it accepted all, the vector lists options, words and rest; in any case it is a permutation,
      and without gnu it is unchanged. */
  ghost predicate Outcome(run: Run, now: seq<Maybe<string>>, performed: seq<Parsed>, ok: bool) {
    && run.argc <= |run.v|
    && var r := run.whole;
    && var all := Accepted(run.room, |r.events|) == |r.events|;
    && Performs(run.before, performed, run.room, r.events)
    && ok == (all && !r.fatal)
    && (all ==> now == Somes(r.opts + r.words + r.rest) + run.v[|Args(run.v, run.argc)|..])
    && multiset(now) == multiset(run.v)
    && (!run.gnu ==> now == run.v)
  }

  /** The options still to be performed. */
  function Left(run: Run, p: Progress): nat {
    if |p.taken| <= |run.whole.events| then |run.whole.events| - |p.taken| else 0
  }

  function Start(run: Run): Progress
    requires run.argc <= |run.v|
  {
    Progress([], [], [], Args(run.v, run.argc))
  }

  lemma StartLayout(run: Run)
    requires WellFormed(run.v, run.argc)
    ensures Layout(run, Start(run), run.v, 0, run.argc, 0)
  {
    var a := Args(run.v, run.argc);
    assert [] + [] + a == a;
    assert run.v == Somes(a) + run.v[|a|..];
  }

  lemma StartsBetween(run: Run)
    requires Proper(run)
    ensures Between(run, Start(run), run.v, 0, run.argc, 0, run.before, run.room)
  {
    var r := run.whole;
    assert [] + r.events == r.events && [] + r.opts == r.opts && [] + r.words == r.words;
    assert run.before + [] == run.before;
    StartLayout(run);
    assert OnCourse(run, Start(run)) && Ahead(run.before, run.before, run.room, run.room, []);
  }

  /** What can be read at the cursor. */
  lemma AtCursor(run: Run, p: Progress, now: seq<Maybe<string>>, cur: nat, numargs: int, nonops: nat,
                 performed: seq<Parsed>, roomNow: Maybe<nat>)
    requires Between(run, p, now, cur, numargs, nonops, performed, roomNow)
    ensures numargs != 0 ==> cur < |now|
    ensures numargs != 0 && now[cur].Some? <==> p.rem != []
    ensures p.rem != [] ==> now[cur] == Some(p.rem[0])
    ensures p.rem != [] && (numargs > 1 || numargs < 0) ==> cur + 1 < |now| && now[cur + 1] == Candidate(p.rem)
    ensures p.rem != [] && !(numargs > 1 || numargs < 0) ==> Candidate(p.rem) == None
  {
    assert Key(0);
  }

  lemma EndOfScan(run: Run, p: Progress, now: seq<Maybe<string>>, cur: nat, numargs: int, nonops: nat,
                  performed: seq<Parsed>, roomNow: Maybe<nat>)
    requires Between(run, p, now, cur, numargs, nonops, performed, roomNow)
    requires p.rem == [] || (IsWord(p.rem[0]) && !run.gnu)
    ensures Over(run, p, now, cur, numargs, nonops, performed, roomNow)
  {
    assert Key(0);
    assert p.taken + [] == p.taken && p.opts + [] == p.opts && p.words + [] == p.words;
  }

  /** A word is passed over. */
  lemma PassWord(run: Run, p: Progress, now: seq<Maybe<string>>, cur: nat, numargs: int, nonops: nat,
                 performed: seq<Parsed>, roomNow: Maybe<nat>) returns (q: Progress)
    requires Between(run, p, now, cur, numargs, nonops, performed, roomNow)
    requires p.rem != [] && IsWord(p.rem[0]) && run.gnu
    ensures q.taken == p.taken && q.rem == p.rem[1..]
    ensures Between(run, q, now, cur + 1, if numargs > 0 then numargs - 1 else numargs, nonops + 1, performed, roomNow)
  {
    assert Key(0);
    q := Progress(p.taken, p.opts, p.words + [p.rem[0]], p.rem[1..]);
    assert p.opts + p.words + p.rem == q.opts + q.words + q.rem;
    assert Layout(run, q, now, cur + 1, if numargs > 0 then numargs - 1 else numargs, nonops + 1);
  }

  /** The progress after a completed option argument. */
  function After(p: Progress, s: Step): Progress
    requires s.Done? && |p.rem| >= if s.consumed then 2 else 1
  {
    var k := if s.consumed then 2 else 1;
    Progress(p.taken + s.events, p.opts + p.rem[..k], p.words, p.rem[k..])
  }

  lemma PassOption(run: Run, p: Progress, s: Step)
    requires OnCourse(run, p) && p.rem != [] && IsOption(p.rem[0])
    requires s == run.step(p.rem[0], Candidate(p.rem)) && (s.Done? && s.consumed ==> |p.rem| > 1)
    ensures p.taken + s.events <= run.whole.events
    ensures s.Fatal? ==> run.whole == Scan(p.taken + s.events, p.opts, p.words, p.rem, true)
    ensures s.Done? ==> OnCourse(run, After(p, s))
  {
    if s.Done? {
      GlueOption(run.step, run.gnu, run.whole, p.taken, p.opts, p.words, p.rem);
    } else {
      assert p.opts + [] == p.opts && p.words + [] == p.words;
    }
  }

  /** Effects of consecutive arguments add up. */
  lemma AheadBy(before: seq<Parsed>, mid: seq<Parsed>, now: seq<Parsed>, room: Maybe<nat>, roomMid: Maybe<nat>,
                roomNow: Maybe<nat>, taken: seq<Parsed>, s: Step, exit: Exit, consumed: bool, whole: seq<Parsed>)
    requires Ahead(before, mid, room, roomMid, taken)
    requires Effect(s, mid, now, roomMid, roomNow, exit, consumed)
    requires taken + s.events <= whole
    ensures exit != Refused ==> Ahead(before, now, room, roomNow, taken + s.events)
    ensures exit == Refused ==> Performs(before, now, room, whole) && Accepted(room, |whole|) < |whole|
  {
    var m := Accepted(roomMid, |s.events|);
    if exit == Refused {
      assert roomMid.Some? && room.Some? && m == roomMid.value;
      assert Accepted(room, |whole|) == |taken| + m;
      assert whole[..|taken| + m] == taken + s.events[..m];
    } else {
      assert s.events[..m] == s.events;
    }
  }

  /** The layout after the first `k` arguments of the rest were moved to the option part. */
  predicate Moved(run: Run, p: Progress, now: seq<Maybe<string>>, k: nat)
    requires k <= |p.rem| && run.argc <= |run.v|
  {
    && now == Somes(p.opts + p.rem[..k] + p.words + p.rem[k..]) + run.v[|Args(run.v, run.argc)|..]
    && multiset(now) == multiset(run.v)
  }

  /** The option at the cursor was performed and moved. */
  lemma OptionPassed(run: Run, p: Progress, s: Step, was: seq<Maybe<string>>, now: seq<Maybe<string>>, cur: nat,
                     numargs: int, nonops: nat, mid: seq<Parsed>, performed: seq<Parsed>, roomMid: Maybe<nat>,
                     roomNow: Maybe<nat>, consumed: bool, k: nat)
    requires Between(run, p, was, cur, numargs, nonops, mid, roomMid) && run.argc <= |run.v|
    requires p.rem != [] && IsOption(p.rem[0]) && s == run.step(p.rem[0], Candidate(p.rem))
    requires Effect(s, mid, performed, roomMid, roomNow, Completed, consumed) && (consumed ==> |p.rem| > 1)
    requires k == (if consumed then 2 else 1) && Moved(run, p, now, k)
    ensures
      Between(run, After(p, s), now, cur + k, if numargs > 0 then numargs - k else numargs, nonops, performed, roomNow)
    ensures Left(run, p) - |s.events| == Left(run, After(p, s))
  {
    assert Key(0);
    PassOption(run, p, s);
    AheadBy(run.before, mid, performed, run.room, roomMid, roomNow, p.taken, s, Completed, consumed, run.whole.events);
    LayoutAfter(run, p, s, was, now, cur, numargs, nonops, k);
  }

  lemma LayoutAfter(run: Run, p: Progress, s: Step, was: seq<Maybe<string>>, now: seq<Maybe<string>>, cur: nat,
                    numargs: int, nonops: nat, k: nat)
    requires Layout(run, p, was, cur, numargs, nonops)
    requires s.Done? && k == (if s.consumed then 2 else 1) <= |p.rem| && Moved(run, p, now, k)
    ensures Layout(run, After(p, s), now, cur + k, if numargs > 0 then numargs - k else numargs, nonops)
  {
    assert p.rem[k..] == Args(run.v, run.argc)[cur + k..];
  }

  lemma PosixParts(w: Scan, r: Scan, a: seq<string>, taken: seq<Parsed>, opts: seq<string>, words: seq<string>,
                   rem: seq<string>)
    requires w == Glue(taken, opts, words, r)
    requires w.words == [] && w.opts + w.rest == a && r.words == [] && r.opts + r.rest == rem
    ensures words == [] && a == opts + rem
  {
    assert |words + r.words| == 0;
    assert (opts + r.opts) + r.rest == opts + (r.opts + r.rest);
  }

  /** Without gnu no word is ever passed. */
  lemma PosixCourse(step: Stepper, a: seq<string>, taken: seq<Parsed>, opts: seq<string>, words: seq<string>,
                    rem: seq<string>)
    requires ScanArgs(step, false, a) == Glue(taken, opts, words, ScanArgs(step, false, rem))
    ensures words == [] && a == opts + rem
  {
    Partition.PosixKeepsOrder(step, a);
    Partition.PosixKeepsOrder(step, rem);
    PosixParts(ScanArgs(step, false, a), ScanArgs(step, false, rem), a, taken, opts, words, rem);
  }

  lemma Rejoin(opts: seq<string>, rem: seq<string>, k: nat)
    requires k <= |rem|
    ensures opts + rem[..k] + [] + rem[k..] == opts + rem
  {
  }

  /** Without gnu, moving options changes nothing. */
  lemma PosixUnchanged(run: Run, p: Progress, now: seq<Maybe<string>>, k: nat)
    requires !run.gnu && Proper(run) && OnCourse(run, p)
    requires k <= |p.rem| && Moved(run, p, now, k)
    ensures now == run.v
  {
    var a := Args(run.v, run.argc);
    PosixCourse(run.step, a, p.taken, p.opts, p.words, p.rem);
    Rejoin(p.opts, p.rem, k);
  }

  /** The option at the cursor ended the pass. */
  lemma OptionAborted(run: Run, p: Progress, s: Step, was: seq<Maybe<string>>, now: seq<Maybe<string>>, cur: nat,
                      numargs: int, nonops: nat, mid: seq<Parsed>, performed: seq<Parsed>, roomMid: Maybe<nat>,
                      roomNow: Maybe<nat>, exit: Exit, consumed: bool, k: nat)
    requires Between(run, p, was, cur, numargs, nonops, mid, roomMid) && run.argc <= |run.v|
    requires p.rem != [] && IsOption(p.rem[0]) && s == run.step(p.rem[0], Candidate(p.rem))
    requires s.Done? && s.consumed ==> |p.rem| > 1
    requires Effect(s, mid, performed, roomMid, roomNow, exit, consumed) && exit != Completed
    requires k <= |p.rem| && (exit == CheckFailed ==> k == 0) && Moved(run, p, now, k)
    ensures Outcome(run, now, performed, false)
  {
    assert Key(0);
    PassOption(run, p, s);
    AheadBy(run.before, mid, performed, run.room, roomMid, roomNow, p.taken, s, exit, consumed, run.whole.events);
    if exit == CheckFailed {
      assert run.whole.events[..|run.whole.events|] == run.whole.events;
      assert p.opts + p.rem[..0] + p.words + p.rem[0..] == p.opts + p.words + p.rem;
    }
    if !run.gnu {
      PosixUnchanged(run, p, now, k);
    }
  }

  lemma TerminatorPassed(run: Run, p: Progress, was: seq<Maybe<string>>, now: seq<Maybe<string>>, cur: nat,
                         numargs: int, nonops: nat, performed: seq<Parsed>, roomNow: Maybe<nat>) returns (q: Progress)
    requires Between(run, p, was, cur, numargs, nonops, performed, roomNow) && run.argc <= |run.v|
    requires p.rem != [] && p.rem[0] == "--" && Moved(run, p, now, 1)
    ensures Over(run, q, now, cur + 1, if numargs > 0 then numargs - 1 else numargs, nonops, performed, roomNow)
  {
    assert Key(0);
    q := Progress(p.taken, p.opts + [p.rem[0]], p.words, p.rem[1..]);
    assert p.rem[..1] == [p.rem[0]];
    assert p.taken + [] == p.taken && p.words + [] == p.words;
    assert Layout(run, q, now, cur + 1, if numargs > 0 then numargs - 1 else numargs, nonops);
  }

  lemma OverLayout(run: Run, p: Progress, now: seq<Maybe<string>>, cur: nat, numargs: int, nonops: nat,
                   performed: seq<Parsed>, roomNow: Maybe<nat>)
    requires Over(run, p, now, cur, numargs, nonops, performed, roomNow)
    ensures Layout(run, p, now, cur, numargs, nonops)
    ensures now[cur..] == Somes(p.rem) + run.v[|Args(run.v, run.argc)|..]
  {
    assert Key(0);
    SomesConcat(p.opts + p.words, p.rem);
    assert now == Somes(p.opts + p.words) + (Somes(p.rem) + run.v[|Args(run.v, run.argc)|..]);
  }

  lemma Concluded(run: Run, p: Progress, now: seq<Maybe<string>>, cur: nat, numargs: int, nonops: nat,
                  performed: seq<Parsed>, roomNow: Maybe<nat>)
    requires Over(run, p, now, cur, numargs, nonops, performed, roomNow)
    ensures Outcome(run, now, performed, true)
    ensures run.whole == Scan(p.taken, p.opts, p.words, p.rem, false)
    ensures cur == |p.opts| + |p.words| && nonops == |p.words|
  {
    assert Key(0);
    assert p.taken[..|p.taken|] == p.taken;
    if !run.gnu {
      var a := Args(run.v, run.argc);
      Partition.PosixKeepsOrder(run.step, a);
      assert p.opts + [] + p.rem == p.opts + p.rem;
    }
  }

  /** The number of arguments reported after the options: of an honest count, all that were not
      scanned. */
  function RestCount(argc: int, length: nat, rest: nat): int {
    if argc < 0 || rest == 0 then rest else argc - length + rest
  }
}
