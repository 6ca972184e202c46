/**
 When does a second pass over a reordered argument vector see what the first pass saw?

 The documentation of the parser promises it without condition. The scan below decides exactly
 for which usage tables the promise holds: those in which an option that ever leaves its
 detached candidate alone leaves every other candidate alone that reordering can put there.
 */
module Reparse {
  import opened Maybes
  import opened OptionScan

  /** The option `s`, offered the candidate `c`, performs its options without taking `c`. */
  predicate Leaves(step: Stepper, s: string, c: Maybe<string>)
    requires IsOption(s)
  {
    var r := step(s, c);
    r.Done? && !r.consumed
  }

  /** `o` is not a word and can open a vector that parses. */
  ghost predicate Acceptable(step: Stepper, o: string) {
    !IsWord(o) && exists t: seq<string> :: !ScanArgs(step, true, [o] + t).fatal
  }

  ghost predicate LeavesSomething(step: Stepper, s: string)
    requires IsOption(s)
  {
    exists c: Maybe<string> :: (c.Some? ==> IsWord(c.value)) && Leaves(step, s, c)
  }

  /** The condition on the usage table and its check functions. */
  ghost predicate Stable(step: Stepper) {
    forall s, o: string ::
      IsOption(s) && LeavesSomething(step, s) && (IsWord(o) || Acceptable(step, o)) ==> Leaves(step, s, Some(o))
  }

  function Reordered(r: Scan): seq<string> {
    r.opts + r.words + r.rest
  }

  /** The promise for one vector and one choice of the second pass' mode. */
  predicate SecondPassAgrees(step: Stepper, gnu: bool, a: seq<string>) {
    var r := ScanArgs(step, true, a);
    var q := ScanArgs(step, gnu, Reordered(r));
    && !q.fatal
    && q.events == r.events
    && q.words + q.rest == r.words + r.rest
    && Reordered(q) == Reordered(r)
  }

  /** The documented promise: after a successful pass with gnu set, gnu has no further effect. */
  ghost predicate ReparseLaw(step: Stepper) {
    forall a: seq<string>, gnu: bool :: !ScanArgs(step, true, a).fatal ==> SecondPassAgrees(step, gnu, a)
  }

  /** How the outcomes of one option argument for two different candidates compare: two that are
      both left alone make no difference to what is performed; one that is taken shows in the last
      option performed; a fatal check performs no more than a completed step. */
  ghost predicate Comparable(x: Step, y: Step) {
    && (x.Done? && y.Done? ==> |x.events| == |y.events|)
    && (x.Done? && y.Done? && !x.consumed && !y.consumed ==> x.events == y.events)
    && (x.Done? && y.Done? && x.consumed && !y.consumed ==>
          x.events != [] && x.events[|x.events| - 1] != y.events[|y.events| - 1])
    && (x.Done? && y.Fatal? ==> |y.events| <= |x.events|)
  }

  ghost predicate Sound(step: Stepper) {
    && (forall s: string, c: Maybe<string>, d: Maybe<string> :: Comparable(step(s, c), step(s, d)))
    && (forall s: string, c: Maybe<string> :: step(s, c).Done? && step(s, c).consumed ==> c.Some?)
  }

  // ---------------------------------------------------------------- what is acceptable

  /** The end of a vector that parses: the terminator, or an option that takes its candidate, or leaves
      none or a word. */
  ghost predicate EndsWell(step: Stepper, o: string) {
    || o == "--"
    || (IsOption(o) && exists c: Maybe<string> ::
          step(o, c).Done? && (c == None || step(o, c).consumed || IsWord(c.value)))
  }

  /** Options of which each leaves the next one, the last of which ends well. */
  ghost predicate Chain(step: Stepper, os: seq<string>) {
    && os != [] && EndsWell(step, os[|os| - 1])
    && forall i :: 0 <= i < |os| - 1 ==> IsOption(os[i]) && Leaves(step, os[i], Some(os[i + 1]))
  }

  /** Acceptable are just those that begin such a chain: it can be read off single steps, that is, off the
      check functions. */
  lemma AcceptableIsChain(step: Stepper, o: string)
    requires Sound(step)
    ensures Acceptable(step, o) <==> exists os :: Chain(step, os) && os[0] == o
  {
    if Acceptable(step, o) {
      var t: seq<string> :| !ScanArgs(step, true, [o] + t).fatal;
      var os := ChainOf(step, o, t);
    }
    if exists os :: Chain(step, os) && os[0] == o {
      var os :| Chain(step, os) && os[0] == o;
      var t := ParsesBehind(step, os);
      assert !IsWord(o);
    }
  }

  lemma {:induction false} ChainOf(step: Stepper, o: string, t: seq<string>) returns (os: seq<string>)
    requires Sound(step) && !IsWord(o) && !ScanArgs(step, true, [o] + t).fatal
    ensures Chain(step, os) && os[0] == o
    decreases |t|
  {
    var a := [o] + t;
    assert a[1..] == t && (t != [] ==> a[1] == t[0]);
    os := [o];
    if o != "--" {
      var s := step(o, Candidate(a));
      if t != [] && !s.consumed && !IsWord(t[0]) {
        assert t == [t[0]] + t[1..];
        var more := ChainOf(step, t[0], t[1..]);
        os := [o] + more;
        assert forall i :: 0 < i < |os| ==> os[i] == more[i - 1];
      } else {
        assert EndsWell(step, o);
      }
    }
  }

  lemma {:induction false} ParsesBehind(step: Stepper, os: seq<string>) returns (t: seq<string>)
    requires Sound(step) && Chain(step, os)
    ensures !IsWord(os[0]) && !ScanArgs(step, true, [os[0]] + t).fatal
  {
    if |os| > 1 {
      assert Chain(step, os[1..]);
      var more := ParsesBehind(step, os[1..]);
      t := [os[1]] + more;
      ScanLeaving(step, true, os[0], t);
    } else {
      t := ParsesAtEnd(step, os[0]);
    }
  }

  lemma ParsesAtEnd(step: Stepper, o: string) returns (t: seq<string>)
    requires Sound(step) && EndsWell(step, o)
    ensures !IsWord(o) && !ScanArgs(step, true, [o] + t).fatal
  {
    t := [];
    if o != "--" {
      var c: Maybe<string> :| step(o, c).Done? && (c == None || step(o, c).consumed || IsWord(c.value));
      if c.Some? { t := [c.value]; }
      var a := [o] + t;
      assert Candidate(a) == c;
      ScanStep(step, true, a, step(o, c));
      if step(o, c).consumed {
        assert a[2..] == [];
      } else {
        WordsOnly(step, true, t);
        assert a[1..] == t;
      }
    }
  }

  // ---------------------------------------------------------------- sufficiency

  lemma {:induction false} WordsOnly(step: Stepper, gnu: bool, w: seq<string>)
    requires forall p :: p in w ==> IsWord(p)
    ensures ScanArgs(step, gnu, w) == if gnu then Scan([], [], w, [], false) else Scan([], [], [], w, false)
  {
    if w != [] && gnu {
      WordsOnly(step, gnu, w[1..]);
      assert [w[0]] + w[1..] == w;
    }
  }

  lemma {:induction false} WordsAreWords(step: Stepper, a: seq<string>)
    ensures forall p :: p in ScanArgs(step, true, a).words ==> IsWord(p)
    decreases |a|
  {
    if a == [] || a[0] == "--" {
    } else if IsWord(a[0]) {
      WordsAreWords(step, a[1..]);
    } else {
      var s := step(a[0], Candidate(a));
      if s.Done? { WordsAreWords(step, a[Used(s, a)..]); }
    }
  }

  /** The first option of a vector that parses is acceptable; it is the vector's first non-word. */
  lemma {:induction false} FirstOption(step: Stepper, a: seq<string>)
    requires !ScanArgs(step, true, a).fatal
    ensures var r := ScanArgs(step, true, a);
      r.opts != [] ==> Acceptable(step, r.opts[0]) && (r.words == [] || IsWord(a[0]) || r.opts[0] == a[0])
    ensures a != [] && !IsWord(a[0]) ==> ScanArgs(step, true, a).opts != [] && ScanArgs(step, true, a).opts[0] == a[0]
    ensures a != [] && IsWord(a[0]) ==> ScanArgs(step, true, a).words != []
    decreases |a|
  {
    if a != [] {
      if IsWord(a[0]) {
        FirstOption(step, a[1..]);
      } else {
        assert a == [a[0]] + a[1..];
        assert !ScanArgs(step, true, [a[0]] + a[1..]).fatal;
      }
    }
  }

  /** Words in front of the scan position only join the words. */
  lemma {:induction false} SkipWords(step: Stepper, gnu: bool, w: seq<string>, t: seq<string>)
    requires forall p :: p in w ==> IsWord(p)
    requires w != []
    ensures var q := ScanArgs(step, true, t);
      ScanArgs(step, gnu, w + t) == if gnu then q.(words := w + q.words) else Scan([], [], [], w + t, false)
  {
    var a := w + t;
    assert a[1..] == w[1..] + t;
    if gnu {
      if |w| == 1 {
        assert w[1..] + t == t;
      } else {
        SkipWords(step, gnu, w[1..], t);
      }
      assert forall q: seq<string> :: [w[0]] + (w[1..] + q) == w + q;
    }
  }

  /** What the second pass must do on the reordered vector, when the words `w` already passed
      over stand between the options and the words of the remaining scan `r`. */
  ghost predicate Replays(step: Stepper, gnu: bool, w: seq<string>, r: Scan) {
    ReplayedBy(ScanArgs(step, gnu, r.opts + (w + r.words + r.rest)), w, r)
  }

  ghost predicate ReplayedBy(q: Scan, w: seq<string>, r: Scan) {
    !q.fatal && q.events == r.events && q.opts == r.opts && q.words + q.rest == w + r.words + r.rest
  }

  /** In a vector that parses, whatever reordering puts behind an option that left its candidate
      is left as well. */
  lemma NewCandidate(step: Stepper, a: seq<string>, w: seq<string>, b: seq<string>)
    requires Stable(step)
    requires a != [] && IsOption(a[0]) && Leaves(step, a[0], Candidate(a))
    requires !ScanArgs(step, true, a[1..]).fatal
    requires forall p :: p in w ==> IsWord(p)
    requires var r := ScanArgs(step, true, a[1..]);
      b == [a[0]] + r.opts + (w + r.words + r.rest)
    ensures Leaves(step, a[0], Candidate(b))
  {
    var r := ScanArgs(step, true, a[1..]);
    var t := a[1..];
    FirstOption(step, t);
    WordsAreWords(step, t);
    if |a| == 1 {
      assert r.opts == [] && r.words == [] && r.rest == [];
      assert b == [a[0]] + w;
      if w != [] {
        assert b[1] == w[0];
        assert LeavesSomething(step, a[0]);
      }
    } else if !IsWord(a[1]) {
      assert t[0] == a[1];
      assert b[1] == a[1];
    } else {
      assert t[0] == a[1];
      assert LeavesSomething(step, a[0]);
      if r.opts != [] {
        assert b[1] == r.opts[0];
      } else if w != [] {
        assert b[1] == w[0];
      } else {
        assert b[1] == r.words[0];
      }
    }
  }

  lemma {:induction false} StableReplays(step: Stepper, gnu: bool, a: seq<string>, w: seq<string>)
    requires Sound(step)
    requires Stable(step)
    requires !ScanArgs(step, true, a).fatal
    requires forall p :: p in w ==> IsWord(p)
    ensures Replays(step, gnu, w, ScanArgs(step, true, a))
    decreases |a|
  {
    if a == [] {
      ReplaysEnd(step, gnu, w);
    } else if IsWord(a[0]) {
      StableReplays(step, gnu, a[1..], w + [a[0]]);
      ReplaysWord(step, gnu, w, a[0], ScanArgs(step, true, a[1..]));
    } else if a[0] == "--" {
      ReplaysTerminator(step, gnu, w, ScanArgs(step, true, a));
    } else {
      StableReplaysOption(step, gnu, a, w);
    }
  }

  lemma ReplaysEnd(step: Stepper, gnu: bool, w: seq<string>)
    requires forall p :: p in w ==> IsWord(p)
    ensures Replays(step, gnu, w, Scan([], [], [], [], false))
  {
    assert [] + (w + [] + []) == w && w + [] + [] == w;
    WordsOnly(step, gnu, w);
  }

  lemma ReplaysWord(step: Stepper, gnu: bool, w: seq<string>, p: string, r: Scan)
    requires Replays(step, gnu, w + [p], r)
    ensures Replays(step, gnu, w, r.(words := [p] + r.words))
  {
    assert w + [p] + r.words + r.rest == w + ([p] + r.words) + r.rest;
  }

  lemma ReplaysTerminator(step: Stepper, gnu: bool, w: seq<string>, r: Scan)
    requires r.opts == ["--"] && r.events == [] && r.words == [] && !r.fatal
    ensures Replays(step, gnu, w, r)
  {
    var b := r.opts + (w + r.words + r.rest);
    assert b[0] == "--" && b[1..] == w + r.words + r.rest;
  }

  /** The first option of the reordered vector is met as it was before. */
  lemma StepAgain(step: Stepper, a: seq<string>, w: seq<string>, r: Scan, b: seq<string>)
    requires Sound(step) && Stable(step) && a != [] && IsOption(a[0]) && !ScanArgs(step, true, a).fatal
    requires forall p :: p in w ==> IsWord(p)
    requires var k := Used(step(a[0], Candidate(a)), a);
      r == ScanArgs(step, true, a[k..]) && b == a[..k] + (r.opts + (w + r.words + r.rest))
    ensures b != [] && b[0] == a[0]
    ensures var s, z := step(a[0], Candidate(a)), step(b[0], Candidate(b));
      !s.Fatal? && !z.Fatal? && z.events == s.events && Used(z, b) == Used(s, a)
  {
    var s := step(a[0], Candidate(a));
    if s.consumed {
      assert b[1] == a[1];
    } else {
      assert b == [a[0]] + r.opts + (w + r.words + r.rest);
      NewCandidate(step, a, w, b);
      assert Comparable(s, step(a[0], Candidate(b)));
    }
  }

  lemma ScanStep(step: Stepper, gnu: bool, a: seq<string>, s: Step)
    requires a != [] && IsOption(a[0]) && s == step(a[0], Candidate(a)) && !s.Fatal?
    ensures var k := Used(s, a); var r := ScanArgs(step, gnu, a[k..]);
      ScanArgs(step, gnu, a) == r.(events := s.events + r.events, opts := a[..k] + r.opts)
  {
  }

  lemma {:induction false} StableReplaysOption(step: Stepper, gnu: bool, a: seq<string>, w: seq<string>)
    requires Sound(step) && Stable(step) && a != [] && IsOption(a[0]) && !ScanArgs(step, true, a).fatal
    requires forall p :: p in w ==> IsWord(p)
    ensures Replays(step, gnu, w, ScanArgs(step, true, a))
    decreases |a|, 0
  {
    var s := step(a[0], Candidate(a));
    var k := Used(s, a);
    var r := ScanArgs(step, true, a[k..]);
    var b' := r.opts + (w + r.words + r.rest);
    var b := a[..k] + b';
    StepAgain(step, a, w, r, b);
    ScanStep(step, true, a, s);
    StableReplays(step, gnu, a[k..], w);
    OptionInFront(step, gnu, w, r, a[..k], step(b[0], Candidate(b)), b);
  }

  lemma OptionInFront(step: Stepper, gnu: bool, w: seq<string>, r: Scan, front: seq<string>, s: Step, b: seq<string>)
    requires Replays(step, gnu, w, r) && b == front + (r.opts + (w + r.words + r.rest))
    requires b != [] && IsOption(b[0]) && s == step(b[0], Candidate(b)) && !s.Fatal? && Used(s, b) == |front|
    ensures Replays(step, gnu, w, r.(events := s.events + r.events, opts := front + r.opts))
  {
    ScanStep(step, gnu, b, s);
    FrontAndBack(front, r.opts, w + r.words + r.rest, b);
    var r' := r.(events := s.events + r.events, opts := front + r.opts);
    assert r'.opts + (w + r'.words + r'.rest) == b;
  }

  lemma FrontAndBack(front: seq<string>, opts: seq<string>, more: seq<string>, b: seq<string>)
    requires b == front + (opts + more)
    ensures b[..|front|] == front && b[|front|..] == opts + more && front + opts + more == b
  {
  }

  lemma ReplayAgrees(step: Stepper, gnu: bool, a: seq<string>)
    requires !ScanArgs(step, true, a).fatal
    requires Replays(step, gnu, [], ScanArgs(step, true, a))
    ensures SecondPassAgrees(step, gnu, a)
  {
    var r := ScanArgs(step, true, a);
    assert [] + r.words + r.rest == r.words + r.rest;
    assert r.opts + ([] + r.words + r.rest) == Reordered(r);
    var q := ScanArgs(step, gnu, Reordered(r));
    assert Reordered(q) == q.opts + (q.words + q.rest);
  }

  lemma StableSuffices(step: Stepper)
    requires Sound(step)
    requires Stable(step)
    ensures ReparseLaw(step)
  {
    forall a: seq<string>, gnu: bool | !ScanArgs(step, true, a).fatal
      ensures SecondPassAgrees(step, gnu, a)
    {
      StableReplays(step, gnu, a, []);
      ReplayAgrees(step, gnu, a);
    }
  }

  // ---------------------------------------------------------------- necessity

  /** An option that leaves its candidate, in front of a vector that parses. */
  lemma ScanLeaving(step: Stepper, gnu: bool, s: string, t: seq<string>)
    requires IsOption(s) && Leaves(step, s, Candidate([s] + t))
    ensures var r := ScanArgs(step, gnu, t);
      ScanArgs(step, gnu, [s] + t) == r.(events := step(s, Candidate([s] + t)).events + r.events, opts := [s] + r.opts)
  {
    var a := [s] + t;
    assert a[1..] == t && a[..1] == [s];
  }

  /** If the option `s` is followed by `o` after reordering, and the second pass agrees, then `s`
      leaves `o` as well. */
  lemma AgreementLeaves(step: Stepper, s: string, o: string, a: seq<string>)
    requires Sound(step)
    requires IsOption(s)
    requires SecondPassAgrees(step, true, a)
    requires exists c :: Leaves(step, s, c) && step(s, c).events <= ScanArgs(step, true, a).events
    requires |Reordered(ScanArgs(step, true, a))| > 1
    requires Reordered(ScanArgs(step, true, a))[0] == s && Reordered(ScanArgs(step, true, a))[1] == o
    ensures Leaves(step, s, Some(o))
  {
    var c :| Leaves(step, s, c) && step(s, c).events <= ScanArgs(step, true, a).events;
    var b := Reordered(ScanArgs(step, true, a));
    FirstEvents(step, b);
    SamePrefix(step(s, Some(o)), step(s, c), ScanArgs(step, true, b).events);
  }

  lemma FirstEvents(step: Stepper, a: seq<string>)
    requires a != [] && IsOption(a[0]) && !ScanArgs(step, true, a).fatal
    ensures step(a[0], Candidate(a)).Done? && step(a[0], Candidate(a)).events <= ScanArgs(step, true, a).events
  {
  }

  lemma SamePrefix(x: Step, y: Step, events: seq<Parsed>)
    requires Comparable(x, y) && x.Done? && y.Done? && !y.consumed && x.events <= events && y.events <= events
    ensures !x.consumed
  {
    assert x.events == y.events;
  }

  lemma LawForWords(step: Stepper, s: string, c: Maybe<string>, o: string)
    requires Sound(step)
    requires ReparseLaw(step)
    requires IsOption(s) && (c.Some? ==> IsWord(c.value)) && Leaves(step, s, c)
    requires IsWord(o)
    ensures Leaves(step, s, Some(o))
  {
    var t := if c == None then [] else [c.value];
    var a := [o] + ([s] + t);
    assert Candidate([s] + t) == c;
    WordsOnly(step, true, t);
    ScanLeaving(step, true, s, t);
    assert a[1..] == [s] + t;
    var r := ScanArgs(step, true, a);
    assert r.opts == [s] && r.words == [o] + t && r.rest == [] && !r.fatal;
    assert Reordered(r) == [s, o] + t;
    assert SecondPassAgrees(step, true, a);
    assert step(s, c).events + [] == step(s, c).events;
    assert step(s, c).events <= r.events;
    AgreementLeaves(step, s, o, a);
  }

  lemma LawForOptions(step: Stepper, s: string, o: string)
    requires Sound(step)
    requires ReparseLaw(step)
    requires IsOption(s) && Leaves(step, s, Some(""))
    requires Acceptable(step, o)
    ensures Leaves(step, s, Some(o))
  {
    var t: seq<string> :| !ScanArgs(step, true, [o] + t).fatal;
    var u := [o] + t;
    var v := [""] + u;
    var a := [s] + v;
    assert v[1..] == u;
    assert Candidate(a) == Some("");
    FirstOption(step, u);
    ScanLeaving(step, true, s, v);
    var r, q := ScanArgs(step, true, a), ScanArgs(step, true, u);
    assert r.opts == [s] + q.opts && q.opts[0] == o;
    assert Reordered(r)[0] == s && Reordered(r)[1] == o;
    assert SecondPassAgrees(step, true, a);
    assert step(s, Some("")).events <= r.events;
    AgreementLeaves(step, s, o, a);
  }

  lemma StableIsNeeded(step: Stepper)
    requires Sound(step)
    requires ReparseLaw(step)
    ensures Stable(step)
  {
    forall s, o: string | IsOption(s) && LeavesSomething(step, s) && (IsWord(o) || Acceptable(step, o))
      ensures Leaves(step, s, Some(o))
    {
      var c: Maybe<string> :| (c.Some? ==> IsWord(c.value)) && Leaves(step, s, c);
      if IsWord(o) {
        LawForWords(step, s, c, o);
      } else {
        LawForWords(step, s, c, "");
        LawForOptions(step, s, o);
      }
    }
  }

  /** A second pass agrees with every successful first one exactly if the steps are stable. */
  lemma ReparseLawIffStable(step: Stepper)
    requires Sound(step)
    ensures ReparseLaw(step) <==> Stable(step)
  {
    if Stable(step) { StableSuffices(step); }
    if ReparseLaw(step) { StableIsNeeded(step); }
  }

  // ---------------------------------------------------------------- the parser's own steps

  lemma {:induction false} ShortStepCompare(cfg: Settings, param: string, pos: nat, c: Maybe<string>, d: Maybe<string>)
    ensures Comparable(ShortStep(cfg, param, pos, c), ShortStep(cfg, param, pos, d))
    decreases |param| - pos
  {
    if pos + 1 == |param| {
      LastCharCompare(cfg, param, pos, c, d);
    } else if pos < |param| {
      ShortStepCompare(cfg, param, pos + 1, c, d);
      PrependCompare(ShortStep(cfg, param, pos + 1, c), ShortStep(cfg, param, pos + 1, d));
    }
  }

  lemma LastCharCompare(cfg: Settings, param: string, pos: nat, c: Maybe<string>, d: Maybe<string>)
    requires pos + 1 == |param|
    ensures Comparable(ShortStep(cfg, param, pos, c), ShortStep(cfg, param, pos, d))
  {
    assert ShortStep(cfg, param, pos + 1, c) == Done([], false);
    assert ShortStep(cfg, param, pos + 1, d) == Done([], false);
  }

  lemma PrependCompare(x: Step, y: Step)
    requires Comparable(x, y)
    ensures forall o :: Comparable(Prepend(o, x), Prepend(o, y))
  {
  }

  lemma LongStepCompare(cfg: Settings, i: nat, param: string, given: string, c: Maybe<string>, d: Maybe<string>)
    requires i <= |cfg.usage|
    ensures Comparable(LongStep(cfg, i, param, given, c), LongStep(cfg, i, param, given, d))
  {
  }

  lemma StepCompare(cfg: Settings, s: string, c: Maybe<string>, d: Maybe<string>)
    requires IsOption(s)
    ensures Comparable(ParamStep(cfg, s, c), ParamStep(cfg, s, d))
  {
    ShortStepCompare(cfg, s, 1, c, d);
    if s[1] == '-' {
      LongStepCompare(cfg, LongIndex(cfg, s[2..]), s, s[2..], c, d);
    } else {
      LongStepCompare(cfg, LongIndex(cfg, s[1..]), s, s[1..], c, d);
    }
  }

  lemma StepsAreSound(cfg: Settings)
    ensures Sound(StepsOf(cfg))
  {
    var step := StepsOf(cfg);
    forall s: string, c: Maybe<string>, d: Maybe<string>
      ensures Comparable(step(s, c), step(s, d))
    {
      if IsOption(s) { StepCompare(cfg, s, c, d); }
    }
  }

  /** The promise of the documentation holds for exactly the stable usage tables. */
  lemma DocumentedPromise(cfg: Settings)
    ensures ReparseLaw(StepsOf(cfg)) <==> Stable(StepsOf(cfg))
  {
    StepsAreSound(cfg);
    ReparseLawIffStable(StepsOf(cfg));
  }

  /** A table whose only option accepts an argument but does not insist on one. */
  const LaxUsage: seq<Descriptor> :=
    [Descriptor(0, 0, "x", "", (name, arg, msg) => ArgOk)]

  /** The promise fails for it: "file -x" gives -x no argument, but the reordered "-x file" does. */
  lemma ReparseCounterexample()
    ensures !ReparseLaw(StepsOf(Settings(LaxUsage, false, 0, false)))
  {
    var cfg := Settings(LaxUsage, false, 0, false);
    var step := StepsOf(cfg);
    var a := ["file", "-x"];
    assert IsOption("-x") && "-x"[1..] == "x";
    assert a[1..] == ["-x"];
    assert FirstShort(LaxUsage, 'x', 0) == 0;
    assert ShortStep(cfg, "-x", 1, None) == Done([Parsed(0, "x", None)], false);
    assert ShortStep(cfg, "-x", 1, Some("file")) == Done([Parsed(0, "x", Some("file"))], true);
    ScanLeaving(step, true, "-x", []);
    assert ["-x"] + [] == ["-x"];
    var r := ScanArgs(step, true, a);
    assert r == Scan([Parsed(0, "x", None)], ["-x"], ["file"], [], false);
    assert Reordered(r) == ["-x", "file"];
    assert ScanArgs(step, true, Reordered(r)).words == [] && ScanArgs(step, true, Reordered(r)).rest == [];
    assert !SecondPassAgrees(step, true, a);
  }
}
