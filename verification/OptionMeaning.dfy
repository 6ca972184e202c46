/**
 What the options of a command line mean, in terms of the characters typed: which descriptor an
 option stands for, what its check function is asked, and which argument it is given.
 */
module OptionMeaning {
  import opened Maybes
  import opened OptionScan

  // ---------------------------------------------------------------- which descriptor handles a name

  ghost predicate PlainNames(usage: seq<Descriptor>) {
    forall i :: 0 <= i < |usage| ==> '=' !in usage[i].longopt
  }

  /** `name` begins the long name of a descriptor, and abbreviations that short are allowed. */
  predicate Begins(cfg: Settings, name: string, j: int) {
    0 <= j < |cfg.usage| && 0 < cfg.minAbbr <= |name| && name <= cfg.usage[j].longopt
  }

  predicate IsCalled(cfg: Settings, name: string, j: int) {
    0 <= j < |cfg.usage| && cfg.usage[j].longopt == name
  }

  /** The first descriptor of that name, or else the only one that it begins. */
  ghost predicate Named(cfg: Settings, name: string, d: int) {
    || (IsCalled(cfg, name, d) && forall j :: j < d ==> !IsCalled(cfg, name, j))
    || ((forall j :: !IsCalled(cfg, name, j)) && Begins(cfg, name, d) && forall j :: Begins(cfg, name, j) ==> j == d)
  }

  /** The first descriptor without any name, which stands for unknown options. */
  ghost predicate CatchesUnknown(usage: seq<Descriptor>, d: int) {
    && 0 <= d < |usage| && usage[d].shortopt == "" && usage[d].longopt == ""
    && forall j :: 0 <= j < d ==> usage[j].shortopt != "" || usage[j].longopt != ""
  }

  ghost predicate HandlesLong(cfg: Settings, name: string, d: int) {
    Named(cfg, name, d) || ((forall j :: !Named(cfg, name, j)) && CatchesUnknown(cfg.usage, d))
  }

  ghost predicate HandlesShort(usage: seq<Descriptor>, ch: char, d: int) {
    || (0 <= d < |usage| && ch in usage[d].shortopt && forall j :: 0 <= j < d ==> ch !in usage[j].shortopt)
    || ((forall j :: 0 <= j < |usage| ==> ch !in usage[j].shortopt) && CatchesUnknown(usage, d))
  }

  /** What may follow a name: nothing, or an argument behind '='. */
  predicate Tail(tail: string) {
    tail == "" || tail[0] == '='
  }

  lemma SpellsIs(long: string, name: string, tail: string)
    requires '=' !in long && '=' !in name && Tail(tail)
    ensures Spells(long, name + tail) <==> long == name
  {
    var given := name + tail;
    assert given[..|name|] == name && (tail != "" ==> given[|name|] == '=');
    if Spells(long, given) {
      assert long == given[..|long|];
      assert |long| >= |name|;
      assert forall i :: 0 <= i < |long| ==> given[i] == long[i];
      assert |long| == |name|;
    }
  }

  lemma AbbreviatesIs(long: string, name: string, tail: string, min: int)
    requires '=' !in long && '=' !in name && Tail(tail) && min > 0
    ensures Abbreviates(long, name + tail, min) <==> long == name || (min <= |name| && name <= long)
  {
    var given := name + tail;
    var n := Common(long, given);
    assert given[..|name|] == name && (tail != "" ==> given[|name|] == '=');
    assert forall i :: 0 <= i < n ==> given[i] == given[..n][i] == long[..n][i] == long[i];
    assert n <= |name|;
    assert forall i :: 0 <= i < |name| ==> given[i] == name[i];
    if n == |name| {
      assert name == given[..n] == long[..n];
    }
  }

  lemma LongSelected(cfg: Settings, name: string, tail: string, d: nat)
    requires PlainNames(cfg.usage) && '=' !in name && Tail(tail) && Named(cfg, name, d)
    ensures LongIndex(cfg, name + tail) == d
  {
    var u, given, min := cfg.usage, name + tail, cfg.minAbbr;
    forall j | 0 <= j < |u|
      ensures SpelledBy(u, given, j) <==> IsCalled(cfg, name, j)
      ensures AbbreviatedBy(u, given, min, j) <==> min > 0 && (IsCalled(cfg, name, j) || Begins(cfg, name, j))
    {
      SpellsIs(u[j].longopt, name, tail);
      if min > 0 { AbbreviatesIs(u[j].longopt, name, tail, min); }
    }
    LongIndexSelects(cfg, given);
    if IsCalled(cfg, name, d) {
      assert SpelledBy(u, given, d);
    } else {
      assert AbbreviatedBy(u, given, min, d);
    }
  }

  lemma NoneSelected(cfg: Settings, name: string, tail: string)
    requires PlainNames(cfg.usage) && '=' !in name && Tail(tail) && forall j :: !Named(cfg, name, j)
    ensures LongIndex(cfg, name + tail) == |cfg.usage|
  {
    var u, given, min := cfg.usage, name + tail, cfg.minAbbr;
    var i := LongIndex(cfg, given);
    forall j | 0 <= j < |u|
      ensures SpelledBy(u, given, j) <==> IsCalled(cfg, name, j)
      ensures AbbreviatedBy(u, given, min, j) <==> min > 0 && (IsCalled(cfg, name, j) || Begins(cfg, name, j))
    {
      SpellsIs(u[j].longopt, name, tail);
      if min > 0 { AbbreviatesIs(u[j].longopt, name, tail, min); }
    }
    LongIndexSelects(cfg, given);
    assert !Named(cfg, name, i);
  }

  lemma {:induction false} FirstDummyFrom(usage: seq<Descriptor>, from: nat, d: nat)
    requires CatchesUnknown(usage, d) && from <= d
    ensures FirstDummy(usage, from) == d
    decreases d - from
  {
    if from < d { FirstDummyFrom(usage, from + 1, d); }
  }

  lemma LongResolved(cfg: Settings, name: string, tail: string, d: nat)
    requires PlainNames(cfg.usage) && '=' !in name && Tail(tail) && HandlesLong(cfg, name, d)
    ensures d < |cfg.usage| && Resolve(cfg.usage, LongIndex(cfg, name + tail)) == Some(d)
  {
    if Named(cfg, name, d) {
      LongSelected(cfg, name, tail, d);
    } else {
      NoneSelected(cfg, name, tail);
      FirstDummyFrom(cfg.usage, 0, d);
    }
  }

  lemma ShortResolved(usage: seq<Descriptor>, ch: char, d: nat)
    requires HandlesShort(usage, ch, d)
    ensures d < |usage| && Resolve(usage, FirstShort(usage, ch, 0)) == Some(d)
  {
    if CatchesUnknown(usage, d) { FirstDummyFrom(usage, 0, d); }
  }

  // ---------------------------------------------------------------- long options

  /** Two dashes, or one where that is allowed and the name is known. */
  ghost predicate LongDashes(cfg: Settings, dashes: string, name: string) {
    || dashes == "--"
    || (dashes == "-" && cfg.singleMinus && name != "" && name[0] != '-' && exists d :: Named(cfg, name, d))
  }

  lemma NameEnds(name: string, tail: string, from: nat)
    requires '=' !in name && Tail(tail) && from <= |name|
    ensures NameLength(name + tail, from) == |name|
    decreases |name| - from
  {
    if from < |name| {
      assert (name + tail)[from] == name[from];
      NameEnds(name, tail, from + 1);
    }
  }

  lemma LongIs(cfg: Settings, dashes: string, name: string, tail: string, d: nat, c: Maybe<string>)
    requires PlainNames(cfg.usage) && '=' !in name && Tail(tail) && HandlesLong(cfg, name, d)
    requires LongDashes(cfg, dashes, name) && (name != "" || tail != "")
    ensures d < |cfg.usage| && LongIndex(cfg, name + tail) <= |cfg.usage|
    ensures var p := dashes + (name + tail);
      && StepsOf(cfg)(p, c) == LongStep(cfg, LongIndex(cfg, name + tail), p, name + tail, c)
      && Resolve(cfg.usage, LongIndex(cfg, name + tail)) == Some(d)
  {
    LongResolved(cfg, name, tail, d);
    if dashes == "--" {
      TwoDashes(cfg, name + tail, c);
    } else {
      KnownIndex(cfg, name, tail);
      OneDash(cfg, name + tail, c);
    }
  }

  lemma KnownIndex(cfg: Settings, name: string, tail: string)
    requires PlainNames(cfg.usage) && '=' !in name && Tail(tail) && exists e :: Named(cfg, name, e)
    ensures LongIndex(cfg, name + tail) < |cfg.usage|
  {
    var e :| Named(cfg, name, e);
    LongSelected(cfg, name, tail, e);
  }

  lemma TwoDashes(cfg: Settings, given: string, c: Maybe<string>)
    requires given != ""
    ensures StepsOf(cfg)("--" + given, c) == LongStep(cfg, LongIndex(cfg, given), "--" + given, given, c)
  {
    var p := "--" + given;
    assert p[1] == '-' && IsOption(p) && p[2..] == given;
  }

  lemma OneDash(cfg: Settings, given: string, c: Maybe<string>)
    requires given != "" && given[0] != '-' && cfg.singleMinus && LongIndex(cfg, given) < |cfg.usage|
    ensures StepsOf(cfg)("-" + given, c) == LongStep(cfg, LongIndex(cfg, given), "-" + given, given, c)
  {
    var p := "-" + given;
    assert p[1] == given[0] && IsOption(p) && p[1..] == given;
  }

  /** What a check answered makes of an option that was offered the argument `arg`. */
  function Answered(status: ArgStatus, o: Parsed): Reply {
    match status
    case ArgOk => Accepts(o)
    case ArgIllegal => Rejected
    case _ => Declines(o.(arg := None))
  }

  lemma OfferIs(cfg: Settings, i: nat, d: nat, p: string, arg: Maybe<string>)
    requires i <= |cfg.usage| && Resolve(cfg.usage, i) == Some(d)
    ensures d < |cfg.usage|
    ensures Offer(cfg, i, p, arg) == Answered(cfg.usage[d].checkArg(p, arg, cfg.msg), Parsed(d, p, arg))
  {
  }

  lemma LongStepIs(cfg: Settings, i: nat, p: string, given: string, n: nat, arg: Maybe<string>, c: Maybe<string>)
    requires i <= |cfg.usage| && n == NameLength(given, 0)
    requires arg == if n < |given| then Some(given[n + 1..]) else c
    ensures LongStep(cfg, i, p, given, c) ==
      match Offer(cfg, i, p, arg)
      case Ignored => Done([], false)
      case Rejected => Fatal([])
      case Accepts(o) => Done([o], n == |given| && c.Some?)
      case Declines(o) => Done([o], false)
  {
  }

  /** `--name=value`: the check function of the descriptor is asked about `value`; if it accepts, exactly one
      option is performed, with the argument `value`, and nothing else is taken. */
  lemma LongAttached(cfg: Settings, dashes: string, name: string, value: string, d: nat, c: Maybe<string>)
    requires PlainNames(cfg.usage) && '=' !in name && HandlesLong(cfg, name, d) && LongDashes(cfg, dashes, name)
    ensures d < |cfg.usage|
    ensures var p := dashes + (name + ("=" + value)); var z := StepsOf(cfg)(p, c);
      match cfg.usage[d].checkArg(p, Some(value), cfg.msg)
      case ArgOk => z == Done([Parsed(d, p, Some(value))], false)
      case ArgIllegal => z == Fatal([])
      case ArgNone => z == Done([Parsed(d, p, None)], false)
      case ArgIgnore => z == Done([Parsed(d, p, None)], false)
  {
    var tail := "=" + value;
    LongIs(cfg, dashes, name, tail, d, c);
    NameEnds(name, tail, 0);
    assert (name + tail)[|name| + 1..] == value;
    var i := LongIndex(cfg, name + tail);
    LongStepIs(cfg, i, dashes + (name + tail), name + tail, |name|, Some(value), c);
    OfferIs(cfg, i, d, dashes + (name + tail), Some(value));
  }

  /** `--name`: the check function is asked about the next argument of the vector, which is taken just if it is
      there and accepted. */
  lemma LongDetached(cfg: Settings, dashes: string, name: string, d: nat, c: Maybe<string>)
    requires PlainNames(cfg.usage) && '=' !in name && HandlesLong(cfg, name, d) && LongDashes(cfg, dashes, name)
    requires name != ""
    ensures d < |cfg.usage|
    ensures var p := dashes + name; var z := StepsOf(cfg)(p, c);
      match cfg.usage[d].checkArg(p, c, cfg.msg)
      case ArgOk => z == Done([Parsed(d, p, c)], c.Some?)
      case ArgIllegal => z == Fatal([])
      case ArgNone => z == Done([Parsed(d, p, None)], false)
      case ArgIgnore => z == Done([Parsed(d, p, None)], false)
  {
    LongIs(cfg, dashes, name, "", d, c);
    NameEnds(name, "", 0);
    assert name + "" == name;
    LongStepIs(cfg, LongIndex(cfg, name), dashes + name, name, |name|, c, c);
    OfferIs(cfg, LongIndex(cfg, name), d, dashes + name, c);
  }

  lemma LongUnresolved(cfg: Settings, name: string, tail: string)
    requires PlainNames(cfg.usage) && '=' !in name && Tail(tail) && forall d :: !HandlesLong(cfg, name, d)
    ensures LongIndex(cfg, name + tail) == |cfg.usage| && Resolve(cfg.usage, |cfg.usage|) == None
  {
    forall j ensures !Named(cfg, name, j) { assert !HandlesLong(cfg, name, j); }
    NoneSelected(cfg, name, tail);
    var dummy := FirstDummy(cfg.usage, 0);
    assert !HandlesLong(cfg, name, dummy);
  }

  /** A long option that nobody handles is passed over. */
  lemma LongUnknown(cfg: Settings, name: string, tail: string, c: Maybe<string>)
    requires PlainNames(cfg.usage) && '=' !in name && Tail(tail) && (name != "" || tail != "")
    requires forall d :: !HandlesLong(cfg, name, d)
    ensures StepsOf(cfg)("--" + name + tail, c) == Done([], false)
  {
    var p := "--" + name + tail;
    LongUnresolved(cfg, name, tail);
    assert p[2..] == name + tail && p[1] == '-' && IsOption(p);
  }

  // ---------------------------------------------------------------- short options

  /** The i-th character of a group is passed over: it is handled by nobody, or by a descriptor that does not
      accept the rest of the group as its argument. */
  ghost predicate PassedAt(cfg: Settings, front: string, rest: string, ds: seq<Maybe<nat>>, i: nat)
    requires i < |front| == |ds|
  {
    match ds[i]
    case None => forall d :: !HandlesShort(cfg.usage, front[i], d)
    case Some(d) =>
      && HandlesShort(cfg.usage, front[i], d) && d < |cfg.usage|
      && cfg.usage[d].checkArg(front[i..] + rest, Some(front[i + 1..] + rest), cfg.msg) in {ArgNone, ArgIgnore}
  }

  ghost predicate PassedOver(cfg: Settings, front: string, rest: string, ds: seq<Maybe<nat>>) {
    |ds| == |front| && forall i :: 0 <= i < |front| ==> PassedAt(cfg, front, rest, ds, i)
  }

  /** Those that are handled are performed without an argument; their names go up to the end of the group. */
  function WithoutArgument(front: string, rest: string, ds: seq<Maybe<nat>>): seq<Parsed>
    requires |ds| == |front|
  {
    if front == "" then []
    else
      var more := WithoutArgument(front[1..], rest, ds[1..]);
      if ds[0].Some? then [Parsed(ds[0].value, front + rest, None)] + more else more
  }

  lemma ShortUnknown(usage: seq<Descriptor>, ch: char)
    requires forall d :: !HandlesShort(usage, ch, d)
    ensures Resolve(usage, FirstShort(usage, ch, 0)) == None
  {
    var i, dummy := FirstShort(usage, ch, 0), FirstDummy(usage, 0);
    assert !HandlesShort(usage, ch, i) && !HandlesShort(usage, ch, dummy);
  }

  lemma PassedTail(cfg: Settings, front: string, rest: string, ds: seq<Maybe<nat>>)
    requires PassedOver(cfg, front, rest, ds) && front != ""
    ensures PassedOver(cfg, front[1..], rest, ds[1..])
  {
    var more := front[1..];
    forall i | 0 <= i < |more|
      ensures PassedAt(cfg, more, rest, ds[1..], i)
    {
      assert PassedAt(cfg, front, rest, ds, i + 1);
      assert more[i] == front[i + 1] && more[i..] == front[i + 1..] && more[i + 1..] == front[i + 1 + 1..];
    }
  }

  function PrependSeq(done: seq<Parsed>, s: Step): Step {
    match s
    case Fatal(ev) => Fatal(done + ev)
    case Done(ev, c) => Done(done + ev, c)
  }

  lemma NextChar(p: string, pos: nat, front: string, rest: string)
    requires pos <= |p| && p[pos..] == front + rest && front != ""
    ensures pos < |p| && p[pos] == front[0] && p[pos + 1..] == front[1..] + rest
  {
    assert p[pos] == p[pos..][0] && p[pos + 1..] == p[pos..][1..];
  }

  lemma OneOver(cfg: Settings, p: string, pos: nat, c: Maybe<string>, front: string, rest: string, ds: seq<Maybe<nat>>)
    requires pos < |p| && p[pos..] == front + rest && front != "" && rest != "" && |ds| == |front|
    requires PassedAt(cfg, front, rest, ds, 0)
    ensures ShortStep(cfg, p, pos, c) ==
      PrependSeq(if ds[0].Some? then [Parsed(ds[0].value, front + rest, None)] else [], ShortStep(cfg, p, pos + 1, c))
  {
    NextChar(p, pos, front, rest);
    assert front[0..] == front;
    var s := ShortStep(cfg, p, pos + 1, c);
    assert [] + s.events == s.events;
    if ds[0].Some? { ShortResolved(cfg.usage, front[0], ds[0].value); } else { ShortUnknown(cfg.usage, front[0]); }
  }

  lemma PrependTwice(x: Step, first: seq<Parsed>, y: Step, more: seq<Parsed>, z: Step)
    requires x == PrependSeq(first, y) && y == PrependSeq(more, z)
    ensures x == PrependSeq(first + more, z)
  {
    assert first + (more + z.events) == first + more + z.events;
  }

  lemma FirstWithout(front: string, rest: string, ds: seq<Maybe<nat>>, first: seq<Parsed>)
    requires |ds| == |front| > 0
    requires first == if ds[0].Some? then [Parsed(ds[0].value, front + rest, None)] else []
    ensures WithoutArgument(front, rest, ds) == first + WithoutArgument(front[1..], rest, ds[1..])
  {
  }

  lemma {:induction false} GroupGoesOn(cfg: Settings, p: string, pos: nat, front: string, rest: string,
                                       ds: seq<Maybe<nat>>, c: Maybe<string>)
    requires pos <= |p| && p[pos..] == front + rest && rest != "" && PassedOver(cfg, front, rest, ds)
    ensures ShortStep(cfg, p, pos, c) ==
      PrependSeq(WithoutArgument(front, rest, ds), ShortStep(cfg, p, pos + |front|, c))
    decreases |front|
  {
    var s := ShortStep(cfg, p, pos + |front|, c);
    if front == "" {
      assert [] + s.events == s.events;
    } else {
      var first := if ds[0].Some? then [Parsed(ds[0].value, front + rest, None)] else [];
      OneOver(cfg, p, pos, c, front, rest, ds);
      PassedTail(cfg, front, rest, ds);
      NextChar(p, pos, front, rest);
      GroupGoesOn(cfg, p, pos + 1, front[1..], rest, ds[1..], c);
      PrependTwice(ShortStep(cfg, p, pos, c), first, ShortStep(cfg, p, pos + 1, c),
                   WithoutArgument(front[1..], rest, ds[1..]), s);
      FirstWithout(front, rest, ds, first);
    }
  }

  /** One dash, not taken for a long option. */
  ghost predicate ShortDash(cfg: Settings, group: string) {
    group != "" && group[0] != '-' && (cfg.singleMinus ==> LongIndex(cfg, group) == |cfg.usage|)
  }

  lemma GroupIs(cfg: Settings, front: string, rest: string, ds: seq<Maybe<nat>>, c: Maybe<string>)
    requires ShortDash(cfg, front + rest) && rest != "" && PassedOver(cfg, front, rest, ds)
    ensures var p := "-" + (front + rest);
      && p[1 + |front|..] == rest
      && StepsOf(cfg)(p, c) == PrependSeq(WithoutArgument(front, rest, ds), ShortStep(cfg, p, 1 + |front|, c))
  {
    var p := "-" + (front + rest);
    assert p[1..] == front + rest && p[1] == (front + rest)[0] && IsOption(p);
    GroupGoesOn(cfg, p, 1, front, rest, ds, c);
  }

  /** `-xvalue`, possibly behind characters that are passed over: the check function of x is asked about the
      text behind it; if it accepts, that is the argument, and the group ends. */
  lemma ShortAttached(cfg: Settings, front: string, ds: seq<Maybe<nat>>, ch: char, value: string, d: nat,
                      c: Maybe<string>)
    requires value != "" && ShortDash(cfg, front + ([ch] + value)) && PassedOver(cfg, front, [ch] + value, ds)
    requires HandlesShort(cfg.usage, ch, d)
    ensures d < |cfg.usage|
    ensures var z := StepsOf(cfg)("-" + (front + ([ch] + value)), c);
      var before := WithoutArgument(front, [ch] + value, ds);
      match cfg.usage[d].checkArg([ch] + value, Some(value), cfg.msg)
      case ArgOk => z == Done(before + [Parsed(d, [ch] + value, Some(value))], false)
      case ArgIllegal => z == Fatal(before)
      case _ => before + [Parsed(d, [ch] + value, None)] <= z.events
  {
    var rest := [ch] + value;
    var p, pos := "-" + (front + rest), 1 + |front|;
    GroupIs(cfg, front, rest, ds, c);
    ShortStepIs(cfg, p, pos, ch, value, d, c);
    EndOfGroup(WithoutArgument(front, rest, ds), Parsed(d, rest, None), ShortStep(cfg, p, pos + 1, c));
  }

  /** One character of a group that is handled by descriptor `d`. */
  lemma ShortStepIs(cfg: Settings, p: string, pos: nat, ch: char, value: string, d: nat, c: Maybe<string>)
    requires pos <= |p| && p[pos..] == [ch] + value && HandlesShort(cfg.usage, ch, d)
    ensures d < |cfg.usage|
    ensures var arg := if value == "" then c else Some(value);
      var more := if value == "" then Done([], false) else ShortStep(cfg, p, pos + 1, c);
      ShortStep(cfg, p, pos, c) ==
        match Answered(cfg.usage[d].checkArg([ch] + value, arg, cfg.msg), Parsed(d, [ch] + value, arg))
        case Ignored => more
        case Rejected => Fatal([])
        case Accepts(o) => Done([o], value == "" && c.Some?)
        case Declines(o) => Prepend(o, more)
  {
    CharAndRest(p, pos, ch, value);
    ShortResolved(cfg.usage, ch, d);
    assert value == "" <==> pos + 1 == |p|;
    OfferIs(cfg, FirstShort(cfg.usage, ch, 0), d, [ch] + value, if value == "" then c else Some(value));
  }

  lemma CharAndRest(p: string, pos: nat, ch: char, value: string)
    requires pos <= |p| && p[pos..] == [ch] + value
    ensures pos < |p| && p[pos] == ch && p[pos + 1..] == value
  {
    assert p[pos] == p[pos..][0] && p[pos + 1..] == p[pos..][1..];
  }

  lemma EndOfGroup(before: seq<Parsed>, e: Parsed, s: Step)
    ensures before + [] == before && before + [e] <= PrependSeq(before, Prepend(e, s)).events
  {
    assert before + ([e] + s.events) == before + [e] + s.events;
  }

  /** `-x` at the end of a group: the check function is asked about the next argument of the vector, which is
      taken just if it is there and accepted. */
  lemma ShortDetached(cfg: Settings, front: string, ds: seq<Maybe<nat>>, ch: char, d: nat, c: Maybe<string>)
    requires ShortDash(cfg, front + [ch]) && PassedOver(cfg, front, [ch], ds) && HandlesShort(cfg.usage, ch, d)
    ensures d < |cfg.usage|
    ensures var z := StepsOf(cfg)("-" + (front + [ch]), c); var before := WithoutArgument(front, [ch], ds);
      match cfg.usage[d].checkArg([ch], c, cfg.msg)
      case ArgOk => z == Done(before + [Parsed(d, [ch], c)], c.Some?)
      case ArgIllegal => z == Fatal(before)
      case _ => z == Done(before + [Parsed(d, [ch], None)], false)
  {
    var p, pos := "-" + (front + [ch]), 1 + |front|;
    GroupIs(cfg, front, [ch], ds, c);
    assert [ch] + "" == [ch];
    ShortStepIs(cfg, p, pos, ch, "", d, c);
    var before := WithoutArgument(front, [ch], ds);
    assert before + [] == before;
  }

  // ---------------------------------------------------------------- in a vector

  /** Words are passed over with gnu, and end the scan without; the terminator always ends it. */
  lemma WordsAndTerminator(step: Stepper, gnu: bool, p: string, t: seq<string>)
    requires p == "" || p == "-" || p[0] != '-' || p == "--"
    ensures var r, z := ScanArgs(step, gnu, t), ScanArgs(step, gnu, [p] + t);
      z == if p == "--" then Scan([], ["--"], [], t, false)
           else if gnu then Scan(r.events, r.opts, [p] + r.words, r.rest, r.fatal)
           else Scan([], [], [], [p] + t, false)
  {
    assert ([p] + t)[1..] == t;
  }

  /** `--name=value` as the next argument of a vector. */
  lemma AttachedInVector(cfg: Settings, gnu: bool, name: string, value: string, d: nat, t: seq<string>)
    requires PlainNames(cfg.usage) && '=' !in name && HandlesLong(cfg, name, d) && d < |cfg.usage|
    requires cfg.usage[d].checkArg("--" + (name + ("=" + value)), Some(value), cfg.msg) == ArgOk
    ensures var p := "--" + (name + ("=" + value)); var r := ScanArgs(StepsOf(cfg), gnu, t);
      ScanArgs(StepsOf(cfg), gnu, [p] + t) ==
        Scan([Parsed(d, p, Some(value))] + r.events, [p] + r.opts, r.words, r.rest, r.fatal)
  {
    var p := "--" + (name + ("=" + value));
    LongAttached(cfg, "--", name, value, d, Candidate([p] + t));
    OneAlone(StepsOf(cfg), gnu, p, t, [Parsed(d, p, Some(value))]);
  }

  /** `--name value` as the next two arguments. */
  lemma DetachedInVector(cfg: Settings, gnu: bool, name: string, value: string, d: nat, t: seq<string>)
    requires PlainNames(cfg.usage) && '=' !in name && name != "" && HandlesLong(cfg, name, d) && d < |cfg.usage|
    requires cfg.usage[d].checkArg("--" + name, Some(value), cfg.msg) == ArgOk
    ensures var p := "--" + name; var r := ScanArgs(StepsOf(cfg), gnu, t);
      ScanArgs(StepsOf(cfg), gnu, [p, value] + t) ==
        Scan([Parsed(d, p, Some(value))] + r.events, [p, value] + r.opts, r.words, r.rest, r.fatal)
  {
    LongDetached(cfg, "--", name, d, Some(value));
    TwoTogether(StepsOf(cfg), gnu, "--" + name, value, t, [Parsed(d, "--" + name, Some(value))]);
  }

  /** `-xvalue` as the next argument. */
  lemma ShortAttachedInVector(cfg: Settings, gnu: bool, ch: char, value: string, d: nat, t: seq<string>)
    requires value != "" && ShortDash(cfg, [ch] + value) && HandlesShort(cfg.usage, ch, d) && d < |cfg.usage|
    requires cfg.usage[d].checkArg([ch] + value, Some(value), cfg.msg) == ArgOk
    ensures var p := "-" + ([ch] + value); var r := ScanArgs(StepsOf(cfg), gnu, t);
      ScanArgs(StepsOf(cfg), gnu, [p] + t) ==
        Scan([Parsed(d, [ch] + value, Some(value))] + r.events, [p] + r.opts, r.words, r.rest, r.fatal)
  {
    var p, e := "-" + ([ch] + value), Parsed(d, [ch] + value, Some(value));
    assert "" + ([ch] + value) == [ch] + value && [] + [e] == [e];
    ShortAttached(cfg, "", [], ch, value, d, Candidate([p] + t));
    OneAlone(StepsOf(cfg), gnu, p, t, [e]);
  }

  /** `-x value` as the next two arguments. */
  lemma ShortDetachedInVector(cfg: Settings, gnu: bool, ch: char, value: string, d: nat, t: seq<string>)
    requires ShortDash(cfg, [ch]) && HandlesShort(cfg.usage, ch, d) && d < |cfg.usage|
    requires cfg.usage[d].checkArg([ch], Some(value), cfg.msg) == ArgOk
    ensures var p := "-" + [ch]; var r := ScanArgs(StepsOf(cfg), gnu, t);
      ScanArgs(StepsOf(cfg), gnu, [p, value] + t) ==
        Scan([Parsed(d, [ch], Some(value))] + r.events, [p, value] + r.opts, r.words, r.rest, r.fatal)
  {
    var e := Parsed(d, [ch], Some(value));
    assert "" + [ch] == [ch] && [] + [e] == [e];
    ShortDetached(cfg, "", [], ch, d, Some(value));
    TwoTogether(StepsOf(cfg), gnu, "-" + [ch], value, t, [e]);
  }

  lemma OneAlone(step: Stepper, gnu: bool, p: string, t: seq<string>, ev: seq<Parsed>)
    requires |p| > 1 && p[0] == '-' && p != "--" && step(p, Candidate([p] + t)) == Done(ev, false)
    ensures var r := ScanArgs(step, gnu, t);
      ScanArgs(step, gnu, [p] + t) == Scan(ev + r.events, [p] + r.opts, r.words, r.rest, r.fatal)
  {
    assert ([p] + t)[1..] == t && ([p] + t)[..1] == [p];
  }

  lemma TwoTogether(step: Stepper, gnu: bool, p: string, value: string, t: seq<string>, ev: seq<Parsed>)
    requires |p| > 1 && p[0] == '-' && p != "--" && step(p, Some(value)) == Done(ev, true)
    ensures var r := ScanArgs(step, gnu, t);
      ScanArgs(step, gnu, [p, value] + t) == Scan(ev + r.events, [p, value] + r.opts, r.words, r.rest, r.fatal)
  {
    var a := [p, value] + t;
    assert Candidate(a) == Some(value) && a[2..] == t && a[..2] == [p, value];
  }
}
