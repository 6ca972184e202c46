/**
 What the parser does with one option argument: string comparison, table lookup, the check
 function, and the action - counting or storing - that is told about every option.
 */
module OptionSteps {
  import opened Bolts
  import opened Maybes
  import opened OptionScan
  import opened OptionStore

  // ---------------------------------------------------------------- string primitives

  /** `st1` is a prefix of `st2`, which continues, if at all, with '='. */
  method Streq(st1: string, st2: string) returns (r: bool)
    ensures r == Spells(st1, st2)
  {
    var i := 0;
    while i < |st1|
      invariant i <= |st1| && i <= |st2| && st1[..i] == st2[..i]
    {
      if i == |st2| || st1[i] != st2[i] {
        return false;
      }
      i := i + 1;
    }
    assert st1[..i] == st1;
    return i == |st2| || st2[i] == '=';
  }

  method StreqAbbr(st1: string, st2: string, min: int) returns (r: bool)
    ensures r == Abbreviates(st1, st2, min)
  {
    var i := 0;
    while i < |st1| && i < |st2| && st1[i] == st2[i]
      invariant i <= |st1| && i <= |st2| && st1[..i] == st2[..i]
    {
      i := i + 1;
    }
    return (i == |st1| || (min > 0 && i >= min)) && (i == |st2| || st2[i] == '=');
  }

  method Instr(ch: char, st: string) returns (r: bool)
    ensures r == (ch in st)
  {
    var i := 0;
    while i < |st| && st[i] != ch
      invariant i <= |st| && ch !in st[..i]
    {
      i := i + 1;
    }
    return i < |st|;
  }

  // ---------------------------------------------------------------- table lookups

  method FindLong(cfg: Settings, given: string) returns (idx: nat)
    ensures idx == LongIndex(cfg, given)
  {
    var usage := cfg.usage;
    idx := 0;
    while idx < |usage|
      invariant idx <= |usage| && FirstLong(usage, given, 0) == FirstLong(usage, given, idx)
    {
      var hit := Streq(usage[idx].longopt, given);
      if hit { break; }
      idx := idx + 1;
    }
    if idx == |usage| && cfg.minAbbr > 0 {
      var i1 := 0;
      while i1 < |usage|
        invariant i1 <= |usage|
        invariant FirstAbbr(usage, given, cfg.minAbbr, 0) == FirstAbbr(usage, given, cfg.minAbbr, i1)
      {
        var hit := StreqAbbr(usage[i1].longopt, given, cfg.minAbbr);
        if hit { break; }
        i1 := i1 + 1;
      }
      if i1 < |usage| {
        var i2 := i1 + 1;
        while i2 < |usage|
          invariant i1 < i2 <= |usage|
          invariant FirstAbbr(usage, given, cfg.minAbbr, i1 + 1) == FirstAbbr(usage, given, cfg.minAbbr, i2)
        {
          var hit := StreqAbbr(usage[i2].longopt, given, cfg.minAbbr);
          if hit { break; }
          i2 := i2 + 1;
        }
        if i2 == |usage| {
          idx := i1;
        }
      }
    }
  }

  method FindShort(usage: seq<Descriptor>, ch: char) returns (idx: nat)
    ensures idx == FirstShort(usage, ch, 0)
  {
    idx := 0;
    while idx < |usage|
      invariant idx <= |usage| && FirstShort(usage, ch, 0) == FirstShort(usage, ch, idx)
    {
      var hit := Instr(ch, usage[idx].shortopt);
      if hit { break; }
      idx := idx + 1;
    }
  }

  /** The descriptor for a lookup result: the entry itself, or the first dummy for unknown options. */
  method FindDescriptor(usage: seq<Descriptor>, i: nat) returns (d: Maybe<nat>)
    requires i <= |usage|
    ensures d == Resolve(usage, i)
  {
    if i < |usage| { return Some(i); }
    var idx := 0;
    while idx < |usage| && (usage[idx].shortopt != "" || usage[idx].longopt != "")
      invariant idx <= |usage| && FirstDummy(usage, 0) == FirstDummy(usage, idx)
    {
      idx := idx + 1;
    }
    d := if idx < |usage| then Some(idx) else None;
  }

  method FindArgument(given: string) returns (n: nat)
    ensures n == NameLength(given, 0)
  {
    n := 0;
    while n < |given| && given[n] != '='
      invariant n <= |given| && NameLength(given, 0) == NameLength(given, n)
    {
      n := n + 1;
    }
  }

  // ---------------------------------------------------------------- actions

  /** How many of `n` further options are accepted when there is room for `room`. */
  function Accepted(room: Maybe<nat>, n: nat): nat {
    if room.Some? && room.value < n then room.value else n
  }

  function Less(room: Maybe<nat>, n: nat): Maybe<nat>
    requires Accepted(room, n) == n
  {
    if room == None then None else Some(room.value - n)
  }

  /** The memory cell the counting action increments; it starts at one for the sentinel. */
  class Counter {
    var bufferMax: nat
    ghost var counted: seq<Parsed>

    constructor ()
      ensures bufferMax == 1 && counted == []
    {
      bufferMax, counted := 1, [];
    }

    ghost predicate Valid()
      reads this
    {
      bufferMax == 1 + |counted| && bufferMax <= INT_MAX
    }

    /** The counting action's `perform`. */
    method Count(o: Parsed) returns (ok: bool)
      requires Valid()
      modifies this
      ensures Valid() && ok == (old(bufferMax) < 0x7fffffff)
      ensures bufferMax == old(bufferMax) + (if ok then 1 else 0)
      ensures counted == old(counted) + (if ok then [o] else [])
    {
      if bufferMax == INT_MAX {
        return false;
      }
      bufferMax := bufferMax + 1;
      counted := counted + [o];
      ok := true;
    }
  }

  class Stats {
    const counter: Counter
    var optionsMax: nat

    constructor ()
      ensures fresh(counter) && counter.bufferMax == 1 && counter.counted == [] && optionsMax == 1
    {
      counter := new Counter();
      optionsMax := 1;
    }

    /** The options array needs one slot for each index and one sentinel. */
    method SizeOptions(usage: seq<Descriptor>)
      modifies this
      ensures forall i :: 0 <= i < |usage| ==> usage[i].index + 1 < optionsMax
      ensures optionsMax == old(optionsMax) || exists i :: 0 <= i < |usage| && optionsMax == usage[i].index + 2
      ensures old(optionsMax) <= optionsMax
    {
      var i := 0;
      while i < |usage|
        invariant i <= |usage|
        invariant old(optionsMax) <= optionsMax
        invariant forall j :: 0 <= j < i ==> usage[j].index + 1 < optionsMax
        invariant optionsMax == old(optionsMax) || exists j :: 0 <= j < i && optionsMax == usage[j].index + 2
      {
        if usage[i].index + 1 >= optionsMax {
          optionsMax := usage[i].index + 1 + 1;
        }
        i := i + 1;
      }
    }
  }

  /** The two actions a pass can be run with. */
  datatype Action = Counting(counter: Counter) | Storing(store: StoreAction) {

    ghost function Frame(): set<object> {
      match this
      case Counting(counter) => {counter}
      case Storing(store) => store.frame
    }

    ghost function Self(): object {
      match this
      case Counting(counter) => counter
      case Storing(store) => store
    }

    ghost function Arrays(): set<object> {
      match this
      case Counting(_) => {}
      case Storing(store) => {store.options, store.buffer}
    }

    /** The state is consistent (see Bolts; here the guard is the key itself, so that a proof that the
        state is still consistent in a later heap may look into what it was before). */
    ghost predicate Valid(usage: seq<Descriptor>)
      reads Frame(), Arrays()
    {
      forall k {:trigger Key(k)} :: Key(k) ==> Consistent(usage)
    }

    ghost predicate Consistent(usage: seq<Descriptor>)
      reads Frame(), Arrays()
    {
      match this
      case Counting(counter) => counter.Valid()
      case Storing(store) =>
        && store.InFrame() && store.Valid() && store.usage == usage
        && forall i :: 0 <= i < |usage| ==> usage[i].index < store.options.Length
    }

    ghost function Performed(): seq<Parsed>
      reads Self()
    {
      match this
      case Counting(counter) => counter.counted
      case Storing(store) => store.performed
    }

    ghost function Room(): Maybe<nat>
      reads Self()
    {
      match this
      case Counting(counter) => Some(if counter.bufferMax <= INT_MAX then INT_MAX - counter.bufferMax else 0)
      case Storing(store) => store.Room()
    }

    /** `n` more options can be performed without a write outside the arrays. */
    ghost predicate SafeFor(n: nat)
      reads Self()
    {
      Storing? ==> store.SafeFor(n)
    }

    ghost function Nonops(): Maybe<(nat, nat)>
      reads Self()
    {
      match this
      case Counting(_) => None
      case Storing(store) => store.nonops
    }

    method Perform(o: Parsed, usage: seq<Descriptor>, ghost n: nat) returns (ok: bool)
      requires Valid(usage) && SafeFor(n) && 1 <= n && o.desc < |usage|
      modifies Frame()
      ensures Valid(usage) && Nonops() == old(Nonops())
      ensures ok == (Accepted(old(Room()), 1) == 1)
      ensures Performed() == old(Performed()) + (if ok then [o] else [])
      ensures ok ==> Room() == Less(old(Room()), 1) && SafeFor(n - 1)
    {
      assert Key(0);
      match this {
        case Counting(counter) =>
          ok := counter.Count(o);
        case Storing(store) =>
          assert [o][0] == o;
          ok := store.Perform(o, n);
      }
    }

    method Finished(n: nat, at: nat, usage: seq<Descriptor>)
      requires Valid(usage)
      modifies Frame()
      ensures Valid(usage) && Performed() == old(Performed()) && Room() == old(Room())
      ensures Storing? ==> Nonops() == if n > 0 then Some((n, at)) else old(Nonops())
    {
      assert Key(0);
      if Storing? && n > 0 {
        store.nonops := Some((n, at));
      }
    }
  }

  // ---------------------------------------------------------------- one option argument

  function PrependAll(done: seq<Parsed>, s: Step): Step {
    match s
    case Fatal(ev) => Fatal(done + ev)
    case Done(ev, c) => Done(done + ev, c)
  }

  datatype Exit = Completed | CheckFailed | Refused

  /** What the action has seen after a step: all its options, or as many as it had room for. */
  ghost predicate Performs(before: seq<Parsed>, after: seq<Parsed>, room: Maybe<nat>, ev: seq<Parsed>) {
    after == before + ev[..Accepted(room, |ev|)]
  }

  /** Looks up the descriptor, asks its check function, and performs the option unless the check
      is fatal. */
  method OfferOption(cfg: Settings, i: nat, name: string, optarg: Maybe<string>, action: Action, ghost n: nat)
    returns (reply: Reply, ok: bool)
    requires i <= |cfg.usage| && action.Valid(cfg.usage) && action.SafeFor(n)
    requires var r := Offer(cfg, i, name, optarg); r.Accepts? || r.Declines? ==> 1 <= n
    modifies action.Frame()
    ensures action.Valid(cfg.usage) && action.Nonops() == old(action.Nonops())
    ensures reply == Offer(cfg, i, name, optarg)
    ensures ok == (reply.Accepts? || reply.Declines? ==> Accepted(old(action.Room()), 1) == 1)
    ensures var ev := if ok && (reply.Accepts? || reply.Declines?) then [reply.o] else [];
      && action.Performed() == old(action.Performed()) + ev
      && (ok ==> action.Room() == Less(old(action.Room()), |ev|) && action.SafeFor(n - |ev|))
  {
    reply, ok := Ignored, true;
    var descriptor := FindDescriptor(cfg.usage, i);
    if descriptor.Some? {
      var d := descriptor.value;
      match cfg.usage[d].checkArg(name, optarg, cfg.msg) {
        case ArgIllegal =>
          reply := Rejected;
          return;
        case ArgOk =>
          reply := Accepts(Parsed(d, name, optarg));
        case _ =>
          reply := Declines(Parsed(d, name, None));
      }
      ok := action.Perform(reply.o, cfg.usage, n);
    }
  }

  /** The effect of an argument whose full result is `s`: all its options are performed, or as
      many as there is room for. */
  ghost predicate Effect(s: Step, before: seq<Parsed>, after: seq<Parsed>, room: Maybe<nat>, roomAfter: Maybe<nat>,
                         exit: Exit, consumed: bool) {
    && Performs(before, after, room, s.events)
    && (exit == Refused <==> Accepted(room, |s.events|) < |s.events|)
    && (exit == CheckFailed ==> s.Fatal?)
    && (exit == Completed ==> s.Done? && consumed == s.consumed)
    && (exit != Refused ==> roomAfter == Less(room, |s.events|))
  }

  method LongParam(cfg: Settings, i: nat, param: string, given: string, cand: Maybe<string>, action: Action,
                   ghost n: nat, ghost s: Step)
    returns (exit: Exit, consumed: bool)
    requires i <= |cfg.usage| && s == LongStep(cfg, i, param, given, cand)
    requires action.Valid(cfg.usage) && action.SafeFor(n) && |s.events| <= n
    modifies action.Frame()
    ensures action.Valid(cfg.usage) && action.Nonops() == old(action.Nonops())
    ensures
      && Effect(s, old(action.Performed()), action.Performed(), old(action.Room()), action.Room(), exit, consumed)
      && (exit != Refused ==> action.SafeFor(n - |s.events|))
    ensures consumed ==> cand.Some?
  {
    var eq := FindArgument(given);
    var optarg := if eq < |given| then Some(given[eq + 1..]) else cand;
    var reply, ok := OfferOption(cfg, i, param, optarg, action, n);
    consumed := reply.Accepts? && eq == |given| && optarg.Some?;
    exit := if reply == Rejected then CheckFailed else if ok then Completed else Refused;
  }

  /** `done` has been performed since the start, and nothing else. */
  ghost predicate Ahead(before: seq<Parsed>, now: seq<Parsed>, room: Maybe<nat>, roomNow: Maybe<nat>, done: seq<Parsed>)
  {
    && now == before + done
    && Accepted(room, |done|) == |done|
    && roomNow == Less(room, |done|)
  }

  lemma OneFurther(before: seq<Parsed>, now: seq<Parsed>, room: Maybe<nat>, roomNow: Maybe<nat>, done: seq<Parsed>,
                   o: Parsed)
    requires Ahead(before, now, room, roomNow, done) && Accepted(roomNow, 1) == 1
    ensures Ahead(before, now + [o], room, Less(roomNow, 1), done + [o])
  {
  }

  lemma AllDone(before: seq<Parsed>, now: seq<Parsed>, room: Maybe<nat>, roomNow: Maybe<nat>, s: Step, consumed: bool)
    requires Ahead(before, now, room, roomNow, s.events) && (s.Done? ==> s.consumed == consumed)
    ensures Effect(s, before, now, room, roomNow, if s.Done? then Completed else CheckFailed, consumed)
  {
    assert s.events[..|s.events|] == s.events;
  }

  lemma RanOut(before: seq<Parsed>, now: seq<Parsed>, room: Maybe<nat>, roomNow: Maybe<nat>, s: Step,
               done: seq<Parsed>, consumed: bool)
    requires Ahead(before, now, room, roomNow, done) && Accepted(roomNow, 1) == 0
    requires |done| < |s.events| && done == s.events[..|done|]
    ensures Effect(s, before, now, room, roomNow, Refused, consumed)
  {
  }

  /** How one character of a group contributes to the result `s` of the whole argument. */
  lemma GroupStep(cfg: Settings, param: string, pos: nat, cand: Maybe<string>, s: Step, done: seq<Parsed>)
    requires pos < |param| && s == PrependAll(done, ShortStep(cfg, param, pos, cand))
    ensures var detached := pos + 1 == |param|;
      var optarg := if detached then cand else Some(param[pos + 1..]);
      match Offer(cfg, FirstShort(cfg.usage, param[pos], 0), param[pos..], optarg)
      case Ignored => s == PrependAll(done, ShortStep(cfg, param, pos + 1, cand))
      case Rejected => s == Fatal(done)
      case Accepts(o) => s == Done(done + [o], detached && optarg.Some?)
      case Declines(o) =>
        && s == PrependAll(done + [o], ShortStep(cfg, param, pos + 1, cand))
        && |done| < |s.events| && done == s.events[..|done|]
  {
    var rest := ShortStep(cfg, param, pos + 1, cand);
    assert done + [] == done;
    assert forall o: Parsed :: done + ([o] + rest.events) == (done + [o]) + rest.events;
  }

  /** The state inside a short option group: `done` has been performed, the characters from `pos`
      on are still to come (see Bolts). */
  ghost predicate InGroup(cfg: Settings, param: string, pos: nat, cand: Maybe<string>, s: Step, done: seq<Parsed>,
                          before: seq<Parsed>, now: seq<Parsed>, room: Maybe<nat>, roomNow: Maybe<nat>) {
    forall k {:trigger Key(k)} :: Bolt(k) ==>
      && s == PrependAll(done, ShortStep(cfg, param, pos, cand))
      && Ahead(before, now, room, roomNow, done)
  }

  function Remaining(s: Step, done: seq<Parsed>): nat {
    if |done| <= |s.events| then |s.events| - |done| else 0
  }

  /** What one character of a group leaves to do. */
  datatype CharResult = GoesOn(done: seq<Parsed>) | GroupExit(exit: Exit, consumed: bool)

  ghost function AfterChar(reply: Reply, ok: bool, takes: bool, done: seq<Parsed>): CharResult {
    if !ok then GroupExit(Refused, false) else
      match reply
      case Ignored => GoesOn(done)
      case Rejected => GroupExit(CheckFailed, false)
      case Accepts(_) => GroupExit(Completed, takes)
      case Declines(o) => GoesOn(done + [o])
  }

  /** The effect of one character, given what its offer did to the action. */
  lemma CharEffect(cfg: Settings, param: string, pos: nat, cand: Maybe<string>, s: Step, done: seq<Parsed>,
                   before: seq<Parsed>, now: seq<Parsed>, after: seq<Parsed>, room: Maybe<nat>, roomNow: Maybe<nat>,
                   roomAfter: Maybe<nat>, reply: Reply, ok: bool)
    requires pos < |param| && InGroup(cfg, param, pos, cand, s, done, before, now, room, roomNow)
    requires var optarg := if pos + 1 == |param| then cand else Some(param[pos + 1..]);
      reply == Offer(cfg, FirstShort(cfg.usage, param[pos], 0), param[pos..], optarg)
    requires var performed := reply.Accepts? || reply.Declines?;
      && ok == (performed ==> Accepted(roomNow, 1) == 1)
      && var ev := if ok && performed then [reply.o] else [];
      && after == now + ev && (ok ==> roomAfter == Less(roomNow, |ev|))
    ensures var optarg := if pos + 1 == |param| then cand else Some(param[pos + 1..]);
      match AfterChar(reply, ok, pos + 1 == |param| && optarg.Some?, done)
      case GoesOn(done') =>
        && InGroup(cfg, param, pos + 1, cand, s, done', before, after, room, roomAfter)
        && Remaining(s, done') == Remaining(s, done) - if reply.Declines? then 1 else 0
      case GroupExit(exit, consumed) =>
        && Effect(s, before, after, room, roomAfter, exit, consumed)
        && (exit != Refused ==> Remaining(s, done) == if reply.Accepts? then 1 else 0)
  {
    assert Key(0);
    GroupStep(cfg, param, pos, cand, s, done);
    if !ok {
      assert now + [] == now;
      RanOut(before, now, room, roomNow, s, done, false);
    } else {
      match reply {
        case Ignored =>
          assert now + [] == now;
        case Rejected =>
          assert now + [] == now;
          AllDone(before, now, room, roomNow, s, false);
        case Accepts(o) =>
          OneFurther(before, now, room, roomNow, done, o);
          AllDone(before, after, room, roomAfter, s, s.consumed);
        case Declines(o) =>
          OneFurther(before, now, room, roomNow, done, o);
      }
    }
  }

  /** At least one more option is to come when a character's offer performs one. */
  lemma CharNeedsOne(cfg: Settings, param: string, pos: nat, cand: Maybe<string>, s: Step, done: seq<Parsed>,
                     before: seq<Parsed>, now: seq<Parsed>, room: Maybe<nat>, roomNow: Maybe<nat>)
    requires pos < |param| && InGroup(cfg, param, pos, cand, s, done, before, now, room, roomNow)
    ensures var optarg := if pos + 1 == |param| then cand else Some(param[pos + 1..]);
      var reply := Offer(cfg, FirstShort(cfg.usage, param[pos], 0), param[pos..], optarg);
      reply.Accepts? || reply.Declines? ==> 1 <= Remaining(s, done)
  {
    assert Key(0);
    GroupStep(cfg, param, pos, cand, s, done);
  }

  /** One character of a short option group; a character that declines its candidate lets the
      group go on. */
  method ShortChar(cfg: Settings, param: string, pos: nat, cand: Maybe<string>, action: Action, ghost n: nat,
                   ghost s: Step, ghost done: seq<Parsed>, ghost before: seq<Parsed>, ghost room: Maybe<nat>)
    returns (goOn: bool, exit: Exit, consumed: bool, ghost done': seq<Parsed>)
    requires pos < |param| && InGroup(cfg, param, pos, cand, s, done, before, action.Performed(), room, action.Room())
    requires action.Valid(cfg.usage) && action.SafeFor(n + Remaining(s, done))
    modifies action.Frame()
    ensures action.Valid(cfg.usage) && action.Nonops() == old(action.Nonops())
    ensures goOn ==>
      && InGroup(cfg, param, pos + 1, cand, s, done', before, action.Performed(), room, action.Room())
      && action.SafeFor(n + Remaining(s, done'))
    ensures !goOn ==> Effect(s, before, action.Performed(), room, action.Room(), exit, consumed)
    ensures !goOn && exit != Refused ==> action.SafeFor(n)
    ensures consumed ==> cand.Some?
  {
    ghost var now, roomNow := action.Performed(), action.Room();
    var idx := FindShort(cfg.usage, param[pos]);
    var detached := pos + 1 == |param|;
    var optarg := if detached then cand else Some(param[pos + 1..]);
    CharNeedsOne(cfg, param, pos, cand, s, done, before, now, room, roomNow);
    var reply, ok := OfferOption(cfg, idx, param[pos..], optarg, action, n + Remaining(s, done));
    CharEffect(cfg, param, pos, cand, s, done, before, now, action.Performed(), room, roomNow, action.Room(), reply,
               ok);
    goOn := ok && (reply.Ignored? || reply.Declines?);
    done' := if ok && reply.Declines? then done + [reply.o] else done;
    exit := if !ok then Refused else if reply.Rejected? then CheckFailed else Completed;
    consumed := ok && reply.Accepts? && detached && optarg.Some?;
  }

  lemma GroupBegins(cfg: Settings, param: string, cand: Maybe<string>, s: Step, before: seq<Parsed>, room: Maybe<nat>)
    requires s == ShortStep(cfg, param, 1, cand)
    ensures InGroup(cfg, param, 1, cand, s, [], before, before, room, room)
  {
    assert [] + s.events == s.events && before + [] == before;
    assert PrependAll([], s) == s && Ahead(before, before, room, room, []);
  }

  lemma GroupEnds(cfg: Settings, param: string, pos: nat, cand: Maybe<string>, s: Step, done: seq<Parsed>,
                  before: seq<Parsed>, now: seq<Parsed>, room: Maybe<nat>, roomNow: Maybe<nat>)
    requires |param| <= pos && InGroup(cfg, param, pos, cand, s, done, before, now, room, roomNow)
    ensures Effect(s, before, now, room, roomNow, Completed, false) && Remaining(s, done) == 0
  {
    assert Key(0);
    assert done + [] == done;
    AllDone(before, now, room, roomNow, s, false);
  }

  method ShortGroup(cfg: Settings, param: string, cand: Maybe<string>, action: Action, ghost n: nat, ghost s: Step)
    returns (exit: Exit, consumed: bool)
    requires s == ShortStep(cfg, param, 1, cand)
    requires action.Valid(cfg.usage) && action.SafeFor(n + |s.events|)
    modifies action.Frame()
    ensures action.Valid(cfg.usage) && action.Nonops() == old(action.Nonops())
    ensures Effect(s, old(action.Performed()), action.Performed(), old(action.Room()), action.Room(), exit, consumed)
    ensures exit != Refused ==> action.SafeFor(n)
    ensures consumed ==> cand.Some?
  {
    var pos := 1;
    ghost var done: seq<Parsed> := [];
    ghost var before, room := action.Performed(), action.Room();
    GroupBegins(cfg, param, cand, s, before, room);
    while pos < |param|
      invariant 1 <= pos && InGroup(cfg, param, pos, cand, s, done, before, action.Performed(), room, action.Room())
      invariant action.Valid(cfg.usage) && action.Nonops() == old(action.Nonops())
      invariant action.SafeFor(n + Remaining(s, done))
    {
      var goOn;
      goOn, exit, consumed, done := ShortChar(cfg, param, pos, cand, action, n, s, done, before, room);
      if !goOn {
        return;
      }
      pos := pos + 1;
    }
    GroupEnds(cfg, param, pos, cand, s, done, before, action.Performed(), room, action.Room());
    exit, consumed := Completed, false;
  }

  /** One option argument: a long option, a single-minus long option, or a short option group. */
  method OneParam(cfg: Settings, param: string, cand: Maybe<string>, action: Action, ghost n: nat, ghost s: Step)
    returns (exit: Exit, consumed: bool)
    requires IsOption(param) && s == ParamStep(cfg, param, cand)
    requires action.Valid(cfg.usage) && action.SafeFor(n) && |s.events| <= n
    modifies action.Frame()
    ensures action.Valid(cfg.usage) && action.Nonops() == old(action.Nonops())
    ensures
      && Effect(s, old(action.Performed()), action.Performed(), old(action.Room()), action.Room(), exit, consumed)
      && (exit != Refused ==> action.SafeFor(n - |s.events|))
    ensures consumed ==> cand.Some?
  {
    var isLong, given, idx := TryLong(cfg, param, cand, s);
    if isLong {
      exit, consumed := LongParam(cfg, idx, param, given, cand, action, n, s);
    } else {
      exit, consumed := ShortGroup(cfg, param, cand, action, n - |s.events|, s);
    }
  }

  /** Whether the argument is taken as a long option: always behind "--", behind a single minus only if
      that is allowed and one is found. */
  method TryLong(cfg: Settings, param: string, cand: Maybe<string>, ghost s: Step)
    returns (isLong: bool, given: string, idx: nat)
    requires IsOption(param) && s == ParamStep(cfg, param, cand)
    ensures isLong ==> idx <= |cfg.usage| && s == LongStep(cfg, idx, param, given, cand)
    ensures !isLong ==> s == ShortStep(cfg, param, 1, cand)
  {
    var handleShort := param[1] != '-';
    isLong, given, idx := !handleShort, [], 0;
    if !handleShort || cfg.singleMinus {
      given := if handleShort then param[1..] else param[2..];
      idx := FindLong(cfg, given);
      isLong := !handleShort || idx < |cfg.usage|;
    }
  }
}
