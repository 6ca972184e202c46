/**
 The meaning of one pass of the command-line parser, stated without the in-place
 reordering of the argument vector: one left-to-right scan that says which options are
 performed and which arguments are options, plain words, or left untouched.
 */
module OptionScan {
  import opened Maybes

  datatype ArgStatus = ArgNone | ArgOk | ArgIgnore | ArgIllegal

  /** A check function sees the name as it stands on the command line (with whatever is attached
      to it), the candidate argument, and whether it may print a message. */
  type CheckArg = (string, Maybe<string>, bool) -> ArgStatus

  datatype Descriptor = Descriptor(index: nat, kind: int, shortopt: string, longopt: string, checkArg: CheckArg)

  /** A parsed option, before it is linked into a list: position of its descriptor in the usage
      table, the name it was given by, and the argument it accepted. */
  datatype Parsed = Parsed(desc: nat, name: string, arg: Maybe<string>)

  /** The settings of one pass; the terminating all-zero descriptor is the end of `usage`. */
  datatype Settings = Settings(usage: seq<Descriptor>, singleMinus: bool, minAbbr: int, msg: bool)

  // ---------------------------------------------------------------- matching of names

  /** `given` spells the long option `name`, possibly followed by "=argument". */
  predicate Spells(name: string, given: string) {
    && name <= given
    && (|given| == |name| || given[|name|] == '=')
  }

  /** Length of the longest common prefix. */
  function Common(s: string, t: string): (n: nat)
    ensures n <= |s| && n <= |t| && s[..n] == t[..n]
    ensures n < |s| && n < |t| ==> s[n] != t[n]
  {
    if s == [] || t == [] || s[0] != t[0] then 0 else
      var m := Common(s[1..], t[1..]);
      assert s[..m + 1] == [s[0]] + s[1..][..m];
      assert t[..m + 1] == [t[0]] + t[1..][..m];
      m + 1
  }

  /** `given` spells `name`, or an abbreviation of it with at least `min` characters. */
  predicate Abbreviates(name: string, given: string, min: int) {
    var n := Common(name, given);
    && (n == |name| || (min > 0 && n >= min))
    && (n == |given| || given[n] == '=')
  }

  /** First position from `from` on whose descriptor spells `given`; |usage| if there is none. */
  function FirstLong(usage: seq<Descriptor>, given: string, from: nat): (i: nat)
    requires from <= |usage|
    ensures from <= i <= |usage|
    ensures i < |usage| ==> Spells(usage[i].longopt, given)
    ensures forall j :: from <= j < i ==> !Spells(usage[j].longopt, given)
    decreases |usage| - from
  {
    if from == |usage| || Spells(usage[from].longopt, given) then from else FirstLong(usage, given, from + 1)
  }

  function FirstAbbr(usage: seq<Descriptor>, given: string, min: int, from: nat): (i: nat)
    requires from <= |usage|
    ensures from <= i <= |usage|
    ensures i < |usage| ==> Abbreviates(usage[i].longopt, given, min)
    ensures forall j :: from <= j < i ==> !Abbreviates(usage[j].longopt, given, min)
    decreases |usage| - from
  {
    if from == |usage| || Abbreviates(usage[from].longopt, given, min) then from
    else FirstAbbr(usage, given, min, from + 1)
  }

  function FirstShort(usage: seq<Descriptor>, ch: char, from: nat): (i: nat)
    requires from <= |usage|
    ensures from <= i <= |usage|
    ensures i < |usage| ==> ch in usage[i].shortopt
    ensures forall j :: from <= j < i ==> ch !in usage[j].shortopt
    decreases |usage| - from
  {
    if from == |usage| || ch in usage[from].shortopt then from else FirstShort(usage, ch, from + 1)
  }

  function FirstDummy(usage: seq<Descriptor>, from: nat): (i: nat)
    requires from <= |usage|
    ensures from <= i <= |usage|
    ensures i < |usage| ==> usage[i].shortopt == "" && usage[i].longopt == ""
    ensures forall j :: from <= j < i ==> usage[j].shortopt != "" || usage[j].longopt != ""
    decreases |usage| - from
  {
    if from == |usage| || (usage[from].shortopt == "" && usage[from].longopt == "") then from
    else FirstDummy(usage, from + 1)
  }

  /** The descriptor a long name selects: an exact spelling, or else an unambiguous abbreviation. */
  function LongIndex(cfg: Settings, given: string): (i: nat)
    ensures i <= |cfg.usage|
  {
    var exact := FirstLong(cfg.usage, given, 0);
    if exact < |cfg.usage| || cfg.minAbbr <= 0 then exact else
      var first := FirstAbbr(cfg.usage, given, cfg.minAbbr, 0);
      if first < |cfg.usage| && FirstAbbr(cfg.usage, given, cfg.minAbbr, first + 1) == |cfg.usage| then first
      else |cfg.usage|
  }

  predicate SpelledBy(usage: seq<Descriptor>, given: string, j: int) {
    0 <= j < |usage| && Spells(usage[j].longopt, given)
  }

  predicate AbbreviatedBy(usage: seq<Descriptor>, given: string, min: int, j: int) {
    0 <= j < |usage| && min > 0 && Abbreviates(usage[j].longopt, given, min)
  }

  /** An exact spelling comes first; an abbreviation counts only if nothing is spelled and no other
      descriptor is abbreviated; and if nothing is found there is no such descriptor. */
  lemma LongIndexSelects(cfg: Settings, given: string)
    ensures var u, i, min := cfg.usage, LongIndex(cfg, given), cfg.minAbbr;
      if exists j :: SpelledBy(u, given, j) then SpelledBy(u, given, i) && forall j :: j < i ==> !SpelledBy(u, given, j)
      else if i < |u| then forall j :: AbbreviatedBy(u, given, min, j) <==> j == i
      else forall j :: AbbreviatedBy(u, given, min, j) ==> exists k :: k != j && AbbreviatedBy(u, given, min, k)
  {
    var u, min := cfg.usage, cfg.minAbbr;
    var exact := FirstLong(u, given, 0);
    assert exact < |u| ==> SpelledBy(u, given, exact);
    if exact == |u| && min > 0 {
      var first := FirstAbbr(u, given, min, 0);
      assert first < |u| ==> AbbreviatedBy(u, given, min, first);
      if first < |u| {
        var second := FirstAbbr(u, given, min, first + 1);
        assert second < |u| ==> AbbreviatedBy(u, given, min, second);
      }
    }
  }

  /** An unknown option is handled by the first dummy descriptor, if the table has one. */
  function Resolve(usage: seq<Descriptor>, i: nat): (d: Maybe<nat>)
    requires i <= |usage|
    ensures d.Some? ==> d.value < |usage|
  {
    if i < |usage| then Some(i) else
      var dummy := FirstDummy(usage, 0);
      if dummy < |usage| then Some(dummy) else None
  }

  function NameLength(given: string, from: nat): (n: nat)
    requires from <= |given|
    ensures from <= n <= |given|
    ensures n < |given| ==> given[n] == '='
    ensures forall j :: from <= j < n ==> given[j] != '='
    decreases |given| - from
  {
    if from == |given| || given[from] == '=' then from else NameLength(given, from + 1)
  }

  // ---------------------------------------------------------------- one argument of the vector

  /** A word is not an option: the empty string, a lone minus, or anything not starting with a minus. */
  predicate IsWord(p: string) {
    p == "" || p[0] != '-' || |p| == 1
  }

  /** Neither a word nor the terminator "--". */
  predicate IsOption(p: string) {
    !IsWord(p) && p != "--"
  }

  /** What one option argument does: the options it performs, and whether it takes the next
      argument of the vector with it; or the options performed before the fatal check. */
  datatype Step = Fatal(events: seq<Parsed>) | Done(events: seq<Parsed>, consumed: bool)

  /** The verdict on one option, already looked up, and its candidate argument. */
  datatype Reply = Ignored | Rejected | Accepts(o: Parsed) | Declines(o: Parsed)

  function Offer(cfg: Settings, i: nat, name: string, optarg: Maybe<string>): Reply
    requires i <= |cfg.usage|
  {
    match Resolve(cfg.usage, i)
    case None => Ignored
    case Some(d) =>
      match cfg.usage[d].checkArg(name, optarg, cfg.msg)
      case ArgIllegal => Rejected
      case ArgOk => Accepts(Parsed(d, name, optarg))
      case _ => Declines(Parsed(d, name, None))
  }

  function LongStep(cfg: Settings, i: nat, param: string, given: string, cand: Maybe<string>): (s: Step)
    requires i <= |cfg.usage|
    ensures s.Done? && s.consumed ==> cand.Some?
  {
    var n := NameLength(given, 0);
    var attached := n < |given|;
    match Offer(cfg, i, param, if attached then Some(given[n + 1..]) else cand)
    case Ignored => Done([], false)
    case Rejected => Fatal([])
    case Accepts(o) => Done([o], !attached && cand.Some?)
    case Declines(o) => Done([o], false)
  }

  /** The characters of a short option group from `pos` on. */
  function ShortStep(cfg: Settings, param: string, pos: nat, cand: Maybe<string>): (s: Step)
    ensures s.Done? && s.consumed ==> cand.Some?
    decreases |param| - pos
  {
    if pos >= |param| then Done([], false) else
      var detached := pos + 1 == |param|;
      match Offer(cfg, FirstShort(cfg.usage, param[pos], 0), param[pos..],
                  if detached then cand else Some(param[pos + 1..]))
      case Ignored => ShortStep(cfg, param, pos + 1, cand)
      case Rejected => Fatal([])
      case Accepts(o) => Done([o], detached && cand.Some?)
      case Declines(o) => Prepend(o, ShortStep(cfg, param, pos + 1, cand))
  }

  function Prepend(e: Parsed, s: Step): Step {
    match s
    case Fatal(ev) => Fatal([e] + ev)
    case Done(ev, c) => Done([e] + ev, c)
  }

  function ParamStep(cfg: Settings, param: string, cand: Maybe<string>): (s: Step)
    requires IsOption(param)
    ensures s.Done? && s.consumed ==> cand.Some?
  {
    if param[1] == '-' then LongStep(cfg, LongIndex(cfg, param[2..]), param, param[2..], cand)
    else if cfg.singleMinus && LongIndex(cfg, param[1..]) < |cfg.usage| then
      LongStep(cfg, LongIndex(cfg, param[1..]), param, param[1..], cand)
    else ShortStep(cfg, param, 1, cand)
  }

  // ---------------------------------------------------------------- the whole vector

  /** What an option argument does with a candidate. */
  type Stepper = (string, Maybe<string>) -> Step

  /** The steps of the parser with the given settings. */
  function StepsOf(cfg: Settings): Stepper {
    (param: string, cand: Maybe<string>) => if IsOption(param) then ParamStep(cfg, param, cand) else Done([], false)
  }

  /** Result of one pass: the options performed in order; the arguments that are options,
      consumed option arguments or the terminator; the plain words skipped over; the unscanned
      rest; and whether a check was fatal. */
  datatype Scan = Scan(events: seq<Parsed>, opts: seq<string>, words: seq<string>, rest: seq<string>, fatal: bool)

  function Candidate(a: seq<string>): Maybe<string> {
    if |a| > 1 then Some(a[1]) else None
  }

  /** How many arguments a completed step uses up; only a candidate that exists can be taken. */
  function Used(s: Step, a: seq<string>): (k: nat)
    requires s.Done? && a != []
    ensures 1 <= k <= 2 && k <= |a|
  {
    if s.consumed && |a| > 1 then 2 else 1
  }

  function ScanArgs(step: Stepper, gnu: bool, a: seq<string>): Scan
    decreases |a|
  {
    if a == [] then Scan([], [], [], [], false)
    else if IsWord(a[0]) then
      if gnu then
        var r := ScanArgs(step, gnu, a[1..]);
        r.(words := [a[0]] + r.words)
      else Scan([], [], [], a, false)
    else if a[0] == "--" then Scan([], ["--"], [], a[1..], false)
    else
      var s := step(a[0], Candidate(a));
      if s.Fatal? then Scan(s.events, [], [], a, true) else
        var k := Used(s, a);
        var r := ScanArgs(step, gnu, a[k..]);
        r.(events := s.events + r.events, opts := a[..k] + r.opts)
  }
}
