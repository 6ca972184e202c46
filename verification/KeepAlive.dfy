/**
 Master and slave keep each other informed by heartbeats. The slave sleeps for an interval, tests
 whether a heartbeat arrived, clears the flag and sleeps again; a heartbeat that lands between the
 test and the clearing is lost. Local steps take no time; time passes only in between.
 */
module KeepAlive {

  // ---------------------------------------------------------------- the slave

  /** Asleep since some moment; or behind the test and in front of clearing the flag. */
  datatype Phase = Asleep(since: real) | Tested

  /** `last` is the moment of the last heartbeat, or of the start. */
  datatype Node = Node(master: bool, arrived: bool, phase: Phase, now: real, ghost last: real)

  datatype Event =
    | Heartbeat
    | WakeUp          // the sleep is over: test the flag
    | ClearFlag       // heartbeat_arrived = false, and back to sleep
    | Pass(d: real)   // time passes

  ghost function Started(at: real): Node {
    Node(false, false, Asleep(at), at, at)
  }

  /** The slave wakes up when the interval is over, and time does not pass over a step that is due. */
  predicate Possible(interval: real, n: Node, e: Event) {
    match e
    case Heartbeat => true
    case WakeUp => !n.master && n.phase.Asleep? && n.now == n.phase.since + interval
    case ClearFlag => !n.master && n.phase.Tested?
    case Pass(d) => d >= 0.0 && (n.master || (n.phase.Asleep? && n.now + d <= n.phase.since + interval))
  }

  ghost function Next(n: Node, e: Event): Node {
    match e
    case Heartbeat => n.(arrived := true, last := n.now)
    case WakeUp => if n.arrived then n.(phase := Tested) else n.(master := true)
    case ClearFlag => n.(arrived := false, phase := Asleep(n.now))
    case Pass(d) => n.(now := n.now + d)
  }

  /** What holds of a slave: it was woken in time, and how its flag relates to the last heartbeat. */
  ghost predicate SlaveInv(interval: real, n: Node) {
    match n.phase
    case Asleep(since) =>
      && since <= n.now <= since + interval
      && n.last <= n.now && since <= n.last + interval
      && (if n.arrived then since <= n.last else n.last <= since)
    case Tested =>
      n.arrived && n.last <= n.now <= n.last + interval
  }

  lemma StepKeepsSlave(interval: real, n: Node, e: Event)
    requires 0.0 <= interval && !n.master && SlaveInv(interval, n) && Possible(interval, n, e)
    ensures var z := Next(n, e);
      if z.master then n.last + interval <= n.now <= n.last + 2.0 * interval else SlaveInv(interval, z)
  {
  }

  ghost predicate IsRun(interval: real, start: real, ns: seq<Node>, es: seq<Event>) {
    && |ns| == |es| + 1 && ns[0] == Started(start)
    && forall i :: 0 <= i < |es| ==> Possible(interval, ns[i], es[i]) && ns[i + 1] == Next(ns[i], es[i])
  }

  /** As long as it is a slave, at most two intervals have passed since the last heartbeat. */
  lemma {:induction false} SlaveAlongRun(interval: real, start: real, ns: seq<Node>, es: seq<Event>, i: nat)
    requires 0.0 <= interval && IsRun(interval, start, ns, es) && i < |ns| && !ns[i].master
    ensures SlaveInv(interval, ns[i])
    ensures ns[i].last <= ns[i].now <= ns[i].last + 2.0 * interval
  {
    if i > 0 {
      if ns[i - 1].master { MasterStays(interval, start, ns, es, i - 1, i); }
      SlaveAlongRun(interval, start, ns, es, i - 1);
      StepKeepsSlave(interval, ns[i - 1], es[i - 1]);
    }
  }

  /** A master never becomes a slave again. */
  lemma {:induction false} MasterStays(interval: real, start: real, ns: seq<Node>, es: seq<Event>, i: nat, j: nat)
    requires IsRun(interval, start, ns, es) && i <= j < |ns| && ns[i].master
    ensures ns[j].master
  {
    if i < j { MasterStays(interval, start, ns, es, i, j - 1); }
  }

  /** A slave makes itself master not before one interval, and not after two, since the last heartbeat.
      So if heartbeats are closer than the interval it never does, even though some are lost. */
  lemma PromotionWindow(interval: real, start: real, ns: seq<Node>, es: seq<Event>, i: nat)
    requires 0.0 <= interval && IsRun(interval, start, ns, es) && i < |es| && !ns[i].master && ns[i + 1].master
    ensures ns[i].last + interval <= ns[i].now <= ns[i].last + 2.0 * interval
  {
    SlaveAlongRun(interval, start, ns, es, i);
    StepKeepsSlave(interval, ns[i], es[i]);
  }

  /** Heartbeats, and the first one from the start, are closer than the interval. */
  ghost predicate Closer(interval: real, ns: seq<Node>) {
    forall i :: 0 <= i < |ns| ==> ns[i].now < ns[i].last + interval
  }

  lemma {:induction false} NeverPromotes(interval: real, start: real, ns: seq<Node>, es: seq<Event>, i: nat)
    requires 0.0 <= interval && IsRun(interval, start, ns, es) && Closer(interval, ns) && i < |ns|
    ensures !ns[i].master
  {
    if i > 0 {
      NeverPromotes(interval, start, ns, es, i - 1);
      if ns[i].master { PromotionWindow(interval, start, ns, es, i - 1); }
    }
  }

  /** Both ends of the window are met: a heartbeat lost behind the test leaves one interval, one right
      behind the clearing leaves two. */
  lemma WindowIsSharp(interval: real)
    requires 0.0 < interval
    ensures var z := After(Started(0.0), [Heartbeat, Pass(interval), WakeUp, Heartbeat, ClearFlag, Pass(interval),
                                          WakeUp]);
      z.master && z.now == z.last + interval
    ensures Allowed(interval, Started(0.0), [Heartbeat, Pass(interval), WakeUp, Heartbeat, ClearFlag, Pass(interval),
                                             WakeUp])
    ensures var z := After(Started(0.0), [Heartbeat, Pass(interval), WakeUp, ClearFlag, Pass(interval), WakeUp]);
      z.master && z.now == z.last + 2.0 * interval
    ensures Allowed(interval, Started(0.0), [Heartbeat, Pass(interval), WakeUp, ClearFlag, Pass(interval), WakeUp])
  {
    var n1 := Next(Next(Next(Started(0.0), Heartbeat), Pass(interval)), WakeUp);
    var early := [Heartbeat, ClearFlag, Pass(interval), WakeUp];
    var late := [ClearFlag, Pass(interval), WakeUp];
    FirstThree(interval, Started(0.0), Heartbeat, Pass(interval), WakeUp, early);
    FirstThree(interval, Started(0.0), Heartbeat, Pass(interval), WakeUp, late);
    FirstThree(interval, n1, Heartbeat, ClearFlag, Pass(interval), [WakeUp]);
    FirstThree(interval, n1, ClearFlag, Pass(interval), WakeUp, []);
    assert [Heartbeat, Pass(interval), WakeUp] + early
      == [Heartbeat, Pass(interval), WakeUp, Heartbeat, ClearFlag, Pass(interval), WakeUp];
    assert [Heartbeat, Pass(interval), WakeUp] + late
      == [Heartbeat, Pass(interval), WakeUp, ClearFlag, Pass(interval), WakeUp];
    assert [Heartbeat, ClearFlag, Pass(interval)] + [WakeUp] == early
      && [ClearFlag, Pass(interval), WakeUp] + [] == late;
  }

  ghost function After(n: Node, es: seq<Event>): Node
    decreases |es|
  {
    if es == [] then n else After(Next(n, es[0]), es[1..])
  }

  ghost predicate Allowed(interval: real, n: Node, es: seq<Event>)
    decreases |es|
  {
    es == [] || (Possible(interval, n, es[0]) && Allowed(interval, Next(n, es[0]), es[1..]))
  }

  lemma FirstThree(interval: real, n: Node, a: Event, b: Event, c: Event, rest: seq<Event>)
    ensures var z := Next(Next(Next(n, a), b), c);
      && After(n, [a, b, c] + rest) == After(z, rest)
      && (Allowed(interval, n, [a, b, c] + rest) <==>
            Possible(interval, n, a) && Possible(interval, Next(n, a), b) && Possible(interval, Next(Next(n, a), b), c)
            && Allowed(interval, z, rest))
  {
    var es := [a, b, c] + rest;
    assert es[1..] == [b, c] + rest && es[1..][1..] == [c] + rest && es[1..][1..][1..] == rest;
    assert After(Next(n, a), es[1..]) == After(Next(Next(n, a), b), es[1..][1..]);
    assert Allowed(interval, Next(Next(n, a), b), es[1..][1..]) <==>
      Possible(interval, Next(Next(n, a), b), c) && Allowed(interval, Next(Next(Next(n, a), b), c), rest);
  }

  // ---------------------------------------------------------------- master, network and slave

  /** The master sends a heartbeat every `period`, the network delivers each within `delay`, in order.
      `crashed` is the moment the master stopped. `sent` is when the last delivered heartbeat was sent. */
  datatype System = System(alive: bool, nextSend: real, inFlight: seq<real>, slave: Node, ghost sent: real,
                           ghost crashed: real)

  datatype Timing = Timing(interval: real, period: real, delay: real)

  datatype SystemEvent = Send | Deliver | Crash | Local(e: Event)

  function Duration(e: Event): real { if e.Pass? then e.d else 0.0 }

  predicate PossibleInSystem(c: Timing, s: System, e: SystemEvent) {
    match e
    case Send => s.alive && s.slave.now == s.nextSend
    case Deliver => s.inFlight != []
    case Crash => s.alive
    case Local(l) =>
      && !l.Heartbeat? && Possible(c.interval, s.slave, l)
      && (s.alive ==> s.slave.now + Duration(l) <= s.nextSend)
      && (s.inFlight != [] ==> s.slave.now + Duration(l) <= s.inFlight[0] + c.delay)
  }

  ghost function NextSystem(c: Timing, s: System, e: SystemEvent): System {
    match e
    case Send => s.(inFlight := s.inFlight + [s.slave.now], nextSend := s.nextSend + c.period)
    case Deliver =>
      if s.inFlight == [] then s
      else s.(slave := Next(s.slave, Heartbeat), sent := s.inFlight[0], inFlight := s.inFlight[1..])
    case Crash => s.(alive := false, crashed := s.slave.now)
    case Local(l) => s.(slave := Next(s.slave, l))
  }

  /** The slave has just started, matched with a running master. */
  ghost predicate SystemStart(c: Timing, s: System) {
    && s.alive && s.inFlight == [] && s.slave == Started(s.slave.now) && s.sent == s.slave.now
    && s.slave.now <= s.nextSend <= s.slave.now + c.period
  }

  ghost predicate GoodTiming(c: Timing) {
    0.0 <= c.period && 0.0 <= c.delay && c.period + c.delay < c.interval
  }

  ghost predicate SystemInv(c: Timing, s: System) {
    var n := s.slave;
    && s.sent <= n.last <= n.now
    && (s.alive ==> n.now <= s.nextSend)
    // heartbeats are sent a period apart
    && (s.inFlight != [] ==> s.inFlight[0] <= s.sent + c.period && n.now <= s.inFlight[0] + c.delay)
    && (s.inFlight == [] && s.alive ==> s.nextSend <= s.sent + c.period)
    && (forall i :: 0 <= i < |s.inFlight| - 1 ==> s.inFlight[i] <= s.inFlight[i + 1] <= s.inFlight[i] + c.period)
    && (forall i :: 0 <= i < |s.inFlight| ==> s.inFlight[i] <= n.now && (!s.alive ==> s.inFlight[i] <= s.crashed))
    && (s.alive && s.inFlight != [] ==> s.nextSend <= s.inFlight[|s.inFlight| - 1] + c.period)
    // as long as the master lives the slave does not take over
    && (s.alive ==> !n.master)
    && (!n.master ==> SlaveInv(c.interval, n))
    && (!s.alive ==> n.last <= s.crashed + c.delay)
  }

  lemma StartIsFine(c: Timing, s: System)
    requires GoodTiming(c) && SystemStart(c, s)
    ensures SystemInv(c, s)
  {
  }

  lemma SystemStepKeeps(c: Timing, s: System, e: SystemEvent)
    requires GoodTiming(c) && SystemInv(c, s) && PossibleInSystem(c, s, e)
    ensures SystemInv(c, NextSystem(c, s, e))
  {
    match e
    case Send => SendKeeps(c, s);
    case Deliver => DeliverKeeps(c, s);
    case Crash =>
    case Local(l) => LocalKeeps(c, s, l);
  }

  lemma SendKeeps(c: Timing, s: System)
    requires GoodTiming(c) && SystemInv(c, s) && PossibleInSystem(c, s, Send)
    ensures SystemInv(c, NextSystem(c, s, Send))
  {
  }

  lemma DeliverKeeps(c: Timing, s: System)
    requires GoodTiming(c) && SystemInv(c, s) && PossibleInSystem(c, s, Deliver)
    ensures SystemInv(c, NextSystem(c, s, Deliver))
  {
    if !s.slave.master { StepKeepsSlave(c.interval, s.slave, Heartbeat); }
    var rest := s.inFlight[1..];
    assert forall i :: 0 <= i < |rest| ==> rest[i] == s.inFlight[i + 1];
  }

  lemma LocalKeeps(c: Timing, s: System, l: Event)
    requires GoodTiming(c) && SystemInv(c, s) && PossibleInSystem(c, s, Local(l))
    ensures SystemInv(c, NextSystem(c, s, Local(l)))
  {
    if !s.slave.master { StepKeepsSlave(c.interval, s.slave, l); }
  }

  ghost predicate IsSystemRun(c: Timing, ss: seq<System>, es: seq<SystemEvent>) {
    && |ss| == |es| + 1 && SystemStart(c, ss[0])
    && forall i :: 0 <= i < |es| ==> PossibleInSystem(c, ss[i], es[i]) && ss[i + 1] == NextSystem(c, ss[i], es[i])
  }

  lemma {:induction false} SystemAlongRun(c: Timing, ss: seq<System>, es: seq<SystemEvent>, i: nat)
    requires GoodTiming(c) && IsSystemRun(c, ss, es) && i < |ss|
    ensures SystemInv(c, ss[i])
  {
    if i == 0 {
      StartIsFine(c, ss[0]);
    } else {
      SystemAlongRun(c, ss, es, i - 1);
      SystemStepKeeps(c, ss[i - 1], es[i - 1]);
    }
  }

  /** Safety and failover: while the master lives there is no second one; and once it has been dead for
      the delay of the network and two intervals, the slave is master. */
  lemma Failover(c: Timing, ss: seq<System>, es: seq<SystemEvent>, i: nat)
    requires GoodTiming(c) && IsSystemRun(c, ss, es) && i < |ss|
    ensures ss[i].alive ==> !ss[i].slave.master
    ensures !ss[i].alive && ss[i].slave.now > ss[i].crashed + c.delay + 2.0 * c.interval ==> ss[i].slave.master
  {
    SystemAlongRun(c, ss, es, i);
  }

  /** The system is never stuck: some step is possible, and if none is due, time can pass. */
  lemma NeverStuck(c: Timing, s: System) returns (e: SystemEvent)
    requires GoodTiming(c) && SystemInv(c, s)
    ensures PossibleInSystem(c, s, e) && (e.Local? && e.e.Pass? ==> e.e.d > 0.0)
  {
    var n := s.slave;
    if s.inFlight != [] {
      e := Deliver;
    } else if s.alive && n.now == s.nextSend {
      e := Send;
    } else if !n.master && n.phase.Tested? {
      e := Local(ClearFlag);
    } else if !n.master && n.now == n.phase.since + c.interval {
      e := Local(WakeUp);
    } else {
      var toWakeUp := if n.master then 1.0 else n.phase.since + c.interval - n.now;
      var toSend := if s.alive then s.nextSend - n.now else 1.0;
      e := Local(Pass(if toWakeUp < toSend then toWakeUp else toSend));
    }
  }

  // ---------------------------------------------------------------- the code

  datatype Role = AsMaster | AsSlave

  /** Whether one of the first `n` heartbeats was missed. */
  predicate Missed(beats: seq<bool>, n: nat)
    requires n <= |beats|
  {
    exists j :: 0 <= j < n && !beats[j]
  }

  /** In each round the process was master just if it started as one, or missed a heartbeat before. */
  predicate Played(startAsMaster: bool, beats: seq<bool>, roles: seq<Role>) {
    |roles| <= |beats| && forall i :: 0 <= i < |roles| ==> (roles[i].AsMaster? <==> startAsMaster || Missed(beats, i))
  }

  /** The thread that plays the role of the process. It is followed for as many rounds as there are
      entries in `beats`, which say whether a heartbeat arrives in time in that round; then the process
      exits. A process stays slave as long as every heartbeat was in time, and is master ever after. */
  method AliveTopic(startAsMaster: bool, beats: seq<bool>) returns (roles: seq<Role>)
    ensures |roles| == |beats| && Played(startAsMaster, beats, roles)
  {
    roles := [];
    var masterFlag := startAsMaster;
    while |roles| < |beats|
      invariant Played(startAsMaster, beats, roles)
      invariant masterFlag <==> startAsMaster || Missed(beats, |roles|)
    {
      if masterFlag {
        // the publisher runs until the process exits
        while |roles| < |beats|
          invariant Played(startAsMaster, beats, roles)
          invariant startAsMaster || Missed(beats, |roles|)
        {
          roles := roles + [AsMaster];
        }
      } else {
        // the subscriber runs until a heartbeat is missed
        while |roles| < |beats| && !masterFlag
          invariant Played(startAsMaster, beats, roles)
          invariant masterFlag <==> startAsMaster || Missed(beats, |roles|)
          decreases |beats| - |roles|, !masterFlag
        {
          var heartbeatArrived := beats[|roles|];
          roles := roles + [AsSlave];
          if !heartbeatArrived {
            masterFlag := true;
          }
        }
      }
    }
  }

  /** What the publisher is called for: a report of `change` listeners more, with `total` matched so far;
      or a heartbeat to publish, if `wait` only to somebody who listens. */
  datatype Call = Reported(change: int, total: int) | Published(wait: bool)

  /** Reports of anything but one listener more or less are ignored. */
  predicate Heeded(call: Call) {
    call.Reported? && (call.change == 1 || call.change == -1)
  }

  predicate OneMore(calls: seq<Call>) {
    exists i :: 0 <= i < |calls| && calls[i].Reported? && calls[i].change == 1
  }

  function LastTotal(calls: seq<Call>): int {
    if calls == [] then 0
    else
      var last := calls[|calls| - 1];
      if Heeded(last) then last.total else LastTotal(calls[..|calls| - 1])
  }

  /** Whether a heartbeat is written after the calls so far. */
  predicate Writes(calls: seq<Call>, wait: bool) {
    !wait || OneMore(calls) || LastTotal(calls) > 0
  }

  /** The heartbeats written in a run of calls. */
  function Written(calls: seq<Call>): nat {
    if calls == [] then 0
    else
      var before, last := calls[..|calls| - 1], calls[|calls| - 1];
      Written(before) + if last.Published? && Writes(before, last.wait) then 1 else 0
  }

  function Asked(calls: seq<Call>): nat {
    if calls == [] then 0
    else Asked(calls[..|calls| - 1]) + if calls[|calls| - 1].Published? then 1 else 0
  }

  /** The total counts every match there ever was, so that no report has a total of zero. Then a heartbeat
      that waits is written just if a report of one listener more, or one less, came before; two listeners
      that are reported at once are not noticed. */
  lemma {:induction false} WritesOnceHeeded(calls: seq<Call>, wait: bool)
    requires forall i :: 0 <= i < |calls| && calls[i].Reported? ==> calls[i].total > 0
    ensures Writes(calls, wait) <==>
      !wait || exists i :: 0 <= i < |calls| && calls[i].Reported? && (calls[i].change == 1 || calls[i].change == -1)
  {
    if calls != [] {
      var n := |calls| - 1;
      WritesOnceHeeded(calls[..n], wait);
      if Heeded(calls[n]) {
        assert LastTotal(calls) > 0;
      } else {
        assert forall i :: 0 <= i < n ==> calls[i] == calls[..n][i];
        assert OneMore(calls) <==> OneMore(calls[..n]);
      }
    }
  }

  /** In general the total of the last report of one more or one less decides, unless one more was ever reported. */
  lemma {:induction false} WritesByLastReport(calls: seq<Call>, wait: bool, k: int)
    requires -1 <= k < |calls|
    requires k >= 0 ==> calls[k].Reported? && calls[k].change in {1, -1}
    requires forall i :: k < i < |calls| && calls[i].Reported? ==> calls[i].change !in {1, -1}
    ensures Writes(calls, wait) <==>
      || !wait || (exists i :: 0 <= i < |calls| && calls[i].Reported? && calls[i].change == 1)
      || (k >= 0 && calls[k].total > 0)
  {
    var n := |calls| - 1;
    if k < n {
      assert forall i :: 0 <= i < n ==> calls[i] == calls[..n][i];
      WritesByLastReport(calls[..n], wait, k);
      assert OneMore(calls) <==> OneMore(calls[..n]);
    }
  }

  /** Once one listener was reported, every heartbeat is written, whoever leaves. */
  lemma {:induction false} OnceThenAlways(calls: seq<Call>, more: seq<Call>)
    requires OneMore(calls)
    ensures Written(calls + more) == Written(calls) + Asked(more)
  {
    if more == [] {
      assert calls + more == calls;
    } else {
      var n := |more| - 1;
      OnceThenAlways(calls, more[..n]);
      var i :| 0 <= i < |calls| && calls[i].Reported? && calls[i].change == 1;
      var before := calls + more[..n];
      assert before[i] == calls[i] && OneMore(before);
      assert (calls + more)[..|calls| + n] == before && (calls + more)[|calls| + n] == more[n];
    }
  }

  /** The publisher, with what it was called for. */
  class Publisher {
    var matched: int
    var firstConnected: bool
    var written: nat
    ghost var calls: seq<Call>

    ghost predicate Valid()
      reads this
    {
      (firstConnected <==> OneMore(calls)) && matched == LastTotal(calls) && written == Written(calls)
    }

    constructor ()
      ensures Valid() && calls == []
    {
      matched, firstConnected, written, calls := 0, false, 0, [];
    }

    method OnPublicationMatched(change: int, total: int)
      requires Valid()
      modifies this
      ensures Valid() && calls == old(calls) + [Reported(change, total)]
    {
      OneMoreNext(calls, Reported(change, total));
      if change == 1 {
        matched := total;
        firstConnected := true;
      } else if change == -1 {
        matched := total;
      }
      calls := calls + [Reported(change, total)];
    }

    method Publish(waitForListener: bool) returns (ok: bool)
      requires Valid()
      modifies this
      ensures Valid() && calls == old(calls) + [Published(waitForListener)]
      ensures ok == Writes(old(calls), waitForListener) && written == old(written) + if ok then 1 else 0
    {
      OneMoreNext(calls, Published(waitForListener));
      ok := firstConnected || !waitForListener || matched > 0;
      if ok {
        written := written + 1;
      }
      calls := calls + [Published(waitForListener)];
    }
  }

  lemma OneMoreNext(calls: seq<Call>, call: Call)
    ensures (calls + [call])[..|calls|] == calls
    ensures OneMore(calls + [call]) <==> OneMore(calls) || (call.Reported? && call.change == 1)
  {
    if OneMore(calls) {
      var i :| 0 <= i < |calls| && calls[i].Reported? && calls[i].change == 1;
      assert (calls + [call])[i] == calls[i];
    }
    assert (calls + [call])[|calls|] == call;
  }

  /** The globals of the process, and the loop of the slave cut into its steps. */
  class Slave {
    var masterFlag: bool
    var heartbeatArrived: bool
    var samples: nat
    var phase: Phase

    constructor (at: real)
      ensures Shows(Started(at)) && samples == 0
    {
      masterFlag, heartbeatArrived, samples, phase := false, false, 0, Asleep(at);
    }

    ghost predicate Shows(n: Node)
      reads this
    {
      masterFlag == n.master && heartbeatArrived == n.arrived && phase == n.phase
    }

    /** A sample of the topic is taken; samples of instances that are not alive do not count. */
    method OnDataAvailable(alive: bool, ghost n: Node)
      requires Shows(n)
      modifies this
      ensures Shows(if alive then Next(n, Heartbeat) else n)
      ensures samples == old(samples) + if alive then 1 else 0
    {
      if alive {
        samples := samples + 1;
        heartbeatArrived := true;
      }
    }

    /** The sleep is over: without a heartbeat the slave takes over, and its loop ends. */
    method TestHeartbeat(ghost n: Node) returns (goesOn: bool)
      requires Shows(n) && !n.master && n.phase.Asleep?
      modifies this
      ensures Shows(Next(n, WakeUp)) && goesOn == !masterFlag && samples == old(samples)
    {
      if !heartbeatArrived {
        masterFlag := true;
        return false;
      }
      phase := Tested;
      goesOn := true;
    }

    method ClearHeartbeat(now: real, ghost n: Node)
      requires Shows(n) && !n.master && n.phase.Tested? && n.now == now
      modifies this
      ensures Shows(Next(n, ClearFlag)) && samples == old(samples)
    {
      heartbeatArrived := false;
      phase := Asleep(now);
    }
  }
}
