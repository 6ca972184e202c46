/**
 The state of the pipe read off what happened to it: which topics and services it knows, which
 servers, and what is active.
 */
module PipeHistory {
  import opened Maybes
  import opened AllowedTopicList
  import opened PipeState

  /** The last switch was on. */
  predicate SwitchedOn(events: seq<Event>) {
    if events == [] then false
    else
      match events[|events| - 1]
      case Enable(_) => true
      case Disable => false
      case _ => SwitchedOn(events[..|events| - 1])
  }

  /** The lists of the last reload, or those from the start. */
  function CurrentLists(lists: Lists, events: seq<Event>): Lists {
    if events == [] then lists
    else
      match events[|events| - 1]
      case Reload(l, _) => l
      case _ => CurrentLists(lists, events[..|events| - 1])
  }

  predicate FoundTopic(events: seq<Event>, t: Topic) {
    exists i :: 0 <= i < |events| && events[i].TopicFound? && events[i].topic == t
  }

  predicate FoundService(events: seq<Event>, s: Service) {
    exists i :: 0 <= i < |events| && events[i].ServiceFound? && events[i].service == s
  }

  /** The last event about a server of a service is that it was found. */
  predicate Present(events: seq<Event>, s: Service, x: Server) {
    if events == [] then false
    else
      var e := events[|events| - 1];
      if e.ServiceFound? && e.service == s && e.server == x then true
      else if e.ServiceLost? && e.service == s && e.server == x then false
      else Present(events[..|events| - 1], s, x)
  }

  /** Some server was found and not lost since. */
  ghost predicate Served(events: seq<Event>, s: Service) {
    exists x :: Present(events, s, x)
  }

  lemma TopicFlagStep(r: Rules, q: TopicPart, e: Event, t: Topic)
    requires q.bridge.Some? ==> q.flag.Some?
    ensures TopicStep(r, q, e, t).flag.Some? <==> q.flag.Some? || (e.TopicFound? && e.topic == t)
  {
  }

  lemma ServerStep(r: Rules, q: ServicePart, e: Event, s: Service, x: Server)
    ensures var z := ServiceStep(r, q, e, s);
      && (z.bridge.Some? <==> q.bridge.Some? || (e.ServiceFound? && e.service == s))
      && (z.bridge.Some? && x in z.bridge.value.servers <==>
            if e.ServiceFound? && e.service == s && e.server == x then true
            else if e.ServiceLost? && e.service == s && e.server == x then false
            else q.bridge.Some? && x in q.bridge.value.servers)
  {
  }

  lemma FoundNext(events: seq<Event>, t: Topic, s: Service)
    requires events != []
    ensures var before, e := events[..|events| - 1], events[|events| - 1];
      && (FoundTopic(events, t) <==> FoundTopic(before, t) || (e.TopicFound? && e.topic == t))
      && (FoundService(events, s) <==> FoundService(before, s) || (e.ServiceFound? && e.service == s))
  {
    var before := events[..|events| - 1];
    assert forall i :: 0 <= i < |before| ==> before[i] == events[i];
  }

  /** After every run the pipe is enabled just if it was switched on last, has the lists that were loaded last,
      and knows just the topics that are builtin or were found, the services that were found, and of each
      service the servers that were found and not lost since. */
  lemma {:induction false} KnowsWhatHappened(r: Rules, lists: Lists, builtin: set<Topic>, luck: Luck,
                                             events: seq<Event>, t: Topic, s: Service, x: Server)
    ensures var p := Run(r, Created(lists, builtin, luck), events);
      && (p.enabled <==> SwitchedOn(events)) && p.lists == CurrentLists(lists, events)
      && (t in p.topics <==> t in builtin || FoundTopic(events, t))
      && (s in p.services <==> FoundService(events, s)) && (s in p.rpc <==> FoundService(events, s))
      && (s in p.rpc && x in p.rpc[s].servers <==> Present(events, s, x))
  {
    var p := Run(r, Created(lists, builtin, luck), events);
    ReachableIsConsistent(r, lists, builtin, luck, events);
    assert ServiceConsistent(OfService(p, s));
    if events != [] {
      var before, e := events[..|events| - 1], events[|events| - 1];
      var was := Run(r, Created(lists, builtin, luck), before);
      KnowsWhatHappened(r, lists, builtin, luck, before, t, s, x);
      ReachableIsConsistent(r, lists, builtin, luck, before);
      BridgesHaveTopics(r, was);
      TopicsAreIndependent(r, was, e, t);
      ServicesAreIndependent(r, was, e, s);
      assert TopicConsistent(r, OfTopic(was, t), t);
      TopicFlagStep(r, OfTopic(was, t), e, t);
      ServerStep(r, OfService(was, s), e, s, x);
      FoundNext(events, t, s);
      EnabledStep(r, OfService(was, s), e, s);
    }
  }

  lemma EnabledStep(r: Rules, q: ServicePart, e: Event, s: Service)
    ensures var z := ServiceStep(r, q, e, s);
      && z.enabled == (if e.Enable? then true else if e.Disable? then false else q.enabled)
      && z.lists == if e.Reload? then e.lists else q.lists
  {
  }

  /** A topic is active just if the pipe was switched on last, the topic is builtin or was found, some filter
      of the current allow list matches it unless that is empty, and none of the current block list does; its
      bridge, if it has one, is enabled just then. */
  lemma ActiveTopics(r: Rules, lists: Lists, builtin: set<Topic>, luck: Luck, events: seq<Event>, t: Topic)
    ensures var p := Run(r, Created(lists, builtin, luck), events); var l := CurrentLists(lists, events);
      && (t in p.topics && p.topics[t] <==>
            && SwitchedOn(events) && (t in builtin || FoundTopic(events, t))
            && (l.allow == {} || exists f :: f in l.allow && r.matches(f, t))
            && forall f :: f in l.block ==> !r.matches(f, t))
      && (t in p.bridges ==> t in p.topics && p.bridges[t] == p.topics[t])
  {
    var p := Run(r, Created(lists, builtin, luck), events);
    KnowsWhatHappened(r, lists, builtin, luck, events, t, Service(t, t), Server(0, 0));
    ReachableIsConsistent(r, lists, builtin, luck, events);
    assert TopicConsistent(r, OfTopic(p, t), t);
  }

  /** While the pipe is enabled: the bridge of a service that has its endpoints is enabled just if some server
      was found and not lost since, and the lists that the service was last held against allow it; these are
      the current ones if lists were only replaced while the pipe was enabled. */
  lemma EnabledServices(r: Rules, lists: Lists, builtin: set<Topic>, luck: Luck, events: seq<Event>, s: Service)
    requires SwitchedOn(events)
    requires var p := Run(r, Created(lists, builtin, luck), events); s in p.rpc && p.rpc[s].init
    ensures var p0 := Created(lists, builtin, luck); var p, l := Run(r, p0, events), CurrentLists(lists, events);
      && (p.rpc[s].enabled <==>
            Served(events, s) && AllowsService(r, HeldAgainst(r, p0, events, s), s))
      && (ReloadsWhileEnabled(r, p0, events) ==>
            (p.rpc[s].enabled <==>
              && Served(events, s)
              && IsAllowed(r, l.allow, l.block, s.request) && IsAllowed(r, l.allow, l.block, s.reply)))
  {
    var p0 := Created(lists, builtin, luck);
    var p := Run(r, p0, events);
    ServersPresent(r, lists, builtin, luck, events, s);
    if p.rpc[s].servers != {} {
      ServiceBridgesFollowLists(r, lists, builtin, luck, events, s);
      assert p.rpc[s].enabled == AllowsService(r, HeldAgainst(r, p0, events, s), s);
      if ReloadsWhileEnabled(r, p0, events) { assert p.rpc[s].enabled == AllowsService(r, p.lists, s); }
    }
  }

  lemma ServersPresent(r: Rules, lists: Lists, builtin: set<Topic>, luck: Luck, events: seq<Event>, s: Service)
    requires s in Run(r, Created(lists, builtin, luck), events).rpc
    ensures var p := Run(r, Created(lists, builtin, luck), events);
      && (p.rpc[s].servers != {} <==> Served(events, s))
      && (p.rpc[s].enabled ==> p.rpc[s].servers != {})
      && p.enabled == SwitchedOn(events) && p.lists == CurrentLists(lists, events)
  {
    var p := Run(r, Created(lists, builtin, luck), events);
    KnowsWhatHappened(r, lists, builtin, luck, events, s.request, s, Server(0, 0));
    ReachableIsConsistent(r, lists, builtin, luck, events);
    assert ServiceConsistent(OfService(p, s));
    forall x
      ensures x in p.rpc[s].servers <==> Present(events, s, x)
    {
      KnowsWhatHappened(r, lists, builtin, luck, events, s.request, s, x);
    }
    if p.rpc[s].servers != {} {
      var x :| x in p.rpc[s].servers;
      assert Present(events, s, x);
    }
    if Served(events, s) {
      var x :| Present(events, s, x);
      assert x in p.rpc[s].servers;
    }
  }

  /** A second server does not make the first one forgotten: losing it leaves the service as it was. */
  lemma SecondServer(r: Rules, lists: Lists, builtin: set<Topic>, luck: Luck, events: seq<Event>, s: Service,
                     a: Server, b: Server, l: Luck)
    requires Present(events, s, a) && a != b
    ensures var p := Run(r, Created(lists, builtin, luck), events + [ServiceFound(s, b, l), ServiceLost(s, b)]);
      s in p.rpc && a in p.rpc[s].servers && b !in p.rpc[s].servers
  {
    var later := events + [ServiceFound(s, b, l), ServiceLost(s, b)];
    assert later[..|later| - 1] == events + [ServiceFound(s, b, l)];
    assert later[..|later| - 1][..|events|] == events;
    KnowsWhatHappened(r, lists, builtin, luck, later, s.request, s, a);
    KnowsWhatHappened(r, lists, builtin, luck, later, s.request, s, b);
  }

  /** No bridge for the topic can be created by the event. */
  predicate FailsTopic(e: Event, t: Topic) {
    match e
    case Disable => true
    case ServiceLost(_, _) => true
    case _ => !LuckOf(e).bridge(t)
  }

  predicate FailsService(e: Event, s: Service) {
    match e
    case Disable => true
    case ServiceLost(_, _) => true
    case _ => !LuckOf(e).rpc(s)
  }

  /** A builtin topic keeps the bridge it got at the start. A topic never gets a bridge, and a service never its
      endpoints, if no creation ever succeeds. */
  lemma {:induction false} OnlyByLuck(r: Rules, lists: Lists, builtin: set<Topic>, luck: Luck, events: seq<Event>,
                                      t: Topic, s: Service)
    ensures var p := Run(r, Created(lists, builtin, luck), events);
      && (t in builtin && luck.bridge(t) ==> t in p.bridges)
      && (!luck.bridge(t) && (forall e :: e in events ==> FailsTopic(e, t)) ==> t !in p.bridges)
      && ((forall e :: e in events ==> FailsService(e, s)) && s in p.rpc ==> !p.rpc[s].init)
  {
    if events != [] {
      var before, e := events[..|events| - 1], events[|events| - 1];
      var was := Run(r, Created(lists, builtin, luck), before);
      OnlyByLuck(r, lists, builtin, luck, before, t, s);
      ReachableIsConsistent(r, lists, builtin, luck, before);
      BridgesHaveTopics(r, was);
      TopicsAreIndependent(r, was, e, t);
      ServicesAreIndependent(r, was, e, s);
      assert TopicConsistent(r, OfTopic(was, t), t);
      LuckStep(r, OfTopic(was, t), OfService(was, s), e, t, s);
      assert e in events && forall x :: x in before ==> x in events;
    }
  }

  lemma LuckStep(r: Rules, q: TopicPart, v: ServicePart, e: Event, t: Topic, s: Service)
    ensures q.bridge.Some? ==> TopicStep(r, q, e, t).bridge.Some?
    ensures q.bridge.None? && FailsTopic(e, t) ==> TopicStep(r, q, e, t).bridge.None?
    ensures var z := ServiceStep(r, v, e, s);
      (v.bridge.Some? ==> !v.bridge.value.init) && FailsService(e, s) && z.bridge.Some? ==> !z.bridge.value.init
  {
  }

  ghost predicate ServedThroughout(events: seq<Event>, more: seq<Event>, s: Service) {
    forall n :: 0 <= n <= |more| ==> Served(events + more[..n], s)
  }

  lemma ServedOnce(events: seq<Event>, s: Service)
    ensures ServedThroughout(events, [], s) <==> Served(events, s)
  {
    var none: seq<Event> := [];
    assert none[..0] == none && events + none == events;
  }

  lemma ServedLonger(events: seq<Event>, more: seq<Event>, s: Service)
    requires more != []
    ensures ServedThroughout(events, more, s) <==>
      ServedThroughout(events, more[..|more| - 1], s) && Served(events + more, s)
  {
    var before := more[..|more| - 1];
    assert more[..|more|] == more;
    assert forall n :: 0 <= n <= |before| ==> before[..n] == more[..n];
  }

  /** As long as the pipe stays disabled a service bridge is enabled just if it was when the pipe was disabled
      and the service has not been without servers since: disabling leaves it alone, lists that are stored do not
      reach it, and servers that are found do not enable it. */
  lemma {:induction false} ServicesLeftAlone(r: Rules, lists: Lists, builtin: set<Topic>, luck: Luck,
                                             events: seq<Event>, more: seq<Event>, s: Service)
    requires more == [] || (more[0].Disable? && forall i :: 0 <= i < |more| ==> !more[i].Enable?)
    ensures var p0 := Created(lists, builtin, luck); var p, q := Run(r, p0, events), Run(r, p0, events + more);
      && (more != [] ==> !q.enabled)
      && (s in q.rpc && q.rpc[s].enabled <==>
            s in p.rpc && p.rpc[s].enabled && ServedThroughout(events, more, s))
  {
    if more == [] {
      assert events + more == events;
      ServedOnce(events, s);
      KnowsEnabled(r, lists, builtin, luck, events, s);
    } else {
      var before, all := more[..|more| - 1], events + more;
      ServicesLeftAlone(r, lists, builtin, luck, events, before, s);
      assert all[..|all| - 1] == events + before && all[|all| - 1] == more[|more| - 1];
      LeftAloneLonger(r, lists, builtin, luck, all, s);
      ServedLonger(events, more, s);
    }
  }

  lemma LeftAloneLonger(r: Rules, lists: Lists, builtin: set<Topic>, luck: Luck, events: seq<Event>, s: Service)
    requires events != []
    requires var e := events[|events| - 1];
      e.Disable? || (!Run(r, Created(lists, builtin, luck), events[..|events| - 1]).enabled && !e.Enable?)
    ensures var p0 := Created(lists, builtin, luck);
      var was, q := Run(r, p0, events[..|events| - 1]), Run(r, p0, events);
      && !q.enabled
      && (s in q.rpc && q.rpc[s].enabled <==> s in was.rpc && was.rpc[s].enabled && Served(events, s))
  {
    var before, e := events[..|events| - 1], events[|events| - 1];
    var was := Run(r, Created(lists, builtin, luck), before);
    ReachableIsConsistent(r, lists, builtin, luck, before);
    assert ServiceConsistent(OfService(was, s));
    ServicesAreIndependent(r, was, e, s);
    LeftAloneStep(r, OfService(was, s), e, s);
    KnowsEnabled(r, lists, builtin, luck, events, s);
  }

  /** An enabled bridge has a server. */
  lemma KnowsEnabled(r: Rules, lists: Lists, builtin: set<Topic>, luck: Luck, events: seq<Event>, s: Service)
    ensures var p := Run(r, Created(lists, builtin, luck), events);
      && (s in p.rpc && p.rpc[s].servers != {} <==> Served(events, s))
      && (s in p.rpc && p.rpc[s].enabled ==> Served(events, s))
  {
    var p := Run(r, Created(lists, builtin, luck), events);
    if s in p.rpc {
      ServersPresent(r, lists, builtin, luck, events, s);
    } else {
      forall x ensures !Present(events, s, x) { KnowsWhatHappened(r, lists, builtin, luck, events, s.request, s, x); }
    }
  }

  lemma LeftAloneStep(r: Rules, q: ServicePart, e: Event, s: Service)
    requires ServiceConsistent(q) && (e.Disable? || (!q.enabled && !e.Enable?))
    ensures var z := ServiceStep(r, q, e, s);
      && !z.enabled
      && (z.bridge.Some? && z.bridge.value.enabled <==>
            q.bridge.Some? && q.bridge.value.enabled && z.bridge.value.servers != {})
  {
  }
}
