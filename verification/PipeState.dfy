/**
 The topics and services of the pipe as a state machine: what each call and each discovery changes,
 and what holds in every state that can be reached.
 */
module PipeState {
  import opened Maybes
  import opened AllowedTopicList

  datatype Server = Server(participant: nat, guidPrefix: nat)

  /** A bridge for a service. Its endpoints are created when it is enabled for the first time, which
      may fail; it stays disabled as long as no server is known. */
  datatype RpcBridge = RpcBridge(enabled: bool, init: bool, servers: set<Server>) {
    function Enable(ok: bool): RpcBridge {
      if !enabled && servers != {} && (init || ok) then this.(enabled := true, init := true) else this
    }

    function Disable(): RpcBridge { this.(enabled := false) }

    function Discovered(s: Server): RpcBridge { this.(servers := servers + {s}) }

    function Removed(s: Server): RpcBridge {
      if servers - {s} == {} then this.(servers := {}, enabled := false) else this.(servers := servers - {s})
    }
  }

  datatype Lists = Lists(allow: set<Filter>, block: set<Filter>)

  /** Which bridges can be created, should the event create them. */
  datatype Luck = Luck(bridge: Topic -> bool, rpc: Service -> bool)

  /** `topics` and `services` say what is active; `bridges` says which bridges exist, and whether
      they are enabled. */
  datatype Pipe = Pipe(enabled: bool, lists: Lists, topics: map<Topic, bool>, bridges: map<Topic, bool>,
                       services: map<Service, bool>, rpc: map<Service, RpcBridge>)

  datatype Event =
    | Enable(luck: Luck)
    | Disable
    | Reload(lists: Lists, luck: Luck)
    | TopicFound(topic: Topic, luck: Luck)
    | ServiceFound(service: Service, server: Server, luck: Luck)
    | ServiceLost(service: Service, server: Server)

  predicate Allows(r: Rules, l: Lists, t: Topic) {
    IsAllowed(r, l.allow, l.block, t)
  }

  predicate AllowsService(r: Rules, l: Lists, s: Service) {
    IsServiceAllowed(r, l.allow, l.block, s)
  }

  // ---------------------------------------------------------------- the steps

  function Activate(p: Pipe, t: Topic, ok: bool): Pipe {
    p.(topics := p.topics[t := true], bridges := if t in p.bridges || ok then p.bridges[t := true] else p.bridges)
  }

  function Deactivate(p: Pipe, t: Topic): Pipe {
    p.(topics := p.topics[t := false], bridges := if t in p.bridges then p.bridges[t := false] else p.bridges)
  }

  /** All topics of a set activated, in any order. */
  function ActivateAll(p: Pipe, s: set<Topic>, luck: Luck): Pipe {
    p.(topics := map t | t in p.topics :: t in s || p.topics[t],
       bridges := map t | t in p.bridges.Keys + (set t | t in s && luck.bridge(t)) :: t in s || p.bridges[t])
  }

  function DeactivateAll(p: Pipe, s: set<Topic>): Pipe {
    p.(topics := map t | t in p.topics :: t !in s && p.topics[t],
       bridges := map t | t in p.bridges :: t !in s && p.bridges[t])
  }

  function EnableServices(p: Pipe, s: set<Service>, luck: Luck): Pipe {
    p.(rpc := map x | x in p.rpc :: if x in s then p.rpc[x].Enable(luck.rpc(x)) else p.rpc[x])
  }

  function AllowedOnes(r: Rules, l: Lists, topics: map<Topic, bool>): set<Topic> {
    set t | t in topics && Allows(r, l, t)
  }

  function ActiveServices(p: Pipe): set<Service> {
    set s | s in p.services && p.services[s]
  }

  /** Services brought in line with the lists. */
  function ReloadServices(r: Rules, p: Pipe, s: set<Service>, luck: Luck): Pipe {
    p.(services := map x | x in p.services :: if x in s then AllowsService(r, p.lists, x) else p.services[x],
       rpc := map x | x in p.rpc ::
         if x !in s then p.rpc[x]
         else if AllowsService(r, p.lists, x) then p.rpc[x].Enable(luck.rpc(x)) else p.rpc[x].Disable())
  }

  predicate Changes(r: Rules, p: Pipe, s: set<Topic>, t: Topic) {
    t in s && t in p.topics && p.topics[t] != Allows(r, p.lists, t)
  }

  /** Topics brought in line with the lists: a topic whose flag is right already is not touched. */
  function ReloadTopics(r: Rules, p: Pipe, s: set<Topic>, luck: Luck): Pipe {
    p.(topics := map t | t in p.topics :: if Changes(r, p, s, t) then Allows(r, p.lists, t) else p.topics[t],
       bridges := map t | t in p.bridges.Keys
           + (set t | t in s && Changes(r, p, s, t) && Allows(r, p.lists, t) && luck.bridge(t)) ::
         if Changes(r, p, s, t) then Allows(r, p.lists, t) else p.bridges[t])
  }

  function FindTopic(r: Rules, p: Pipe, t: Topic, luck: Luck): Pipe {
    if t in p.bridges then p
    else
      var q := if t in p.topics then p else p.(topics := p.topics[t := false]);
      if q.enabled && Allows(r, q.lists, t) then Activate(q, t, luck.bridge(t)) else q
  }

  function FindService(r: Rules, p: Pipe, s: Service, server: Server, luck: Luck): Pipe {
    var q := if s in p.rpc then p
      else p.(rpc := p.rpc[s := RpcBridge(false, false, {})],
              services := p.services[s := AllowsService(r, p.lists, s)]);
    var bridge := q.rpc[s].Discovered(server);
    q.(rpc := q.rpc[s :=
      if q.enabled && s in q.services && q.services[s] then bridge.Enable(luck.rpc(s)) else bridge])
  }

  function Step(r: Rules, p: Pipe, e: Event): Pipe {
    match e
    case Enable(luck) =>
      if p.enabled then p
      else
        var q := ActivateAll(p.(enabled := true), AllowedOnes(r, p.lists, p.topics), luck);
        EnableServices(q, ActiveServices(q), luck)
    case Disable =>
      if p.enabled then DeactivateAll(p.(enabled := false), p.topics.Keys) else p
    case Reload(lists, luck) =>
      if lists == p.lists then p
      else
        var q := p.(lists := lists);
        if q.enabled then ReloadServices(r, ReloadTopics(r, q, q.topics.Keys, luck), q.services.Keys, luck) else q
    case TopicFound(t, luck) => FindTopic(r, p, t, luck)
    case ServiceFound(s, server, luck) => FindService(r, p, s, server, luck)
    case ServiceLost(s, server) =>
      if s in p.rpc then p.(rpc := p.rpc[s := p.rpc[s].Removed(server)]) else p
  }

  function Run(r: Rules, p: Pipe, events: seq<Event>): Pipe {
    if events == [] then p else Step(r, Run(r, p, events[..|events| - 1]), events[|events| - 1])
  }

  /** A new pipe: disabled, with disabled bridges for those builtin topics it could create one for. */
  function Created(lists: Lists, builtin: set<Topic>, luck: Luck): Pipe {
    Pipe(false, lists, map t | t in builtin :: false, map t | t in builtin && luck.bridge(t) :: false, map[], map[])
  }

  // ---------------------------------------------------------------- one topic, one service

  /** What the pipe knows of one topic: its flag, and whether its bridge is enabled. */
  datatype TopicPart = TopicPart(enabled: bool, lists: Lists, flag: Maybe<bool>, bridge: Maybe<bool>)

  datatype ServicePart = ServicePart(enabled: bool, lists: Lists, flag: Maybe<bool>, bridge: Maybe<RpcBridge>)

  function OfTopic(p: Pipe, t: Topic): TopicPart {
    TopicPart(p.enabled, p.lists, if t in p.topics then Some(p.topics[t]) else None,
      if t in p.bridges then Some(p.bridges[t]) else None)
  }

  function OfService(p: Pipe, s: Service): ServicePart {
    ServicePart(p.enabled, p.lists, if s in p.services then Some(p.services[s]) else None,
      if s in p.rpc then Some(p.rpc[s]) else None)
  }

  /** The flag of a topic switched; only switching it on can create its bridge. */
  function Switched(q: TopicPart, on: bool, ok: bool): TopicPart {
    q.(flag := Some(on), bridge := if q.bridge.Some? || (on && ok) then Some(on) else None)
  }

  function TopicStep(r: Rules, q: TopicPart, e: Event, t: Topic): TopicPart {
    match e
    case Enable(luck) =>
      var q' := q.(enabled := true);
      if !q.enabled && q.flag.Some? && Allows(r, q.lists, t) then Switched(q', true, luck.bridge(t)) else q'
    case Disable =>
      if q.enabled && q.flag.Some? then Switched(q.(enabled := false), false, false) else q.(enabled := false)
    case Reload(lists, luck) =>
      var q' := q.(lists := lists);
      if lists == q.lists || !q.enabled || q.flag.None? || q.flag.value == Allows(r, lists, t) then q'
      else Switched(q', Allows(r, lists, t), luck.bridge(t))
    case TopicFound(x, luck) =>
      if x != t || q.bridge.Some? then q
      else if q.enabled && Allows(r, q.lists, t) then Switched(q, true, luck.bridge(t))
      else if q.flag.Some? then q else q.(flag := Some(false))
    case _ => q
  }

  function ServiceStep(r: Rules, q: ServicePart, e: Event, s: Service): ServicePart {
    match e
    case Enable(luck) =>
      if !q.enabled && q.flag == Some(true) && q.bridge.Some?
      then q.(enabled := true, bridge := Some(q.bridge.value.Enable(luck.rpc(s)))) else q.(enabled := true)
    case Disable => q.(enabled := false)
    case Reload(lists, luck) =>
      var q' := q.(lists := lists);
      if lists == q.lists || !q.enabled || q.flag.None? then q'
      else
        var on := AllowsService(r, lists, s);
        q'.(flag := Some(on),
            bridge := if q.bridge.None? then None
              else Some(if on then q.bridge.value.Enable(luck.rpc(s)) else q.bridge.value.Disable()))
    case ServiceFound(x, server, luck) =>
      if x != s then q
      else
        var q' := if q.bridge.Some? then q
          else q.(bridge := Some(RpcBridge(false, false, {})), flag := Some(AllowsService(r, q.lists, s)));
        var b := q'.bridge.value.Discovered(server);
        q'.(bridge := Some(if q.enabled && q'.flag == Some(true) then b.Enable(luck.rpc(s)) else b))
    case ServiceLost(x, server) =>
      if x != s || q.bridge.None? then q else q.(bridge := Some(q.bridge.value.Removed(server)))
    case TopicFound(_, _) => q
  }

  /** Topics do not influence each other: each goes its own way, whatever is on the others. A bridge
      without a topic does not exist. */
  lemma TopicsAreIndependent(r: Rules, p: Pipe, e: Event, t: Topic)
    requires p.bridges.Keys <= p.topics.Keys
    ensures OfTopic(Step(r, p, e), t) == TopicStep(r, OfTopic(p, t), e, t)
    ensures Step(r, p, e).bridges.Keys <= Step(r, p, e).topics.Keys
  {
    match e
    case Enable(luck) => TopicEnabled(r, p, luck, t);
    case Disable => TopicDisabled(r, p, t);
    case Reload(lists, luck) => TopicReloaded(r, p, lists, luck, t);
    case TopicFound(x, luck) => TopicIsFound(r, p, x, luck, t);
    case ServiceFound(_, _, _) =>
    case ServiceLost(_, _) =>
  }

  lemma TopicDisabled(r: Rules, p: Pipe, t: Topic)
    requires p.bridges.Keys <= p.topics.Keys
    ensures OfTopic(Step(r, p, Disable), t) == TopicStep(r, OfTopic(p, t), Disable, t)
    ensures Step(r, p, Disable).bridges.Keys <= Step(r, p, Disable).topics.Keys
  {
  }

  lemma OfActivated(p: Pipe, x: Topic, ok: bool, t: Topic)
    requires p.bridges.Keys <= p.topics.Keys
    ensures OfTopic(Activate(p, x, ok), t) == if t == x then Switched(OfTopic(p, t), true, ok) else OfTopic(p, t)
    ensures Activate(p, x, ok).bridges.Keys <= Activate(p, x, ok).topics.Keys
  {
  }

  lemma TopicIsFound(r: Rules, p: Pipe, x: Topic, luck: Luck, t: Topic)
    requires p.bridges.Keys <= p.topics.Keys
    ensures OfTopic(Step(r, p, TopicFound(x, luck)), t) == TopicStep(r, OfTopic(p, t), TopicFound(x, luck), t)
    ensures Step(r, p, TopicFound(x, luck)).bridges.Keys <= Step(r, p, TopicFound(x, luck)).topics.Keys
  {
    if x !in p.bridges {
      var q := if x in p.topics then p else p.(topics := p.topics[x := false]);
      OfActivated(q, x, luck.bridge(x), t);
    }
  }

  lemma TopicEnabled(r: Rules, p: Pipe, luck: Luck, t: Topic)
    requires p.bridges.Keys <= p.topics.Keys
    ensures OfTopic(Step(r, p, Enable(luck)), t) == TopicStep(r, OfTopic(p, t), Enable(luck), t)
    ensures Step(r, p, Enable(luck)).bridges.Keys <= Step(r, p, Enable(luck)).topics.Keys
  {
  }

  lemma TopicReloaded(r: Rules, p: Pipe, lists: Lists, luck: Luck, t: Topic)
    requires p.bridges.Keys <= p.topics.Keys
    ensures OfTopic(Step(r, p, Reload(lists, luck)), t) == TopicStep(r, OfTopic(p, t), Reload(lists, luck), t)
    ensures Step(r, p, Reload(lists, luck)).bridges.Keys <= Step(r, p, Reload(lists, luck)).topics.Keys
  {
  }

  lemma ServicesAreIndependent(r: Rules, p: Pipe, e: Event, s: Service)
    ensures OfService(Step(r, p, e), s) == ServiceStep(r, OfService(p, s), e, s)
  {
    match e
    case Enable(luck) => ServiceEnabled(r, p, luck, s);
    case Disable =>
    case Reload(lists, luck) => ServiceReloaded(r, p, lists, luck, s);
    case TopicFound(_, _) =>
    case ServiceFound(x, server, luck) => ServiceIsFound(r, p, x, server, luck, s);
    case ServiceLost(_, _) =>
  }

  lemma ServiceEnabled(r: Rules, p: Pipe, luck: Luck, s: Service)
    ensures OfService(Step(r, p, Enable(luck)), s) == ServiceStep(r, OfService(p, s), Enable(luck), s)
  {
  }

  lemma ServiceReloaded(r: Rules, p: Pipe, lists: Lists, luck: Luck, s: Service)
    ensures OfService(Step(r, p, Reload(lists, luck)), s) == ServiceStep(r, OfService(p, s), Reload(lists, luck), s)
  {
  }

  lemma ServiceIsFound(r: Rules, p: Pipe, x: Service, server: Server, luck: Luck, s: Service)
    ensures OfService(Step(r, p, ServiceFound(x, server, luck)), s) ==
      ServiceStep(r, OfService(p, s), ServiceFound(x, server, luck), s)
  {
  }

  // ---------------------------------------------------------------- what always holds

  /** A topic is active just when the pipe is enabled and the topic allowed; its bridge, if it has one,
      is enabled just when the topic is active. */
  predicate TopicConsistent(r: Rules, q: TopicPart, t: Topic) {
    && (q.flag.Some? ==> q.flag.value == (q.enabled && Allows(r, q.lists, t)))
    && (q.bridge.Some? ==> q.flag == q.bridge)
  }

  /** An enabled service bridge belongs to an active service with a server. While the pipe is enabled
      the converse holds too, once the bridge has its endpoints. */
  predicate ServiceConsistent(q: ServicePart) {
    && (q.flag.Some? <==> q.bridge.Some?)
    && (q.bridge.Some? ==>
          var b := q.bridge.value;
          && (b.enabled ==> q.flag.value && b.servers != {} && b.init)
          && (q.enabled && q.flag.value && b.servers != {} && b.init ==> b.enabled))
  }

  ghost predicate Consistent(r: Rules, p: Pipe) {
    && (forall t: Topic :: TopicConsistent(r, OfTopic(p, t), t))
    && (forall s: Service :: ServiceConsistent(OfService(p, s)))
  }

  lemma BridgesHaveTopics(r: Rules, p: Pipe)
    requires Consistent(r, p)
    ensures p.bridges.Keys <= p.topics.Keys
  {
    forall t | t in p.bridges ensures t in p.topics {
      assert TopicConsistent(r, OfTopic(p, t), t);
    }
  }

  lemma TopicStepKeeps(r: Rules, q: TopicPart, e: Event, t: Topic)
    requires TopicConsistent(r, q, t)
    ensures TopicConsistent(r, TopicStep(r, q, e, t), t)
  {
  }

  lemma ServiceStepKeeps(r: Rules, q: ServicePart, e: Event, s: Service)
    requires ServiceConsistent(q)
    ensures ServiceConsistent(ServiceStep(r, q, e, s))
  {
  }

  lemma StepKeepsConsistent(r: Rules, p: Pipe, e: Event)
    requires Consistent(r, p)
    ensures Consistent(r, Step(r, p, e))
  {
    BridgesHaveTopics(r, p);
    var z := Step(r, p, e);
    forall t: Topic
      ensures TopicConsistent(r, OfTopic(z, t), t)
    {
      TopicsAreIndependent(r, p, e, t);
      TopicStepKeeps(r, OfTopic(p, t), e, t);
    }
    forall s: Service
      ensures ServiceConsistent(OfService(z, s))
    {
      ServicesAreIndependent(r, p, e, s);
      ServiceStepKeeps(r, OfService(p, s), e, s);
    }
  }

  /** In every reachable state, whatever bridges could not be created, the flags, the bridges and the
      lists agree. */
  lemma {:induction false} ReachableIsConsistent(r: Rules, lists: Lists, builtin: set<Topic>, luck: Luck,
                                                 events: seq<Event>)
    ensures Consistent(r, Run(r, Created(lists, builtin, luck), events))
  {
    if events != [] {
      var before := events[..|events| - 1];
      ReachableIsConsistent(r, lists, builtin, luck, before);
      StepKeepsConsistent(r, Run(r, Created(lists, builtin, luck), before), events[|events| - 1]);
    }
  }

  // ---------------------------------------------------------------- nothing is missing

  function LuckOf(e: Event): Luck {
    match e
    case Enable(luck) => luck
    case Reload(_, luck) => luck
    case TopicFound(_, luck) => luck
    case ServiceFound(_, _, luck) => luck
    case _ => Luck(t => true, s => true)
  }

  ghost predicate Lucky(l: Luck) {
    (forall t: Topic :: l.bridge(t)) && forall s: Service :: l.rpc(s)
  }

  predicate TopicComplete(q: TopicPart) {
    q.flag == Some(true) ==> q.bridge.Some?
  }

  predicate ServiceComplete(q: ServicePart) {
    q.enabled && q.flag == Some(true) && q.bridge.Some? && q.bridge.value.servers != {} ==> q.bridge.value.init
  }

  /** Every active topic has its bridge, and every active service with a server has its endpoints. */
  ghost predicate Complete(p: Pipe) {
    && (forall t: Topic :: TopicComplete(OfTopic(p, t)))
    && (forall s: Service :: ServiceComplete(OfService(p, s)))
  }

  lemma LuckyStepKeepsComplete(r: Rules, p: Pipe, e: Event)
    requires Consistent(r, p) && Complete(p) && Lucky(LuckOf(e))
    ensures Complete(Step(r, p, e))
  {
    BridgesHaveTopics(r, p);
    forall t: Topic
      ensures TopicComplete(OfTopic(Step(r, p, e), t))
    {
      TopicsAreIndependent(r, p, e, t);
      assert TopicConsistent(r, OfTopic(p, t), t) && TopicComplete(OfTopic(p, t));
    }
    forall s: Service
      ensures ServiceComplete(OfService(Step(r, p, e), s))
    {
      ServicesAreIndependent(r, p, e, s);
      assert ServiceConsistent(OfService(p, s)) && ServiceComplete(OfService(p, s));
    }
  }

  /** If no creation fails, every active topic has an enabled bridge, and while the pipe is enabled
      every active service with a server has one. */
  lemma {:induction false} LuckyRunIsComplete(r: Rules, lists: Lists, builtin: set<Topic>, luck: Luck,
                                              events: seq<Event>)
    requires forall e :: e in events ==> Lucky(LuckOf(e))
    ensures Complete(Run(r, Created(lists, builtin, luck), events))
  {
    if events != [] {
      var before := events[..|events| - 1];
      LuckyRunIsComplete(r, lists, builtin, luck, before);
      ReachableIsConsistent(r, lists, builtin, luck, before);
      LuckyStepKeepsComplete(r, Run(r, Created(lists, builtin, luck), before), events[|events| - 1]);
    }
  }

  /** Disabling and enabling again brings an enabled pipe back to the same state, bridges and all. */
  lemma DisableEnableRestores(r: Rules, p: Pipe, luck: Luck, t: Topic, s: Service)
    requires Consistent(r, p) && Complete(p) && p.enabled
    ensures var q := Step(r, Step(r, p, Disable), Enable(luck));
      OfTopic(q, t) == OfTopic(p, t) && OfService(q, s) == OfService(p, s)
  {
    var q := Step(r, p, Disable);
    BridgesHaveTopics(r, p);
    TopicsAreIndependent(r, p, Disable, t);
    TopicsAreIndependent(r, q, Enable(luck), t);
    ServicesAreIndependent(r, p, Disable, s);
    ServicesAreIndependent(r, q, Enable(luck), s);
    assert TopicConsistent(r, OfTopic(p, t), t) && TopicComplete(OfTopic(p, t));
    assert ServiceConsistent(OfService(p, s)) && ServiceComplete(OfService(p, s));
  }

  // ---------------------------------------------------------------- which lists a service follows

  /** The lists a service was last held against: those in force when it was found, or those of the
      last reload of the enabled pipe since. */
  ghost function HeldAgainst(r: Rules, p0: Pipe, events: seq<Event>, s: Service): Lists
  {
    if events == [] then p0.lists
    else
      var before, e := events[..|events| - 1], events[|events| - 1];
      var p := Run(r, p0, before);
      if e.Reload? && e.lists != p.lists && p.enabled then e.lists
      else if s in p.services then HeldAgainst(r, p0, before, s)
      else p.lists
  }

  lemma FlagAfterStep(r: Rules, p: Pipe, e: Event, s: Service)
    requires ServiceConsistent(OfService(p, s)) && s in Step(r, p, e).services
    ensures Step(r, p, e).services[s] ==
      if e.Reload? && e.lists != p.lists && p.enabled then AllowsService(r, e.lists, s)
      else if s in p.services then p.services[s]
      else AllowsService(r, p.lists, s)
  {
    ServicesAreIndependent(r, p, e, s);
  }

  /** A service is active just when the lists it was last held against allow it. */
  lemma {:induction false} ServicesFollowLists(r: Rules, lists: Lists, builtin: set<Topic>, luck: Luck,
                                               events: seq<Event>, s: Service)
    requires s in Run(r, Created(lists, builtin, luck), events).services
    ensures var p0 := Created(lists, builtin, luck);
      Run(r, p0, events).services[s] == AllowsService(r, HeldAgainst(r, p0, events, s), s)
  {
    var p0 := Created(lists, builtin, luck);
    var before, e := events[..|events| - 1], events[|events| - 1];
    ReachableIsConsistent(r, lists, builtin, luck, before);
    FlagAfterStep(r, Run(r, p0, before), e, s);
    if s in Run(r, p0, before).services { ServicesFollowLists(r, lists, builtin, luck, before, s); }
  }

  /** No list is replaced while the pipe is disabled. */
  predicate ReloadsWhileEnabled(r: Rules, p0: Pipe, events: seq<Event>) {
    forall i :: 0 <= i < |events| && events[i].Reload? && events[i].lists != Run(r, p0, events[..i]).lists ==>
      Run(r, p0, events[..i]).enabled
  }

  /** If lists are only replaced while the pipe is enabled, services are held against the current ones. */
  lemma {:induction false} HeldAgainstCurrent(r: Rules, p0: Pipe, events: seq<Event>, s: Service)
    requires ReloadsWhileEnabled(r, p0, events)
    ensures HeldAgainst(r, p0, events, s) == Run(r, p0, events).lists
  {
    if events != [] {
      var before, e := events[..|events| - 1], events[|events| - 1];
      assert forall i :: 0 <= i < |before| ==> before[..i] == events[..i];
      HeldAgainstCurrent(r, p0, before, s);
      ListsAfterStep(r, Run(r, p0, before), e);
    }
  }

  lemma ListsAfterStep(r: Rules, p: Pipe, e: Event)
    ensures Step(r, p, e).lists == if e.Reload? then e.lists else p.lists
  {
    ServicesAreIndependent(r, p, e, Service(Topic("", ""), Topic("", "")));
  }

  /** The promise for services: while the pipe is enabled, a service bridge with servers and endpoints
      is enabled just when the current lists allow both topics of the service, provided lists are only
      replaced while the pipe is enabled; in general, just when the lists it was last held against do. */
  lemma ServiceBridgesFollowLists(r: Rules, lists: Lists, builtin: set<Topic>, luck: Luck, events: seq<Event>,
                                  s: Service)
    requires var p := Run(r, Created(lists, builtin, luck), events);
      p.enabled && s in p.rpc && p.rpc[s].servers != {} && p.rpc[s].init
    ensures var p0 := Created(lists, builtin, luck); var p := Run(r, p0, events);
      && p.rpc[s].enabled == AllowsService(r, HeldAgainst(r, p0, events, s), s)
      && (ReloadsWhileEnabled(r, p0, events) ==> p.rpc[s].enabled == AllowsService(r, p.lists, s))
  {
    var p0 := Created(lists, builtin, luck);
    ReachableIsConsistent(r, lists, builtin, luck, events);
    assert ServiceConsistent(OfService(Run(r, p0, events), s));
    ServicesFollowLists(r, lists, builtin, luck, events, s);
    if ReloadsWhileEnabled(r, p0, events) { HeldAgainstCurrent(r, p0, events, s); }
  }

  /** Without that proviso the promise fails, for any two lists that disagree on the service: when the
      second replaces the first while the pipe is disabled, the service stays enabled although blocked,
      and reloading the same lists again does not help. It was not even disabled with the pipe. */
  lemma StaleService(r: Rules, l: Lists, blocking: Lists, server: Server, luck: Luck, s: Service)
    requires AllowsService(r, l, s) && !AllowsService(r, blocking, s) && luck.rpc(s)
    ensures var p0 := Created(l, {}, luck);
      var p := Run(r, p0, [Enable(luck), ServiceFound(s, server, luck), Disable]);
      !p.enabled && s in p.rpc && p.rpc[s].enabled
    ensures var p0 := Created(l, {}, luck);
      var p := Run(r, p0, [Enable(luck), ServiceFound(s, server, luck), Disable, Reload(blocking, luck), Enable(luck)]);
      && p.enabled && s in p.rpc && p.rpc[s].enabled && !AllowsService(r, p.lists, s)
      && Step(r, p, Reload(blocking, luck)) == p
  {
    var p0 := Created(l, {}, luck);
    var e5 := [Enable(luck), ServiceFound(s, server, luck), Disable, Reload(blocking, luck), Enable(luck)];
    var e3 := [Enable(luck), ServiceFound(s, server, luck), Disable];
    assert e5[..4][..3] == e3 && e3[..2][..1][..0] == [];
    assert Run(r, p0, e3[..2][..1][..0]) == p0;
    assert {} + {server} == {server};
    ServicesAreIndependent(r, Run(r, p0, []), Enable(luck), s);
    assert OfService(Run(r, p0, e3[..2][..1]), s) == ServicePart(true, l, None, None);
    ServicesAreIndependent(r, Run(r, p0, e3[..2][..1]), ServiceFound(s, server, luck), s);
    ServicesAreIndependent(r, Run(r, p0, e3[..2]), Disable, s);
    assert OfService(Run(r, p0, e3), s).bridge == Some(RpcBridge(true, true, {server}));
    ServicesAreIndependent(r, Run(r, p0, e3), Reload(blocking, luck), s);
    ServicesAreIndependent(r, Run(r, p0, e5[..4]), Enable(luck), s);
    assert OfService(Run(r, p0, e5), s).bridge == Some(RpcBridge(true, true, {server}));
  }
}
