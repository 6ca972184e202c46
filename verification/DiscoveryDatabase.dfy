/**
 The database of discovered endpoints, and what the pipe is told about topics and services when
 endpoints are added, updated and erased.
 */
module DiscoveryDatabase {
  import opened AllowedTopicList

  datatype Kind = Reader | Writer

  datatype Endpoint = Endpoint(guid: nat, kind: Kind, topic: Topic, discoverer: nat, active: bool)

  datatype Operation = Add(endpoint: Endpoint) | Update(endpoint: Endpoint) | Erase(endpoint: Endpoint)

  datatype Trigger = OnReader | OnWriter | OnAny | OnNone

  /** What the pipe is told: a topic is used for the first time by a participant, or no longer used;
      a service has one server more, or one less. */
  datatype Signal =
    | TopicUsed(topic: Topic, discoverer: nat)
    | TopicUnused(topic: Topic, discoverer: nat)
    | ServerFound(endpoint: Endpoint)
    | ServerLost(endpoint: Endpoint)

  datatype Setup = Setup(trigger: Trigger, removeUnused: bool, isService: Topic -> bool, isServer: Endpoint -> bool)

  type Entities = map<nat, Endpoint>

  predicate KindCounts(c: Setup, e: Endpoint) {
    match c.trigger
    case OnReader => e.kind.Reader?
    case OnWriter => e.kind.Writer?
    case OnAny => true
    case OnNone => false
  }

  predicate Uses(c: Setup, e: Endpoint, t: Topic, discoverer: nat) {
    e.active && KindCounts(c, e) && e.topic == t && e.discoverer == discoverer
  }

  /** The active endpoints of the kind that counts, for a topic and the participant that found them. */
  function Users(c: Setup, m: Entities, t: Topic, discoverer: nat): set<nat> {
    set g | g in m && Uses(c, m[g], t, discoverer)
  }

  /** Which kinds count: readers, writers, both or none, as the trigger says. */
  lemma KindsThatCount(c: Setup, m: Entities, t: Topic, d: nat, g: nat)
    ensures g in Users(c, m, t, d) <==>
      && g in m && m[g].active && m[g].topic == t && m[g].discoverer == d
      && (c.trigger == OnAny || (c.trigger == OnReader && m[g].kind == Reader)
          || (c.trigger == OnWriter && m[g].kind == Writer))
  {
  }

  // ---------------------------------------------------------------- what the callbacks do

  predicate IsRelevant(c: Setup, m: Entities, e: Endpoint) {
    && KindCounts(c, e)
    && var users := Users(c, m, e.topic, e.discoverer);
    if e.active then |users| == 1 && e.guid in users else |users| == 0
  }

  function OnDiscovered(c: Setup, m: Entities, e: Endpoint): seq<Signal> {
    if c.isService(e.topic) then (if KindCounts(c, e) && c.isServer(e) then [ServerFound(e)] else [])
    else if IsRelevant(c, m, e) then [TopicUsed(e.topic, e.discoverer)] else []
  }

  function OnRemoved(c: Setup, m: Entities, e: Endpoint): seq<Signal> {
    if c.isService(e.topic) then (if c.isServer(e) then [ServerLost(e)] else [])
    else if c.removeUnused && IsRelevant(c, m, e) then [TopicUnused(e.topic, e.discoverer)] else []
  }

  function OnUpdated(c: Setup, m: Entities, e: Endpoint): seq<Signal> {
    if c.isService(e.topic) then [] else if e.active then OnDiscovered(c, m, e) else OnRemoved(c, m, e)
  }

  /** An operation carried out: the database after it, the signals, and whether it was consistent. */
  datatype Outcome = Outcome(entities: Entities, signals: seq<Signal>, ok: bool)

  function Apply(c: Setup, m: Entities, op: Operation): Outcome {
    var e := op.endpoint;
    match op
    case Add(_) =>
      if e.guid in m && m[e.guid].active then Outcome(m, [], false)
      else if e.guid in m then Outcome(m[e.guid := e], [], true)
      else var m' := m[e.guid := e]; Outcome(m', OnDiscovered(c, m', e), true)
    case Update(_) =>
      if e.guid !in m then Outcome(m, [], false)
      else var m' := m[e.guid := e]; Outcome(m', OnUpdated(c, m', e), true)
    case Erase(_) =>
      if e.guid !in m then Outcome(m, [], false)
      else var m' := m - {e.guid}; Outcome(m', OnRemoved(c, m', e), true)
  }

  /** All operations in order: the database and all signals. */
  function ApplyAll(c: Setup, ops: seq<Operation>): Outcome {
    if ops == [] then Outcome(map[], [], true)
    else
      var before := ApplyAll(c, ops[..|ops| - 1]);
      var last := Apply(c, before.entities, ops[|ops| - 1]);
      Outcome(last.entities, before.signals + last.signals, last.ok)
  }

  // ---------------------------------------------------------------- when a topic is signalled

  /** The signals about one topic and participant. */
  function About(s: seq<Signal>, t: Topic, discoverer: nat): seq<Signal> {
    if s == [] then []
    else
      var last := s[|s| - 1];
      About(s[..|s| - 1], t, discoverer)
        + if last == TopicUsed(t, discoverer) || last == TopicUnused(t, discoverer) then [last] else []
  }

  /** What the pipe should be told: a topic got its first user, or lost its last one. */
  function Change(c: Setup, users: set<nat>, users': set<nat>, t: Topic, d: nat): seq<Signal> {
    if users == {} && users' != {} then [TopicUsed(t, d)]
    else if c.removeUnused && users != {} && users' == {} then [TopicUnused(t, d)]
    else []
  }

  function ChangeBy(c: Setup, m: Entities, op: Operation, t: Topic, d: nat): seq<Signal> {
    Change(c, Users(c, m, t, d), Users(c, Apply(c, m, op).entities, t, d), t, d)
  }

  predicate Counts(c: Setup, e: Endpoint, t: Topic, d: nat) {
    KindCounts(c, e) && e.topic == t && e.discoverer == d
  }

  /** When an operation tells the pipe exactly the change. An addition does so unless the topic is unused
      and a known endpoint is revived, or a new one is inactive. An update to active does so unless the
      endpoint is the only user already. Where unused entities are removed, whatever takes an endpoint away
      does so if it was not the only user; but an update to inactive, or the erasure of an inactive endpoint,
      does so if there was any user. */
  predicate Exact(c: Setup, m: Entities, op: Operation, t: Topic, d: nat) {
    var e, users := op.endpoint, Users(c, m, t, d);
    match op
    case Add(_) =>
      (e.guid in m && m[e.guid].active) || (Counts(c, e, t, d) && users == {} ==> (e.active <==> e.guid !in m))
    case Update(_) =>
      e.guid in m ==>
        if Uses(c, e, t, d) then users != {e.guid}
        else c.removeUnused ==> users != if Counts(c, e, t, d) then {} else {e.guid}
    case Erase(_) =>
      e.guid in m && c.removeUnused ==> users != if Counts(c, e, t, d) && !e.active then {} else {e.guid}
  }

  /** The users of a topic after an operation differ in at most the endpoint operated on. */
  lemma UsersAfter(c: Setup, m: Entities, op: Operation, t: Topic, d: nat)
    ensures var e, r := op.endpoint, Apply(c, m, op); var users := Users(c, m, t, d);
      Users(c, r.entities, t, d) ==
        if !r.ok then users
        else if !op.Erase? && Uses(c, e, t, d) then users + {e.guid}
        else users - {e.guid}
  {
    var g := op.endpoint.guid;
    var m' := Apply(c, m, op).entities;
    assert forall x :: x != g ==> (x in m <==> x in m') && (x in m ==> m'[x] == m[x]);
  }

  lemma Sizes(s: set<nat>, g: nat)
    ensures |s| == 0 <==> s == {}
    ensures |s| == 1 && g in s <==> s == {g}
  {
    if |s| == 1 && g in s {
      assert |s - {g}| == 0;
    }
  }

  lemma AboutOne(s: seq<Signal>, t: Topic, d: nat)
    requires |s| <= 1
    ensures About(s, t, d) == if s == [TopicUsed(t, d)] || s == [TopicUnused(t, d)] then s else []
  {
    if |s| == 1 { assert s == [s[0]] && s[..0] == []; }
  }

  lemma RelevantMeans(c: Setup, m: Entities, e: Endpoint)
    ensures IsRelevant(c, m, e) <==>
      KindCounts(c, e) && Users(c, m, e.topic, e.discoverer) == if e.active then {e.guid} else {}
  {
    Sizes(Users(c, m, e.topic, e.discoverer), e.guid);
  }

  /** What the callbacks say about a topic depends on its users only. */
  lemma AboutCallbacks(c: Setup, m: Entities, e: Endpoint, t: Topic, d: nat)
    requires !c.isService(t)
    ensures var relevant := Counts(c, e, t, d) && Users(c, m, t, d) == if e.active then {e.guid} else {};
      && About(OnDiscovered(c, m, e), t, d) == (if relevant then [TopicUsed(t, d)] else [])
      && About(OnRemoved(c, m, e), t, d) == (if relevant && c.removeUnused then [TopicUnused(t, d)] else [])
  {
    RelevantMeans(c, m, e);
    AboutOne(OnDiscovered(c, m, e), t, d);
    AboutOne(OnRemoved(c, m, e), t, d);
  }

  /** For every operation on every database: the pipe is told exactly the change just if the operation is
      exact. */
  lemma SignalsChanges(c: Setup, m: Entities, op: Operation, t: Topic, d: nat)
    requires !c.isService(t)
    ensures About(Apply(c, m, op).signals, t, d) == ChangeBy(c, m, op, t, d) <==> Exact(c, m, op, t, d)
  {
    match op
    case Add(e) => AddSignals(c, m, e, t, d);
    case Update(e) => UpdateSignals(c, m, e, t, d);
    case Erase(e) => EraseSignals(c, m, e, t, d);
  }

  lemma AddSignals(c: Setup, m: Entities, e: Endpoint, t: Topic, d: nat)
    requires !c.isService(t)
    ensures About(Apply(c, m, Add(e)).signals, t, d) == ChangeBy(c, m, Add(e), t, d) <==> Exact(c, m, Add(e), t, d)
  {
    UsersAfter(c, m, Add(e), t, d);
    AboutCallbacks(c, m[e.guid := e], e, t, d);
    assert e.guid in Users(c, m, t, d) ==> e.guid in m && m[e.guid].active;
    AddingIsExact(Users(c, m, t, d), Users(c, Apply(c, m, Add(e)).entities, t, d), e.guid);
  }

  lemma AddingIsExact(users: set<nat>, users': set<nat>, g: nat)
    requires users' == users + {g} || users' == users - {g}
    ensures g !in users && users' == users + {g} ==> (users' == {g} <==> users == {}) && users' != {}
    ensures users' == users - {g} && g !in users ==> users' == users
  {
    if g !in users && users' == users + {g} && users' == {g} {
      assert users == users' - {g};
    }
  }

  lemma UpdateSignals(c: Setup, m: Entities, e: Endpoint, t: Topic, d: nat)
    requires !c.isService(t)
    ensures About(Apply(c, m, Update(e)).signals, t, d) == ChangeBy(c, m, Update(e), t, d) <==>
      Exact(c, m, Update(e), t, d)
  {
    UsersAfter(c, m, Update(e), t, d);
    AboutCallbacks(c, m[e.guid := e], e, t, d);
    TakingAway(Users(c, m, t, d), e.guid);
  }

  lemma EraseSignals(c: Setup, m: Entities, e: Endpoint, t: Topic, d: nat)
    requires !c.isService(t)
    ensures About(Apply(c, m, Erase(e)).signals, t, d) == ChangeBy(c, m, Erase(e), t, d) <==>
      Exact(c, m, Erase(e), t, d)
  {
    UsersAfter(c, m, Erase(e), t, d);
    AboutCallbacks(c, m - {e.guid}, e, t, d);
    TakingAway(Users(c, m, t, d), e.guid);
  }

  lemma TakingAway(users: set<nat>, g: nat)
    ensures users - {g} == {} <==> users == {} || users == {g}
    ensures users + {g} == {g} <==> users == {} || users == {g}
    ensures users - {g} != {g} && users + {g} != {}
  {
    if users - {g} == {} && users != {} { assert users == {g}; }
    if users + {g} == {g} { assert users - {g} == {}; }
    assert g in users + {g} && g !in users - {g};
  }

  /** A new active endpoint is added, or a known one is updated in its activity only. */
  predicate Regular(m: Entities, op: Operation) {
    match op
    case Add(e) => e.guid !in m && e.active
    case Update(e) => e.guid in m && m[e.guid] == e.(active := !e.active)
    case Erase(_) => false
  }

  /** Such operations are exact, whatever the database holds. */
  lemma RegularIsExact(c: Setup, m: Entities, op: Operation, t: Topic, d: nat)
    requires Regular(m, op)
    ensures Exact(c, m, op, t, d)
  {
    var e := op.endpoint;
    if op.Update? {
      assert e.guid in Users(c, m, t, d) <==> !e.active && Counts(c, e, t, d);
    }
  }

  lemma {:induction false} AboutConcat(a: seq<Signal>, b: seq<Signal>, t: Topic, d: nat)
    ensures About(a + b, t, d) == About(a, t, d) + About(b, t, d)
  {
    if b == [] {
      assert a + b == a;
    } else {
      AboutConcat(a, b[..|b| - 1], t, d);
      assert (a + b)[..|a + b| - 1] == a + b[..|b| - 1];
    }
  }

  /** All changes of the use of a topic, in order. */
  function Changes(c: Setup, ops: seq<Operation>, t: Topic, d: nat): seq<Signal> {
    if ops == [] then []
    else
      var before := ops[..|ops| - 1];
      Changes(c, before, t, d) + ChangeBy(c, ApplyAll(c, before).entities, ops[|ops| - 1], t, d)
  }

  /** The operation at a position is exact in the database it meets. */
  predicate ExactAt(c: Setup, ops: seq<Operation>, i: nat, t: Topic, d: nat)
    requires i < |ops|
  {
    Exact(c, ApplyAll(c, ops[..i]).entities, ops[i], t, d)
  }

  predicate ExactRun(c: Setup, ops: seq<Operation>, t: Topic, d: nat) {
    forall i :: 0 <= i < |ops| ==> ExactAt(c, ops, i, t, d)
  }

  /** What the pipe was told about a topic up to a moment of a run, is all that happened to it. */
  predicate Told(c: Setup, ops: seq<Operation>, k: nat, t: Topic, d: nat)
    requires k <= |ops|
  {
    About(ApplyAll(c, ops[..k]).signals, t, d) == Changes(c, ops[..k], t, d)
  }

  /** At every moment of a run the pipe has been told just what happened, exactly if all operations of the
      run are exact. */
  lemma RunsTellChanges(c: Setup, ops: seq<Operation>, t: Topic, d: nat)
    requires !c.isService(t)
    ensures ExactRun(c, ops, t, d) <==> forall k :: 0 <= k <= |ops| ==> Told(c, ops, k, t, d)
  {
    if ExactRun(c, ops, t, d) {
      forall k | 0 <= k <= |ops|
        ensures Told(c, ops, k, t, d)
      {
        ExactTells(c, ops, k, t, d);
      }
    }
    if forall k :: 0 <= k <= |ops| ==> Told(c, ops, k, t, d) {
      forall i | 0 <= i < |ops|
        ensures ExactAt(c, ops, i, t, d)
      {
        assert Told(c, ops, i, t, d) && Told(c, ops, i + 1, t, d);
        ToldNext(c, ops, i, t, d);
      }
    }
  }

  lemma {:induction false} ExactTells(c: Setup, ops: seq<Operation>, k: nat, t: Topic, d: nat)
    requires !c.isService(t) && ExactRun(c, ops, t, d) && k <= |ops|
    ensures Told(c, ops, k, t, d)
  {
    if k > 0 {
      ExactTells(c, ops, k - 1, t, d);
      assert ExactAt(c, ops, k - 1, t, d);
      ToldNext(c, ops, k - 1, t, d);
    }
  }

  lemma ToldNext(c: Setup, ops: seq<Operation>, k: nat, t: Topic, d: nat)
    requires !c.isService(t) && k < |ops| && Told(c, ops, k, t, d)
    ensures Told(c, ops, k + 1, t, d) <==> ExactAt(c, ops, k, t, d)
  {
    var m := ApplyAll(c, ops[..k]);
    var more := Apply(c, m.entities, ops[k]).signals;
    assert ops[..k + 1][..k] == ops[..k];
    SignalsChanges(c, m.entities, ops[k], t, d);
    AboutConcat(m.signals, more, t, d);
    SameTail(About(m.signals, t, d), About(more, t, d), ChangeBy(c, m.entities, ops[k], t, d));
  }

  lemma SameTail(a: seq<Signal>, x: seq<Signal>, y: seq<Signal>)
    ensures a + x == a + y <==> x == y
  {
    assert (a + x)[|a|..] == x && (a + y)[|a|..] == y;
  }

  /** Used and unused in turn, beginning with used. */
  predicate Alternates(s: seq<Signal>) {
    forall i :: 0 <= i < |s| ==> (s[i].TopicUsed? <==> i % 2 == 0) && (s[i].TopicUnused? <==> i % 2 == 1)
  }

  lemma {:induction false} ChangesAlternate(c: Setup, ops: seq<Operation>, t: Topic, d: nat)
    requires c.removeUnused
    ensures Alternates(Changes(c, ops, t, d))
    ensures Users(c, ApplyAll(c, ops).entities, t, d) != {} <==> |Changes(c, ops, t, d)| % 2 == 1
  {
    if ops == [] {
      assert Users(c, map[], t, d) == {};
    } else {
      var before, op := ops[..|ops| - 1], ops[|ops| - 1];
      ChangesAlternate(c, before, t, d);
      var m := ApplyAll(c, before).entities;
      AlternatesOn(Changes(c, before, t, d), Users(c, m, t, d), Users(c, Apply(c, m, op).entities, t, d), c, t, d);
    }
  }

  lemma AlternatesOn(s: seq<Signal>, users: set<nat>, users': set<nat>, c: Setup, t: Topic, d: nat)
    requires Alternates(s) && (users != {} <==> |s| % 2 == 1) && c.removeUnused
    ensures var z := s + Change(c, users, users', t, d); Alternates(z) && (users' != {} <==> |z| % 2 == 1)
  {
  }

  /** Over any run of exact operations the signals about a topic and a participant alternate, and the last
      one tells whether the topic is in use. */
  lemma SignalsAlternate(c: Setup, ops: seq<Operation>, t: Topic, d: nat)
    requires ExactRun(c, ops, t, d) && !c.isService(t) && c.removeUnused
    ensures var s := About(ApplyAll(c, ops).signals, t, d); var users := Users(c, ApplyAll(c, ops).entities, t, d);
      Alternates(s) && (users != {} <==> |s| % 2 == 1)
  {
    RunsTellChanges(c, ops, t, d);
    assert ops[..|ops|] == ops && Told(c, ops, |ops|, t, d);
    ChangesAlternate(c, ops, t, d);
  }

  /** The first endpoint of all, by trigger and kind: whether its topic is signalled. */
  lemma FirstEndpoint(c: Setup, e: Endpoint)
    requires !c.isService(e.topic) && e.active
    ensures Apply(c, map[], Add(e)).signals ==
      if c.trigger == OnAny || (c.trigger == OnReader && e.kind == Reader) ||
         (c.trigger == OnWriter && e.kind == Writer)
      then [TopicUsed(e.topic, e.discoverer)] else []
  {
    var m := map[e.guid := e];
    assert map[][e.guid := e] == m;
    RelevantMeans(c, m, e);
    assert KindCounts(c, e) ==> Users(c, m, e.topic, e.discoverer) == {e.guid};
  }

  // ---------------------------------------------------------------- services

  /** The signals about one server. */
  function AboutServer(s: seq<Signal>, g: nat): seq<Signal> {
    if s == [] then []
    else
      var last := s[|s| - 1];
      AboutServer(s[..|s| - 1], g)
        + if (last.ServerFound? || last.ServerLost?) && last.endpoint.guid == g then [last] else []
  }

  /** What an operation tells about services: a server found when it is new, and lost when it is erased; that it
      is lost even if its kind does not count. */
  lemma ServerSignals(c: Setup, m: Entities, op: Operation)
    requires c.isService(op.endpoint.topic)
    ensures Apply(c, m, op).signals ==
      if op.Add? && op.endpoint.guid !in m && KindCounts(c, op.endpoint) && c.isServer(op.endpoint)
      then [ServerFound(op.endpoint)]
      else if op.Erase? && op.endpoint.guid in m && c.isServer(op.endpoint) then [ServerLost(op.endpoint)]
      else []
  {
  }

  /** Whatever is said of the endpoint `g`, it is a server of a service, of a kind that counts. */
  predicate AlwaysServer(c: Setup, ops: seq<Operation>, g: nat) {
    forall i :: 0 <= i < |ops| && ops[i].endpoint.guid == g ==>
      var e := ops[i].endpoint; c.isService(e.topic) && KindCounts(c, e) && c.isServer(e)
  }

  lemma {:induction false} AboutServerConcat(a: seq<Signal>, b: seq<Signal>, g: nat)
    ensures AboutServer(a + b, g) == AboutServer(a, g) + AboutServer(b, g)
  {
    if b == [] {
      assert a + b == a;
    } else {
      AboutServerConcat(a, b[..|b| - 1], g);
      assert (a + b)[..|a + b| - 1] == a + b[..|b| - 1];
    }
  }

  lemma AboutServerOne(s: seq<Signal>, g: nat)
    requires |s| <= 1
    ensures AboutServer(s, g) ==
      if s != [] && (s[0].ServerFound? || s[0].ServerLost?) && s[0].endpoint.guid == g then s else []
  {
    if |s| == 1 { assert s == [s[0]] && s[..0] == []; }
  }

  predicate AlternatesServer(s: seq<Signal>) {
    forall i :: 0 <= i < |s| ==> (s[i].ServerFound? <==> i % 2 == 0) && (s[i].ServerLost? <==> i % 2 == 1)
  }

  /** What was told of a server up to some moment of a run. */
  predicate ToldOfServer(o: Outcome, g: nat) {
    var s := AboutServer(o.signals, g);
    AlternatesServer(s) && (g in o.entities <==> |s| % 2 == 1)
  }

  /** Over every run the pipe is told in turn that a server was found and that it was lost, and the last signal
      tells whether it is in the database. */
  lemma {:induction false} ServersAlternate(c: Setup, ops: seq<Operation>, g: nat)
    requires AlwaysServer(c, ops, g)
    ensures var s := AboutServer(ApplyAll(c, ops).signals, g);
      AlternatesServer(s) && (g in ApplyAll(c, ops).entities <==> |s| % 2 == 1)
  {
    if ops != [] {
      var n := |ops| - 1;
      ServersAlternate(c, ops[..n], g);
      ToldNextOfServer(c, ApplyAll(c, ops[..n]), ops[n], g);
    }
  }

  lemma ToldNextOfServer(c: Setup, before: Outcome, op: Operation, g: nat)
    requires ToldOfServer(before, g)
    requires var e := op.endpoint; e.guid == g ==> c.isService(e.topic) && KindCounts(c, e) && c.isServer(e)
    ensures var last := Apply(c, before.entities, op);
      ToldOfServer(Outcome(last.entities, before.signals + last.signals, last.ok), g)
  {
    var last := Apply(c, before.entities, op);
    ServerStep(c, before.entities, op, last, AboutServer(last.signals, g), g);
    AboutServerConcat(before.signals, last.signals, g);
    ServerNext(AboutServer(before.signals, g), AboutServer(last.signals, g));
  }

  lemma ServerStep(c: Setup, m: Entities, op: Operation, r: Outcome, more: seq<Signal>, g: nat)
    requires var e := op.endpoint; e.guid == g ==> c.isService(e.topic) && KindCounts(c, e) && c.isServer(e)
    requires r == Apply(c, m, op) && more == AboutServer(r.signals, g)
    ensures |more| <= 1 && (more != [] ==> if g in m then more[0].ServerLost? else more[0].ServerFound?)
    ensures g in r.entities <==> if more == [] then g in m else g !in m
  {
    AboutServerOne(r.signals, g);
    if op.endpoint.guid == g {
      ServerSignals(c, m, op);
      KnownAfter(c, m, op);
    } else {
      OtherServer(c, m, op, g);
    }
  }

  lemma KnownAfter(c: Setup, m: Entities, op: Operation)
    ensures op.endpoint.guid in Apply(c, m, op).entities <==> !op.Erase? && (op.Add? || op.endpoint.guid in m)
  {
  }

  lemma OtherServer(c: Setup, m: Entities, op: Operation, g: nat)
    requires op.endpoint.guid != g
    ensures var r := Apply(c, m, op); |r.signals| <= 1 && (g in r.entities <==> g in m)
    ensures forall x :: x in Apply(c, m, op).signals && (x.ServerFound? || x.ServerLost?) ==> x.endpoint.guid != g
  {
  }

  lemma ServerNext(s: seq<Signal>, more: seq<Signal>)
    requires AlternatesServer(s) && |more| <= 1
    requires more != [] ==> if |s| % 2 == 0 then more[0].ServerFound? else more[0].ServerLost?
    ensures AlternatesServer(s + more)
  {
  }

  // ---------------------------------------------------------------- when it is not

  /** Adding over a known inactive endpoint tells the pipe nothing, even if the topic is in use only now. */
  lemma ReviveIsSilent(c: Setup, m: Entities, e: Endpoint)
    requires e.guid in m && !m[e.guid].active && e.active && KindCounts(c, e)
    ensures var r := Apply(c, m, Add(e));
      r.ok && r.signals == [] && e.guid in Users(c, r.entities, e.topic, e.discoverer)
  {
  }

  /** Erasing an endpoint as active tells the pipe nothing about the topic, even if it was the last user. */
  lemma EraseIsSilent(c: Setup, m: Entities, e: Endpoint)
    requires e.guid in m && m[e.guid] == e && e.active && !c.isService(e.topic)
    ensures var r := Apply(c, m, Erase(e));
      r.ok && r.signals == [] && e.guid !in Users(c, r.entities, e.topic, e.discoverer)
  {
    var m' := m - {e.guid};
    assert e.guid !in Users(c, m', e.topic, e.discoverer);
  }

  /** Updating the only user without any change signals its topic once more. */
  lemma UpdateRepeats(c: Setup, m: Entities, e: Endpoint)
    requires e.guid in m && m[e.guid] == e && !c.isService(e.topic) && Users(c, m, e.topic, e.discoverer) == {e.guid}
    ensures var r := Apply(c, m, Update(e)); r.entities == m && r.signals == [TopicUsed(e.topic, e.discoverer)]
  {
    assert m[e.guid := e] == m;
    assert e.guid in Users(c, m, e.topic, e.discoverer);
  }

  /** Adding a new inactive endpoint signals a topic without any user as used. */
  lemma InactiveAddSignals(c: Setup, m: Entities, e: Endpoint)
    requires e.guid !in m && !e.active && !c.isService(e.topic) && KindCounts(c, e)
    requires Users(c, m, e.topic, e.discoverer) == {}
    ensures var r := Apply(c, m, Add(e));
      r.signals == [TopicUsed(e.topic, e.discoverer)] && Users(c, r.entities, e.topic, e.discoverer) == {}
  {
    UsersAfter(c, m, Add(e), e.topic, e.discoverer);
  }

  /** An only user that is updated to inactive, and then erased, signals its topic as unused twice. */
  lemma UnusedTwice(c: Setup, m: Entities, e: Endpoint)
    requires e.guid in m && !e.active && KindCounts(c, e) && !c.isService(e.topic) && c.removeUnused
    requires Users(c, m, e.topic, e.discoverer) == {e.guid}
    ensures var r := Apply(c, m, Update(e)); var z := Apply(c, r.entities, Erase(e));
      r.signals == [TopicUnused(e.topic, e.discoverer)] && z.signals == r.signals
  {
    var r := Apply(c, m, Update(e));
    UsersAfter(c, m, Update(e), e.topic, e.discoverer);
    UsersAfter(c, r.entities, Erase(e), e.topic, e.discoverer);
    Sizes(Users(c, r.entities, e.topic, e.discoverer), e.guid);
    Sizes(Users(c, Apply(c, r.entities, Erase(e)).entities, e.topic, e.discoverer), e.guid);
  }

  // ---------------------------------------------------------------- the database

  class DiscoveryDatabase {
    const setup: Setup
    var entities: Entities
    var signals: seq<Signal>  // what the pipe was told

    constructor (setup: Setup)
      ensures this.setup == setup && entities == map[] && signals == []
    {
      this.setup := setup;
      entities, signals := map[], [];
    }

    /** The endpoints that use a topic, found by walking the database. */
    method GetUsers(t: Topic, discoverer: nat) returns (users: set<nat>)
      ensures users == Users(setup, entities, t, discoverer)
    {
      users := {};
      var rest := entities.Keys;
      while rest != {}
        invariant rest <= entities.Keys
        invariant users == set g | g in entities.Keys - rest && Uses(setup, entities[g], t, discoverer)
        decreases rest
      {
        var g :| g in rest;
        if Uses(setup, entities[g], t, discoverer) {
          users := users + {g};
        }
        rest := rest - {g};
      }
    }

    method IsEndpointRelevant(e: Endpoint) returns (relevant: bool)
      ensures relevant == IsRelevant(setup, entities, e)
    {
      if !KindCounts(setup, e) {
        return false;
      }
      var users := GetUsers(e.topic, e.discoverer);
      relevant := if e.active then |users| == 1 && e.guid in users else |users| == 0;
    }

    method DiscoveredEndpoint(e: Endpoint)
      modifies this`signals
      ensures signals == old(signals) + OnDiscovered(setup, entities, e)
    {
      if setup.isService(e.topic) {
        if KindCounts(setup, e) && setup.isServer(e) {
          signals := signals + [ServerFound(e)];
        }
      } else {
        var relevant := IsEndpointRelevant(e);
        if relevant {
          signals := signals + [TopicUsed(e.topic, e.discoverer)];
        }
      }
    }

    method RemovedEndpoint(e: Endpoint)
      modifies this`signals
      ensures signals == old(signals) + OnRemoved(setup, entities, e)
    {
      if setup.isService(e.topic) {
        if setup.isServer(e) {
          signals := signals + [ServerLost(e)];
        }
      } else if setup.removeUnused {
        var relevant := IsEndpointRelevant(e);
        if relevant {
          signals := signals + [TopicUnused(e.topic, e.discoverer)];
        }
      }
    }

    method UpdatedEndpoint(e: Endpoint)
      modifies this`signals
      ensures signals == old(signals) + OnUpdated(setup, entities, e)
    {
      if setup.isService(e.topic) {
        return;
      }
      if e.active {
        DiscoveredEndpoint(e);
      } else {
        RemovedEndpoint(e);
      }
    }

    /** An operation of the queue carried out; an inconsistent one changes nothing. */
    method Process(op: Operation) returns (ok: bool)
      modifies this
      ensures var r := Apply(setup, old(entities), op);
        entities == r.entities && signals == old(signals) + r.signals && ok == r.ok
      ensures !ok ==> entities == old(entities) && signals == old(signals)
      ensures var e := op.endpoint;
        ok ==> entities == if op.Erase? then old(entities) - {e.guid} else old(entities)[e.guid := e]
      ensures ok <==> var g := op.endpoint.guid;
        if op.Add? then !(g in old(entities) && old(entities)[g].active) else g in old(entities)
    {
      match op {
        case Add(e) => ok := AddEndpoint(e);
        case Update(e) => ok := UpdateEndpoint(e);
        case Erase(e) => ok := EraseEndpoint(e);
      }
    }

    method AddEndpoint(e: Endpoint) returns (ok: bool)
      modifies this
      ensures var r := Apply(setup, old(entities), Add(e));
        entities == r.entities && signals == old(signals) + r.signals && ok == r.ok
    {
      if e.guid in entities {
        if entities[e.guid].active {
          return false;
        }
        entities := entities[e.guid := e];
        return true;
      }
      entities := entities[e.guid := e];
      DiscoveredEndpoint(e);
      ok := true;
    }

    method UpdateEndpoint(e: Endpoint) returns (ok: bool)
      modifies this
      ensures var r := Apply(setup, old(entities), Update(e));
        entities == r.entities && signals == old(signals) + r.signals && ok == r.ok
    {
      if e.guid !in entities {
        return false;
      }
      entities := entities[e.guid := e];
      UpdatedEndpoint(e);
      ok := true;
    }

    method EraseEndpoint(e: Endpoint) returns (ok: bool)
      modifies this
      ensures var r := Apply(setup, old(entities), Erase(e));
        entities == r.entities && signals == old(signals) + r.signals && ok == r.ok
    {
      if e.guid !in entities {
        return false;
      }
      entities := entities - {e.guid};
      RemovedEndpoint(e);
      ok := true;
    }
  }
}
