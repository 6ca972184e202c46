/**
 The core of the pipe: it keeps a flag for every topic and service it has heard of, and a bridge
 for those it forwards. Every call takes the state as one step of module PipeState does.
 */
module DdsPipe {
  import opened Maybes
  import opened AllowedTopicList
  import opened PipeState

  datatype ReturnCode = RetcodeOk | RetcodeNoData | RetcodePreconditionNotMet

  lemma ActivateOneMore(p: Pipe, s: set<Topic>, t: Topic, luck: Luck)
    requires t in p.topics && s <= p.topics.Keys
    ensures Activate(ActivateAll(p, s, luck), t, luck.bridge(t)) == ActivateAll(p, s + {t}, luck)
  {
    var q, z := Activate(ActivateAll(p, s, luck), t, luck.bridge(t)), ActivateAll(p, s + {t}, luck);
    forall x: Topic
      ensures OfTopic(q, x) == OfTopic(z, x)
    {
    }
    SameTopics(q, z);
  }

  lemma OneMoreBuiltin(s: set<Topic>, t: Topic, luck: Luck)
    ensures (map x | x in s + {t} :: false) == (map x | x in s :: false)[t := false]
    ensures (map x | x in s + {t} && luck.bridge(x) :: false)
      == var m := map x | x in s && luck.bridge(x) :: false; if luck.bridge(t) then m[t := false] else m
  {
  }

  lemma DeactivateOneMore(p: Pipe, s: set<Topic>, t: Topic)
    requires t in p.topics && s <= p.topics.Keys
    ensures Deactivate(DeactivateAll(p, s), t) == DeactivateAll(p, s + {t})
  {
    var q, z := Deactivate(DeactivateAll(p, s), t), DeactivateAll(p, s + {t});
    assert q.topics == z.topics;
    assert q.bridges == z.bridges;
  }

  lemma NoServiceChanged(r: Rules, p: Pipe, luck: Luck)
    ensures EnableServices(p, {}, luck) == p && ReloadServices(r, p, {}, luck) == p
  {
    assert EnableServices(p, {}, luck).rpc == p.rpc;
    assert ReloadServices(r, p, {}, luck).services == p.services && ReloadServices(r, p, {}, luck).rpc == p.rpc;
  }

  /** The topic reloaded after the others of the set. */
  function ReloadOne(r: Rules, p: Pipe, t: Topic, luck: Luck): Pipe
    requires t in p.topics
  {
    if p.topics[t] == Allows(r, p.lists, t) then p
    else if p.topics[t] then Deactivate(p, t)
    else Activate(p, t, luck.bridge(t))
  }

  lemma ReloadOneMore(r: Rules, p: Pipe, s: set<Topic>, t: Topic, luck: Luck)
    requires t in p.topics && t !in s
    ensures t in ReloadTopics(r, p, s, luck).topics
    ensures ReloadOne(r, ReloadTopics(r, p, s, luck), t, luck) == ReloadTopics(r, p, s + {t}, luck)
  {
    var q := ReloadTopics(r, p, s, luck);
    var one, z := ReloadOne(r, q, t, luck), ReloadTopics(r, p, s + {t}, luck);
    forall x: Topic
      ensures OfTopic(one, x) == OfTopic(z, x)
    {
      ReloadedAt(r, p, s, luck, x);
      ReloadedAt(r, p, s + {t}, luck, x);
      ReloadedOneAt(r, q, t, luck, x);
    }
    SameTopics(one, z);
  }

  lemma ReloadedAt(r: Rules, p: Pipe, s: set<Topic>, luck: Luck, x: Topic)
    ensures OfTopic(ReloadTopics(r, p, s, luck), x) ==
      if Changes(r, p, s, x) then Switched(OfTopic(p, x), Allows(r, p.lists, x), luck.bridge(x)) else OfTopic(p, x)
  {
  }

  lemma ReloadedOneAt(r: Rules, q: Pipe, t: Topic, luck: Luck, x: Topic)
    requires t in q.topics
    ensures OfTopic(ReloadOne(r, q, t, luck), x) ==
      if x == t && q.topics[t] != Allows(r, q.lists, t)
      then Switched(OfTopic(q, t), Allows(r, q.lists, t), luck.bridge(t))
      else OfTopic(q, x)
  {
  }

  /** A pipe is what it knows of each topic, and the rest. */
  lemma SameTopics(p: Pipe, q: Pipe)
    requires forall x: Topic :: OfTopic(p, x) == OfTopic(q, x)
    requires p.(topics := map[], bridges := map[]) == q.(topics := map[], bridges := map[])
    ensures p == q
  {
    forall x: Topic
      ensures x in p.topics <==> x in q.topics
      ensures x in p.topics ==> p.topics[x] == q.topics[x]
      ensures x in p.bridges <==> x in q.bridges
      ensures x in p.bridges ==> p.bridges[x] == q.bridges[x]
    {
      assert OfTopic(p, x) == OfTopic(q, x);
    }
    assert p.topics == q.topics && p.bridges == q.bridges;
  }

  lemma EnableOneMore(p: Pipe, s: set<Service>, x: Service, luck: Luck)
    requires x in p.rpc && x !in s
    ensures var q := EnableServices(p, s, luck);
      x in q.rpc && q.(rpc := q.rpc[x := q.rpc[x].Enable(luck.rpc(x))]) == EnableServices(p, s + {x}, luck)
  {
    var q := EnableServices(p, s, luck);
    assert q.rpc[x := q.rpc[x].Enable(luck.rpc(x))] == EnableServices(p, s + {x}, luck).rpc;
  }

  lemma ReloadOneMoreService(r: Rules, p: Pipe, s: set<Service>, x: Service, luck: Luck)
    requires x in p.rpc && x in p.services && x !in s
    ensures var q := ReloadServices(r, p, s, luck); var on := AllowsService(r, p.lists, x);
      && x in q.rpc
      && q.(services := q.services[x := on],
            rpc := q.rpc[x := if on then q.rpc[x].Enable(luck.rpc(x)) else q.rpc[x].Disable()])
         == ReloadServices(r, p, s + {x}, luck)
  {
    var q, z := ReloadServices(r, p, s, luck), ReloadServices(r, p, s + {x}, luck);
    var on := AllowsService(r, p.lists, x);
    assert q.services[x := on] == z.services;
    assert q.rpc[x := if on then q.rpc[x].Enable(luck.rpc(x)) else q.rpc[x].Disable()] == z.rpc;
  }

  class DdsPipe {
    const rules: Rules
    var enabled: bool
    var allowedTopics: AllowedTopicList
    var currentTopics: map<Topic, bool>
    var bridges: map<Topic, bool>         // whether the bridge of the topic is enabled
    var currentServices: map<Service, bool>
    var rpcBridges: map<Service, RpcBridge>

    /** The state of the pipe as a value. */
    ghost function View(): Pipe
      reads this, allowedTopics
    {
      Pipe(enabled, Lists(allowedTopics.allowlist, allowedTopics.blocklist), currentTopics, bridges, currentServices,
           rpcBridges)
    }

    ghost predicate Valid()
      reads this, allowedTopics
    {
      && allowedTopics.rules == rules
      && currentServices.Keys == rpcBridges.Keys
    }

    /** A pipe with the builtin topics, disabled or enabled at once. */
    constructor (lists: AllowedTopicList, builtin: set<Topic>, initEnabled: bool, luck: Luck)
      ensures Valid() && rules == lists.rules && allowedTopics == lists
      ensures var p := Created(Lists(lists.allowlist, lists.blocklist), builtin, luck);
        View() == if initEnabled then Step(rules, p, Enable(luck)) else p
    {
      rules := lists.rules;
      enabled, allowedTopics := false, lists;
      currentTopics, bridges, currentServices, rpcBridges := map[], map[], map[], map[];
      new;
      InitBridges(builtin, luck);
      if initEnabled {
        var _ := EnablePipe(luck);
      }
    }

    method InitBridges(builtin: set<Topic>, luck: Luck)
      requires Valid() && !enabled && currentTopics == map[] && bridges == map[]
      modifies this`currentTopics, this`bridges
      ensures currentTopics == (map t | t in builtin :: false)
      ensures bridges == map t | t in builtin && luck.bridge(t) :: false
    {
      var rest := builtin;
      while rest != {}
        invariant rest <= builtin
        invariant currentTopics == map t | t in builtin - rest :: false
        invariant bridges == map t | t in builtin - rest && luck.bridge(t) :: false
        decreases rest
      {
        var t :| t in rest;
        ghost var done := builtin - rest;
        InitBridge(t, luck);
        rest := rest - {t};
        assert builtin - rest == done + {t};
        OneMoreBuiltin(done, t, luck);
      }
      assert builtin - rest == builtin;
    }

    method InitBridge(t: Topic, luck: Luck)
      requires Valid() && !enabled && t !in currentTopics && t !in bridges
      modifies this`currentTopics, this`bridges
      ensures currentTopics == old(currentTopics)[t := false]
      ensures bridges == if luck.bridge(t) then old(bridges)[t := false] else old(bridges)
    {
      DiscoveredTopic(t, luck);
      CreateNewBridge(t, false, luck);
    }

    /** Creates the bridge of a topic; if that fails there is none. */
    method CreateNewBridge(t: Topic, enable: bool, luck: Luck)
      modifies this`bridges
      ensures bridges == if luck.bridge(t) then old(bridges)[t := enable] else old(bridges)
    {
      if luck.bridge(t) {
        bridges := bridges[t := enable];
      }
    }

    method ActivateTopic(t: Topic, luck: Luck)
      modifies this`currentTopics, this`bridges
      ensures View() == Activate(old(View()), t, luck.bridge(t))
    {
      currentTopics := currentTopics[t := true];
      if t !in bridges {
        CreateNewBridge(t, true, luck);
      } else {
        bridges := bridges[t := true];
      }
    }

    method DeactivateTopic(t: Topic)
      modifies this`currentTopics, this`bridges
      ensures View() == Deactivate(old(View()), t)
    {
      currentTopics := currentTopics[t := false];
      if t in bridges {
        bridges := bridges[t := false];
      }
    }

    method ActivateAllTopics(luck: Luck)
      requires Valid()
      modifies this`currentTopics, this`bridges
      ensures View() == ActivateAll(old(View()), AllowedOnes(rules, old(View()).lists, old(currentTopics)), luck)
    {
      ghost var p := View();
      ghost var done: set<Topic> := {};
      var rest := currentTopics.Keys;
      while rest != {}
        invariant rest <= p.topics.Keys && done == AllowedOnes(rules, p.lists, p.topics) - rest
        invariant View() == ActivateAll(p, done, luck)
        decreases rest
      {
        var t :| t in rest;
        var allowed := allowedTopics.TopicAllowed(t);
        if allowed {
          ActivateOneMore(p, done, t, luck);
          ActivateTopic(t, luck);
          done := done + {t};
        }
        rest := rest - {t};
      }
      assert done == AllowedOnes(rules, p.lists, p.topics);
    }

    method DeactivateAllTopics()
      modifies this`currentTopics, this`bridges
      ensures View() == DeactivateAll(old(View()), old(currentTopics).Keys)
    {
      ghost var p := View();
      ghost var done: set<Topic> := {};
      var rest := currentTopics.Keys;
      while rest != {}
        invariant rest <= p.topics.Keys && done == p.topics.Keys - rest
        invariant View() == DeactivateAll(p, done)
        decreases rest
      {
        var t :| t in rest;
        DeactivateOneMore(p, done, t);
        DeactivateTopic(t);
        done := done + {t};
        rest := rest - {t};
      }
      assert done == p.topics.Keys;
    }

    method EnableActiveServices(luck: Luck)
      requires Valid()
      modifies this`rpcBridges
      ensures View() == EnableServices(old(View()), ActiveServices(old(View())), luck)
    {
      ghost var p := View();
      NoServiceChanged(rules, p, luck);
      ghost var done: set<Service> := {};
      var rest := currentServices.Keys;
      while rest != {}
        invariant rest <= p.services.Keys && done == ActiveServices(p) - rest
        invariant View() == EnableServices(p, done, luck)
        decreases rest
      {
        var s :| s in rest;
        if currentServices[s] {
          EnableOneMore(p, done, s, luck);
          rpcBridges := rpcBridges[s := rpcBridges[s].Enable(luck.rpc(s))];
          done := done + {s};
        }
        rest := rest - {s};
      }
      assert done == ActiveServices(p);
    }

    method EnablePipe(luck: Luck) returns (code: ReturnCode)
      requires Valid()
      modifies this`enabled, this`currentTopics, this`bridges, this`rpcBridges
      ensures Valid() && View() == Step(rules, old(View()), Enable(luck))
      ensures code == if old(enabled) then RetcodePreconditionNotMet else RetcodeOk
    {
      if enabled {
        return RetcodePreconditionNotMet;
      }
      enabled := true;
      ActivateAllTopics(luck);
      EnableActiveServices(luck);
      code := RetcodeOk;
    }

    method DisablePipe() returns (code: ReturnCode)
      requires Valid()
      modifies this`enabled, this`currentTopics, this`bridges
      ensures Valid() && View() == Step(rules, old(View()), Disable)
      ensures code == if old(enabled) then RetcodeOk else RetcodePreconditionNotMet
    {
      if !enabled {
        return RetcodePreconditionNotMet;
      }
      enabled := false;
      DeactivateAllTopics();
      code := RetcodeOk;
    }

    method ReloadCurrentTopics(luck: Luck)
      requires Valid()
      modifies this`currentTopics, this`bridges
      ensures View() == ReloadTopics(rules, old(View()), old(currentTopics).Keys, luck)
    {
      ghost var p := View();
      ghost var done: set<Topic> := {};
      var rest := currentTopics.Keys;
      while rest != {}
        invariant rest <= p.topics.Keys && done == p.topics.Keys - rest
        invariant View() == ReloadTopics(rules, p, done, luck)
        decreases rest
      {
        var t :| t in rest;
        ReloadOneMore(rules, p, done, t, luck);
        var allowed := allowedTopics.TopicAllowed(t);
        if currentTopics[t] {
          if !allowed {
            DeactivateTopic(t);
          }
        } else {
          if allowed {
            ActivateTopic(t, luck);
          }
        }
        done := done + {t};
        rest := rest - {t};
      }
      assert done == p.topics.Keys;
    }

    method ReloadCurrentServices(luck: Luck)
      requires Valid()
      modifies this`currentServices, this`rpcBridges
      ensures Valid() && View() == ReloadServices(rules, old(View()), old(currentServices).Keys, luck)
    {
      ghost var p := View();
      NoServiceChanged(rules, p, luck);
      ghost var done: set<Service> := {};
      var rest := currentServices.Keys;
      while rest != {}
        invariant Valid() && rest <= p.services.Keys && done == p.services.Keys - rest
        invariant View() == ReloadServices(rules, p, done, luck)
        decreases rest
      {
        var s :| s in rest;
        ReloadOneMoreService(rules, p, done, s, luck);
        var allowed := allowedTopics.ServiceAllowed(s);
        if allowed {
          currentServices := currentServices[s := true];
          rpcBridges := rpcBridges[s := rpcBridges[s].Enable(luck.rpc(s))];
        } else {
          currentServices := currentServices[s := false];
          rpcBridges := rpcBridges[s := rpcBridges[s].Disable()];
        }
        done := done + {s};
        rest := rest - {s};
      }
      assert done == p.services.Keys;
    }

    /** Takes over new lists, unless they are the same as the current ones. */
    method ReloadAllowedTopics(lists: AllowedTopicList, luck: Luck) returns (code: ReturnCode)
      requires Valid() && lists.rules == rules
      modifies this
      ensures Valid()
      ensures View() == Step(rules, old(View()), Reload(Lists(lists.allowlist, lists.blocklist), luck))
      ensures code == if Lists(lists.allowlist, lists.blocklist) == old(View()).lists then RetcodeNoData else RetcodeOk
    {
      var same := lists.Equals(allowedTopics);
      if same {
        return RetcodeNoData;
      }
      allowedTopics := lists;
      if !enabled {
        return RetcodeOk;
      }
      ReloadCurrentTopics(luck);
      ReloadCurrentServices(luck);
      code := RetcodeOk;
    }

    method DiscoveredTopic(t: Topic, luck: Luck)
      requires Valid()
      modifies this`currentTopics, this`bridges
      ensures View() == Step(rules, old(View()), TopicFound(t, luck))
    {
      if t !in bridges {
        if t !in currentTopics {
          currentTopics := currentTopics[t := false];
        }
        var allowed := allowedTopics.TopicAllowed(t);
        if enabled && allowed {
          ActivateTopic(t, luck);
        }
      }
    }

    method CreateNewService(s: Service)
      modifies this`rpcBridges
      ensures rpcBridges == old(rpcBridges)[s := RpcBridge(false, false, {})]
    {
      rpcBridges := rpcBridges[s := RpcBridge(false, false, {})];
    }

    method DiscoveredService(s: Service, server: Server, luck: Luck)
      requires Valid()
      modifies this`currentServices, this`rpcBridges
      ensures Valid() && View() == Step(rules, old(View()), ServiceFound(s, server, luck))
    {
      if s !in rpcBridges {
        CreateNewService(s);
        var allowed := allowedTopics.ServiceAllowed(s);
        currentServices := currentServices[s := allowed];
      }
      rpcBridges := rpcBridges[s := rpcBridges[s].Discovered(server)];
      if enabled && currentServices[s] {
        rpcBridges := rpcBridges[s := rpcBridges[s].Enable(luck.rpc(s))];
      }
    }

    method RemovedService(s: Service, server: Server)
      requires Valid()
      modifies this`rpcBridges
      ensures Valid() && View() == Step(rules, old(View()), ServiceLost(s, server))
    {
      if s in rpcBridges {
        rpcBridges := rpcBridges[s := rpcBridges[s].Removed(server)];
      }
    }
  }
}
