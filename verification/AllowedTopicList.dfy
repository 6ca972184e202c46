/**
 The allow and block lists of the pipe. Both are reduced on construction: a filter that another
 one contains is left out.
 */
module AllowedTopicList {

  datatype Topic = Topic(name: string, typeName: string)

  /** A service, with the topics that carry its requests and its replies. */
  datatype Service = Service(request: Topic, reply: Topic)

  datatype Filter = Filter(name: string, typeName: string)

  /** How filters are compared with topics and with each other. */
  datatype Rules = Rules(matches: (Filter, Topic) -> bool, contains: (Filter, Filter) -> bool)

  /** A filter that contains another matches whatever that one matches. */
  ghost predicate Sound(r: Rules) {
    forall x: Filter, y: Filter, t: Topic :: r.contains(x, y) && r.matches(y, t) ==> r.matches(x, t)
  }

  predicate MatchedBy(r: Rules, list: set<Filter>, t: Topic) {
    exists x :: x in list && r.matches(x, t)
  }

  predicate Antichain(r: Rules, list: set<Filter>) {
    forall x, y :: x in list && y in list && x != y ==> !r.contains(x, y)
  }

  /** What the lists mean: an empty allow list allows everything, and blocking wins. */
  predicate IsAllowed(r: Rules, allow: set<Filter>, block: set<Filter>, t: Topic) {
    (allow == {} || MatchedBy(r, allow, t)) && !MatchedBy(r, block, t)
  }

  predicate IsServiceAllowed(r: Rules, allow: set<Filter>, block: set<Filter>, s: Service) {
    IsAllowed(r, allow, block, s.request) && IsAllowed(r, allow, block, s.reply)
  }

  /** `reduced` stands for `list`: it is a part of it, no member contains another, and it matches
      the same topics. */
  ghost predicate StandsFor(r: Rules, reduced: set<Filter>, list: set<Filter>) {
    && reduced <= list && Antichain(r, reduced)
    && (reduced == {} <==> list == {})
    && (Sound(r) ==> forall t: Topic :: MatchedBy(r, reduced, t) <==> MatchedBy(r, list, t))
  }

  /** Reduction changes the answer for no topic and no service. */
  lemma SameAnswers(r: Rules, allow: set<Filter>, block: set<Filter>, allow': set<Filter>, block': set<Filter>,
                    t: Topic, s: Service)
    requires Sound(r) && StandsFor(r, allow', allow) && StandsFor(r, block', block)
    ensures IsAllowed(r, allow', block', t) <==> IsAllowed(r, allow, block, t)
    ensures IsServiceAllowed(r, allow', block', s) <==> IsServiceAllowed(r, allow, block, s)
  {
    assert MatchedBy(r, allow', s.request) <==> MatchedBy(r, allow, s.request);
    assert MatchedBy(r, block', s.request) <==> MatchedBy(r, block, s.request);
  }

  // ---------------------------------------------------------------- the order does not matter

  /** Containment is a partial order, reflexive or not. */
  ghost predicate PartialOrder(r: Rules) {
    Transitive(r) && forall x: Filter, y: Filter :: r.contains(x, y) && r.contains(y, x) ==> x == y
  }

  ghost predicate Transitive(r: Rules) {
    forall x: Filter, y: Filter, z: Filter :: r.contains(x, y) && r.contains(y, z) ==> r.contains(x, z)
  }

  function Maximal(r: Rules, list: set<Filter>): set<Filter> {
    set x | x in list && forall y :: y in list && r.contains(y, x) ==> y == x
  }

  /** Every member of the list is contained in one that is kept. */
  ghost predicate Covers(r: Rules, kept: set<Filter>, list: set<Filter>) {
    forall x :: x in list ==> exists y :: y in kept && (y == x || r.contains(y, x))
  }

  /** Whatever order the list is walked in, what is kept are its maximal members. */
  lemma KeptAreMaximal(r: Rules, kept: set<Filter>, list: set<Filter>)
    requires PartialOrder(r) && kept <= list && Antichain(r, kept) && Covers(r, kept, list)
    ensures kept == Maximal(r, list)
  {
    forall x | x in list
      ensures x in kept <==> x in Maximal(r, list)
    {
      if x in kept {
        forall y | y in list && r.contains(y, x)
          ensures y == x
        {
          var z :| z in kept && (z == y || r.contains(z, y));
          assert r.contains(z, x);
        }
      } else {
        var z :| z in kept && (z == x || r.contains(z, x));
      }
    }
  }

  function Above(r: Rules, list: set<Filter>, x: Filter): set<Filter> {
    set z | z in list && (z == x || r.contains(z, x))
  }

  /** Every member is contained in a maximal one. */
  lemma {:induction false} MaximalAbove(r: Rules, list: set<Filter>, x: Filter) returns (y: Filter)
    requires PartialOrder(r) && x in list
    ensures y in Maximal(r, list) && (y == x || r.contains(y, x))
    decreases Above(r, list, x)
  {
    if x in Maximal(r, list) {
      y := x;
    } else {
      var w :| w in list && r.contains(w, x) && w != x;
      assert x in Above(r, list, x) && x !in Above(r, list, w);
      y := MaximalAbove(r, list, w);
    }
  }

  /** What it means that two lists compare equal after the reduction: every filter of each is contained in
      one of the other. So neither the order of insertion nor redundant filters make a difference. */
  lemma EqualListsCover(r: Rules, list: set<Filter>, other: set<Filter>)
    requires PartialOrder(r)
    ensures Maximal(r, list) == Maximal(r, other) <==> Covers(r, list, other) && Covers(r, other, list)
  {
    if Maximal(r, list) == Maximal(r, other) {
      forall x | x in list
        ensures exists y :: y in other && (y == x || r.contains(y, x))
      {
        var y := MaximalAbove(r, list, x);
        assert y in Maximal(r, other);
      }
      forall x | x in other
        ensures exists y :: y in list && (y == x || r.contains(y, x))
      {
        var y := MaximalAbove(r, other, x);
        assert y in Maximal(r, list);
      }
    }
    if Covers(r, list, other) && Covers(r, other, list) {
      forall x
        ensures x in Maximal(r, list) <==> x in Maximal(r, other)
      {
        if x in Maximal(r, list) { MaximalInOther(r, list, other, x); }
        if x in Maximal(r, other) { MaximalInOther(r, other, list, x); }
      }
    }
  }

  lemma MaximalInOther(r: Rules, list: set<Filter>, other: set<Filter>, x: Filter)
    requires PartialOrder(r) && Covers(r, list, other) && Covers(r, other, list) && x in Maximal(r, list)
    ensures x in Maximal(r, other)
  {
    var y :| y in other && (y == x || r.contains(y, x));
    var z :| z in list && (z == y || r.contains(z, y));
    assert z == x || r.contains(z, x);
    assert y == x;
    forall w | w in other && r.contains(w, x)
      ensures w == x
    {
      var v :| v in list && (v == w || r.contains(v, w));
      assert r.contains(v, x);
    }
  }

  // ---------------------------------------------------------------- the reduction

  /** Compares one filter with those kept so far, in any order, up to the first that contains it;
      `repeated` are those that it contains. */
  method Compare(r: Rules, kept: set<Filter>, x: Filter) returns (addIt: bool, repeated: set<Filter>)
    ensures repeated <= kept && forall y :: y in repeated ==> r.contains(x, y)
    ensures addIt ==> forall y :: y in kept ==> !r.contains(y, x) && (r.contains(x, y) ==> y in repeated)
    ensures !addIt ==> exists y :: y in kept - repeated && r.contains(y, x)
  {
    addIt, repeated := true, {};
    var rest := kept;
    while rest != {}
      invariant rest <= kept && repeated <= kept - rest
      invariant forall y :: y in repeated ==> r.contains(x, y) && !r.contains(y, x)
      invariant forall y :: y in kept - rest ==> !r.contains(y, x) && (r.contains(x, y) ==> y in repeated)
      decreases rest
    {
      var stored :| stored in rest;
      rest := rest - {stored};
      if r.contains(stored, x) {
        assert stored in kept - repeated;
        return false, repeated;
      } else if r.contains(x, stored) {
        repeated := repeated + {stored};
      }
    }
  }

  /** One filter compared, and the kept ones brought up to date, keeps the meaning of the list. */
  lemma Kept(r: Rules, kept: set<Filter>, done: set<Filter>, x: Filter, addIt: bool, repeated: set<Filter>)
    requires kept <= done && Antichain(r, kept) && (kept == {} <==> done == {})
    requires repeated <= kept && forall y :: y in repeated ==> r.contains(x, y)
    requires addIt ==> forall y :: y in kept ==> !r.contains(y, x) && (r.contains(x, y) ==> y in repeated)
    requires !addIt ==> exists y :: y in kept - repeated && r.contains(y, x)
    ensures var kept' := kept - repeated + if addIt then {x} else {};
      && kept' <= done + {x} && kept' != {} && Antichain(r, kept')
      && (Transitive(r) && Covers(r, kept, done) ==> Covers(r, kept', done + {x}))
  {
    var kept' := kept - repeated + if addIt then {x} else {};
    if Transitive(r) && Covers(r, kept, done) {
      forall z | z in done + {x}
        ensures exists y :: y in kept' && (y == z || r.contains(y, z))
      {
        CoveredStill(r, kept, done, x, addIt, repeated, kept', z);
      }
    }
  }

  lemma CoveredStill(r: Rules, kept: set<Filter>, done: set<Filter>, x: Filter, addIt: bool, repeated: set<Filter>,
                     kept': set<Filter>, z: Filter)
    requires Transitive(r) && Covers(r, kept, done) && z in done + {x}
    requires repeated <= kept && forall y :: y in repeated ==> r.contains(x, y)
    requires !addIt ==> exists y :: y in kept - repeated && r.contains(y, x)
    requires kept' == kept - repeated + if addIt then {x} else {}
    ensures exists y :: y in kept' && (y == z || r.contains(y, z))
  {
    var w := if addIt then x else var y :| y in kept - repeated && r.contains(y, x); y;
    if z in done {
      var y :| y in kept && (y == z || r.contains(y, z));
      if y in repeated {
        assert r.contains(x, z);
        assert w in kept' && r.contains(w, z);
      } else {
        assert y in kept';
      }
    } else {
      assert w in kept' && (w == z || r.contains(w, z));
    }
  }

  lemma MeaningKept(r: Rules, kept: set<Filter>, done: set<Filter>, x: Filter, addIt: bool, repeated: set<Filter>,
                    t: Topic)
    requires Sound(r) && (MatchedBy(r, kept, t) <==> MatchedBy(r, done, t))
    requires repeated <= kept && forall y :: y in repeated ==> r.contains(x, y)
    requires !addIt ==> exists y :: y in kept - repeated && r.contains(y, x)
    ensures MatchedBy(r, kept - repeated + (if addIt then {x} else {}), t) <==> MatchedBy(r, done + {x}, t)
  {
    var kept' := kept - repeated + if addIt then {x} else {};
    if MatchedBy(r, done + {x}, t) {
      if MatchedBy(r, done, t) {
        var y :| y in kept && r.matches(y, t);
        assert y in repeated ==> r.matches(x, t);
      }
      if r.matches(x, t) && !addIt {
        var y :| y in kept - repeated && r.contains(y, x);
        assert y in kept' && r.matches(y, t);
      }
    }
  }

  /** The list without the filters that others contain. */
  method WithoutRepetition(r: Rules, list: set<Filter>) returns (kept: set<Filter>)
    ensures StandsFor(r, kept, list)
    ensures PartialOrder(r) ==> kept == Maximal(r, list)
  {
    kept := {};
    var rest := list;
    while rest != {}
      invariant rest <= list && kept <= list - rest && Antichain(r, kept) && (kept == {} <==> list - rest == {})
      invariant Transitive(r) ==> Covers(r, kept, list - rest)
      invariant Sound(r) ==> forall t: Topic :: MatchedBy(r, kept, t) <==> MatchedBy(r, list - rest, t)
      decreases rest
    {
      var x :| x in rest;
      ghost var done := list - rest;
      var addIt, repeated := Compare(r, kept, x);
      Kept(r, kept, done, x, addIt, repeated);
      ghost var before := kept;
      kept := kept - repeated;
      if addIt {
        kept := kept + {x};
      }
      if Sound(r) {
        forall t: Topic
          ensures MatchedBy(r, kept, t) <==> MatchedBy(r, done + {x}, t)
        {
          MeaningKept(r, before, done, x, addIt, repeated, t);
        }
      }
      rest := rest - {x};
      assert list - rest == done + {x};
    }
    assert list - rest == list;
    if PartialOrder(r) { KeptAreMaximal(r, kept, list); }
  }

  // ---------------------------------------------------------------- the two lists

  class AllowedTopicList {
    const rules: Rules
    var allowlist: set<Filter>
    var blocklist: set<Filter>

    constructor (rules: Rules, allow: set<Filter>, block: set<Filter>)
      ensures this.rules == rules && StandsFor(rules, allowlist, allow) && StandsFor(rules, blocklist, block)
      ensures PartialOrder(rules) ==> allowlist == Maximal(rules, allow) && blocklist == Maximal(rules, block)
    {
      this.rules := rules;
      new;
      allowlist := WithoutRepetition(rules, allow);
      blocklist := WithoutRepetition(rules, block);
    }

    method AnyMatches(list: set<Filter>, t: Topic) returns (found: bool)
      ensures found == MatchedBy(rules, list, t)
    {
      var rest := list;
      while rest != {}
        invariant rest <= list && forall x :: x in list - rest ==> !rules.matches(x, t)
        decreases rest
      {
        var x :| x in rest;
        if rules.matches(x, t) {
          return true;
        }
        rest := rest - {x};
      }
      found := false;
    }

    method TopicAllowed(t: Topic) returns (allowed: bool)
      ensures allowed == IsAllowed(rules, allowlist, blocklist, t)
      ensures allowed <==>
        && (allowlist == {} || exists x :: x in allowlist && rules.matches(x, t))
        && forall x :: x in blocklist ==> !rules.matches(x, t)
    {
      var accepted := allowlist == {};
      if !accepted {
        accepted := AnyMatches(allowlist, t);
      }
      if !accepted {
        return false;
      }
      var blocked := AnyMatches(blocklist, t);
      allowed := !blocked;
    }

    method ServiceAllowed(s: Service) returns (allowed: bool)
      ensures allowed == IsServiceAllowed(rules, allowlist, blocklist, s)
      ensures allowed <==>
        && IsAllowed(rules, allowlist, blocklist, s.request)
        && IsAllowed(rules, allowlist, blocklist, s.reply)
    {
      allowed := TopicAllowed(s.request);
      if allowed {
        allowed := TopicAllowed(s.reply);
      }
    }

    /** For lists that were built by the constructor `EqualListsCover` says what this means. */
    method Equals(other: AllowedTopicList) returns (same: bool)
      requires other.rules == rules
      ensures same == (allowlist == other.allowlist && blocklist == other.blocklist)
    {
      same := allowlist == other.allowlist && blocklist == other.blocklist;
    }

    /** Afterwards everything is allowed. */
    method Clear()
      modifies this
      ensures allowlist == {} && blocklist == {}
      ensures forall t: Topic :: IsAllowed(rules, allowlist, blocklist, t)
    {
      blocklist := {};
      allowlist := {};
    }
  }
}
