/**
 The names of ROS 2 topics and types as DDS sees them, and back: for which names demangling undoes
 mangling.
 */
module RosMangling {
  import opened StringUtils

  // ---------------------------------------------------------------- slashes and double colons

  /** Every slash becomes a double colon. */
  function Expand(s: string): string {
    if s == "" then "" else if s[0] == '/' then "::" + Expand(s[1..]) else [s[0]] + Expand(s[1..])
  }

  /** From the left, every double colon becomes a slash. */
  function Contract(s: string): string {
    if s == "" then ""
    else if |s| >= 2 && s[0] == ':' && s[1] == ':' then "/" + Contract(s[2..])
    else [s[0]] + Contract(s[1..])
  }

  lemma {:induction false} ExpandIsOnePass(s: string)
    ensures OnePass(s, "/", "::") == Expand(s)
  {
    if s != "" {
      ExpandIsOnePass(s[1..]);
      assert "/" <= s <==> s[0] == '/';
    }
  }

  lemma {:induction false} ContractIsOnePass(s: string)
    ensures OnePass(s, "::", "/") == Contract(s)
  {
    if s != "" {
      assert "::" <= s <==> |s| >= 2 && s[0] == ':' && s[1] == ':';
      if "::" <= s { ContractIsOnePass(s[2..]); } else { ContractIsOnePass(s[1..]); }
    }
  }

  lemma {:induction false} ExpandConcat(s: string, t: string)
    ensures Expand(s + t) == Expand(s) + Expand(t)
  {
    if s == "" {
      assert s + t == t;
    } else {
      ExpandConcat(s[1..], t);
      assert (s + t)[1..] == s[1..] + t;
      var e := if s[0] == '/' then "::" else [s[0]];
      Regrouped(e, Expand(s[1..]), Expand(t));
    }
  }

  lemma {:induction false} ExpandKeeps(s: string)
    requires '/' !in s
    ensures Expand(s) == s
  {
    if s != "" { ExpandKeeps(s[1..]); }
  }

  /** No colon is followed by a colon or a slash. */
  predicate Clean(s: string) {
    forall i :: 0 <= i < |s| - 1 && s[i] == ':' ==> s[i + 1] != ':' && s[i + 1] != '/'
  }

  lemma CleanTail(s: string)
    requires s != ""
    ensures Clean(s) <==> Clean(s[1..]) && (|s| >= 2 && s[0] == ':' ==> s[1] != ':' && s[1] != '/')
  {
    var t := s[1..];
    if Clean(t) {
      forall i | 1 <= i < |s| - 1 && s[i] == ':' ensures s[i + 1] != ':' && s[i + 1] != '/' {
        assert t[i - 1] == ':';
      }
    }
  }

  /** Contraction undoes expansion just for clean strings. */
  lemma {:induction false} ContractUndoesExpand(s: string)
    ensures Contract(Expand(s)) == s <==> Clean(s)
  {
    if s != "" {
      ContractUndoesExpand(s[1..]);
      CleanTail(s);
      var e := Expand(s[1..]);
      if s[0] == '/' {
        assert ("::" + e)[2..] == e;
      } else {
        assert ([s[0]] + e)[1..] == e;
        if s[0] == ':' && |s| >= 2 { ExpandStart(s[1..]); }
      }
      assert s == [s[0]] + s[1..];
    }
  }

  /** An expansion starts with a colon just where the string starts with one or with a slash. */
  lemma ExpandStart(s: string)
    requires s != ""
    ensures Expand(s) != "" && (Expand(s)[0] == ':' <==> s[0] == ':' || s[0] == '/')
  {
  }

  lemma CleanIs(s: string)
    ensures Clean(s) <==> !Contains(s, "::") && !Contains(s, ":/")
  {
    if !Clean(s) {
      var i: nat :| i < |s| - 1 && s[i] == ':' && (s[i + 1] == ':' || s[i + 1] == '/');
      assert At(s, "::", i) || At(s, ":/", i);
    }
    if Contains(s, "::") {
      var i: nat :| At(s, "::", i);
      assert s[i] == "::"[0] && s[i + 1] == "::"[1];
    }
    if Contains(s, ":/") {
      var i: nat :| At(s, ":/", i);
      assert s[i] == ":/"[0] && s[i + 1] == ":/"[1];
    }
  }

  // ---------------------------------------------------------------- where the marker is found

  const DDS := "dds_::"

  lemma AtDds(s: string)
    ensures At(s, DDS, 0) <==>
      |s| >= 6 && s[0] == 'd' && s[1] == 'd' && s[2] == 's' && s[3] == '_' && s[4] == ':' && s[5] == ':'
  {
    if At(s, DDS, 0) {
      assert s[0] == DDS[0] && s[1] == DDS[1] && s[2] == DDS[2] && s[3] == DDS[3] && s[4] == DDS[4] && s[5] == DDS[5];
    }
  }

  /** `s` starts with the marker as it is written before expansion. */
  predicate StartsMarked(s: string) {
    |s| >= 5 && s[0] == 'd' && s[1] == 'd' && s[2] == 's' && s[3] == '_' && s[4] == '/'
  }

  predicate Marked(s: string) {
    s != "" && (StartsMarked(s) || Marked(s[1..]))
  }

  lemma {:induction false} MarkedIs(s: string)
    ensures Marked(s) <==> Contains(s, "dds_/")
  {
    if s != "" {
      MarkedIs(s[1..]);
      var m := "dds_/";
      assert StartsMarked(s) <==> At(s, m, 0) by {
        if At(s, m, 0) { assert s[0] == m[0] && s[1] == m[1] && s[2] == m[2] && s[3] == m[3] && s[4] == m[4]; }
      }
      if Contains(s, m) && !At(s, m, 0) {
        var i: nat :| At(s, m, i);
        assert s[1..] == s[1..|s|];
        AtPart(s, 1, |s|, m, i - 1);
      }
      if Contains(s[1..], m) {
        var i: nat :| At(s[1..], m, i);
        assert s[1..] == s[1..|s|];
        AtPart(s, 1, |s|, m, i);
      }
    }
  }

  lemma {:induction false} ExpandTake(s: string, n: nat)
    requires n <= |s| && forall i :: 0 <= i < n ==> s[i] != '/'
    ensures Expand(s) == s[..n] + Expand(s[n..])
  {
    if n == 0 {
      assert s[0..] == s;
    } else {
      ExpandTake(s[1..], n - 1);
      assert s[..n] == [s[0]] + s[1..][..n - 1] && s[1..][n - 1..] == s[n..];
      assert [s[0]] + (s[1..][..n - 1] + Expand(s[n..])) == [s[0]] + s[1..][..n - 1] + Expand(s[n..]);
    }
  }

  /** In front of the marker, an expanded clean string starts with the marker only if it was marked. */
  lemma StartOfExpansion(s: string, rest: string)
    requires s != "" && Clean(s) && DDS <= rest
    ensures At(Expand(s) + rest, DDS, 0) <==> StartsMarked(s)
  {
    var x := Expand(s) + rest;
    AtDds(x);
    ExpandTake(s, 0);
    if s[0] == 'd' {
      Letters(s, rest, 1);
      if |s| > 1 && s[1] == 'd' {
        Letters(s, rest, 2);
        if |s| > 2 && s[2] == 's' {
          Letters(s, rest, 3);
          if |s| > 3 && s[3] == '_' {
            Letters(s, rest, 4);
            if |s| > 4 { ColonNext(s, rest); }
          }
        }
      }
    } else {
      ExpandStart(s);
      assert x[0] == Expand(s)[0];
    }
  }

  /** After `n` plain characters the expansion goes on with that of the next character, or with the rest. */
  lemma Letters(s: string, rest: string, n: nat)
    requires n <= |s| && (forall i :: 0 <= i < n ==> s[i] != '/') && DDS <= rest
    ensures var x := Expand(s) + rest;
      && |x| > n && x[..n] == s[..n]
      && (n == |s| ==> x[n] == 'd')
      && (n < |s| ==> x[n] == if s[n] == '/' then ':' else s[n])
  {
    ExpandTake(s, n);
    var e := Expand(s[n..]);
    assert Expand(s) + rest == s[..n] + (e + rest);
    if n == |s| { assert e == "" && e + rest == rest; }
  }

  lemma ColonNext(s: string, rest: string)
    requires |s| > 4 && Clean(s) && DDS <= rest && forall i :: 0 <= i < 4 ==> s[i] != '/'
    ensures var x := Expand(s) + rest; |x| > 5 && (x[4] == ':' && x[5] == ':' <==> s[4] == '/')
  {
    ExpandTake(s, 4);
    var e := Expand(s[4..]);
    assert Expand(s) + rest == s[..4] + (e + rest);
    if s[4] != '/' {
      Letters(s, rest, 5);
      assert s[4] == ':' && |s| > 5 ==> s[5] != ':' && s[5] != '/';
    }
  }

  /** Behind an expanded clean string the marker is found just if the string was not marked itself. */
  lemma {:induction false} MarkerFound(s: string, rest: string)
    requires Clean(s) && DDS <= rest
    ensures Find(Expand(s) + rest, DDS, 0) == |Expand(s)| <==> !Marked(s)
  {
    var x := Expand(s) + rest;
    if s == "" {
      assert x == rest;
    } else {
      StartOfExpansion(s, rest);
      CleanTail(s);
      ExpandStart(s);
      if !StartsMarked(s) {
        MarkerFound(s[1..], rest);
        MarkerFurther(s, rest);
      }
    }
  }

  lemma MarkerFurther(s: string, rest: string)
    requires s != "" && DDS <= rest && !(DDS <= Expand(s) + rest)
    ensures Find(Expand(s) + rest, DDS, 0) == |Expand(s)| <==> Find(Expand(s[1..]) + rest, DDS, 0) == |Expand(s[1..])|
  {
    var y := Expand(s[1..]) + rest;
    if s[0] == '/' {
      Regrouped("::", Expand(s[1..]), rest);
      BehindColons(y);
    } else {
      Regrouped([s[0]], Expand(s[1..]), rest);
      assert ([s[0]] + y)[1..] == y;
      FindInTail([s[0]] + y, DDS);
    }
  }

  lemma BehindColons(y: string)
    ensures Find("::" + y, DDS, 0) == if Find(y, DDS, 0) == -1 then -1 else 2 + Find(y, DDS, 0)
  {
    var x := "::" + y;
    assert x[1..] == ":" + y && x[1..][1..] == y;
    assert x[1] == ':' && DDS[0] == 'd';
    FindInTail(x, DDS);
    FindInTail(x[1..], DDS);
  }

  // ---------------------------------------------------------------- message types

  function MangleType(t: string): string {
    var p := Find(t, "/msg/", 0);
    if p == -1 || p + 5 == |t| then t else Mangled(t[..p + 5], t[p + 5..])
  }

  function Mangled(ns: string, name: string): string {
    Expand(ns) + (DDS + name) + "_"
  }

  function DemangleType(t: string): string
    requires t != ""
  {
    DemangledAt(t, Find(t, DDS, 0))
  }

  function DemangledAt(t: string, p: int): string
    requires t != "" && (p == -1 || 0 <= p <= |t| - 6)
  {
    if t[|t| - 1] != '_' || p == -1 || p + 6 == |t| then t else Contract(t[..p]) + t[p + 6..|t| - 1]
  }

  /** A message type has a namespace that ends with "/msg/", and a name. */
  predicate IsMessageType(t: string) {
    var p := Find(t, "/msg/", 0);
    0 <= p < |t| - 5
  }

  function Namespace(t: string): string
    requires IsMessageType(t)
  {
    t[..Find(t, "/msg/", 0) + 5]
  }

  /** A namespace that survives: no colon in front of a colon or slash, and no marker. */
  ghost predicate Plain(ns: string) {
    !Contains(ns, "::") && !Contains(ns, ":/") && !Contains(ns, "dds_/")
  }

  lemma EndsDiffer(u: string, c: char, v: string, d: char, w: string)
    requires c != d
    ensures u + [c] + w != v + [d] + w
  {
    var x, y := u + [c] + w, v + [d] + w;
    assert x[|x| - |w| - 1] == c && y[|y| - |w| - 1] == d;
  }

  lemma MarkerStands(e: string, rest: string)
    requires DDS <= rest
    ensures 0 <= Find(e + rest, DDS, 0) <= |e|
  {
    var x := e + rest;
    assert x[|e|..|x|] == rest;
    AtPart(x, |e|, |x|, DDS, 0);
    FindIsFirst(x, DDS, 0, |e|);
  }

  /** What demangling makes of a namespace and a name put together around the marker. */
  lemma AroundMarker(ns: string, name: string, x: string, k: nat)
    requires ns != "" && ns[|ns| - 1] == '/'
    requires x == Expand(ns) + (DDS + name) && k == Find(x, DDS, 0)
    ensures k + 6 <= |x| && (Contract(x[..k]) + x[k + 6..] == ns + name <==> Plain(ns))
  {
    var e := Expand(ns);
    MarkerStands(e, DDS + name);
    ContractUndoesExpand(ns);
    CleanIs(ns);
    MarkedIs(ns);
    if k == |e| {
      assert x[..k] == e && x[k + 6..] == name;
      SameTail(Contract(e), ns, name);
    } else {
      MarkerEarlier(ns, name, e, x, k, Contract(x[..k]));
    }
    if Clean(ns) { MarkerFound(ns, DDS + name); }
  }

  /** If the marker is found too early, a colon stands where the last slash should be. */
  lemma MarkerEarlier(ns: string, name: string, e: string, x: string, k: nat, front: string)
    requires ns != "" && ns[|ns| - 1] == '/' && x == e + (DDS + name) && k < |e|
    ensures front + x[k + 6..] != ns + name
  {
    var middle := (e + DDS)[k + 6..|e| + 5];
    assert x[k + 6..] == middle + ":" + name;
    assert ns == ns[..|ns| - 1] + ['/'];
    EndsDiffer(front + middle, ':', ns[..|ns| - 1], '/', name);
  }

  lemma SameTail(a: string, b: string, t: string)
    ensures a + t == b + t <==> a == b
  {
    if a + t == b + t { assert a == (a + t)[..|a|] && b == (b + t)[..|b|] && |a + t| == |b + t|; }
  }

  /** Demangling a mangled type gives it back: for a message type, just if its namespace is plain; any
      other type is not mangled, and comes back just if it does not look mangled already. */
  lemma TypeRoundTrip(t: string)
    requires t != ""
    ensures MangleType(t) != ""
    ensures IsMessageType(t) ==> (DemangleType(MangleType(t)) == t <==> Plain(Namespace(t)))
    ensures !IsMessageType(t) ==> (DemangleType(MangleType(t)) == t <==> !(t[|t| - 1] == '_' && Contains(t, DDS)))
  {
    if IsMessageType(t) {
      MessageRoundTrip(t, Namespace(t), t[|Namespace(t)|..]);
    } else {
      OtherRoundTrip(t);
    }
  }

  lemma OtherRoundTrip(t: string)
    requires t != "" && !IsMessageType(t)
    ensures MangleType(t) == t
    ensures DemangleType(t) == t <==> !(t[|t| - 1] == '_' && Contains(t, DDS))
  {
    FindIsContains(t, DDS);
    FindStands(t, DDS, 0);
    var p := Find(t, DDS, 0);
    if t[|t| - 1] == '_' && p >= 0 {
      LastOfDds(t, p);
      ContractShrinks(t[..p]);
    }
  }

  lemma LastOfDds(t: string, p: nat)
    requires At(t, DDS, p) && t[|t| - 1] == '_'
    ensures p + 6 < |t|
  {
    assert t[p + 5] == DDS[5];
  }

  lemma {:induction false} ContractShrinks(s: string)
    ensures |Contract(s)| <= |s|
    decreases |s|
  {
    if s != "" {
      if |s| >= 2 && s[0] == ':' && s[1] == ':' { ContractShrinks(s[2..]); } else { ContractShrinks(s[1..]); }
    }
  }

  lemma MessageRoundTrip(t: string, ns: string, name: string)
    requires IsMessageType(t) && ns == Namespace(t) && name == t[|ns|..]
    ensures MangleType(t) != "" && (DemangleType(MangleType(t)) == t <==> Plain(ns))
  {
    var x := Expand(ns) + (DDS + name);
    MessageParts(t, ns, name);
    MarkerStands(Expand(ns), DDS + name);
    DemangledIs(x, Find(x, DDS, 0));
    AroundMarker(ns, name, x, Find(x, DDS, 0));
  }

  lemma MessageParts(t: string, ns: string, name: string)
    requires IsMessageType(t) && ns == Namespace(t) && name == t[|ns|..]
    ensures ns + name == t && ns[|ns| - 1] == '/' && MangleType(t) == Mangled(ns, name)
  {
    FindStands(t, "/msg/", 0);
    SlashAtEnd(t, "/msg/", Find(t, "/msg/", 0));
  }

  lemma SlashAtEnd(t: string, marker: string, p: nat)
    requires At(t, marker, p) && |marker| == 5 && marker[4] == '/'
    ensures t[p + 4] == '/' && t[..p + 5] + t[p + 5..] == t
  {
  }

  lemma Regrouped(a: string, b: string, c: string)
    ensures a + b + c == a + (b + c)
  {
  }

  lemma DemangledIs(x: string, k: nat)
    requires k == Find(x, DDS, 0)
    ensures k + 6 <= |x| && DemangleType(x + "_") == Contract(x[..k]) + x[k + 6..]
  {
    FindInLonger(x, "_", DDS);
    UnderscoreCut(x, k);
  }

  lemma UnderscoreCut(x: string, k: nat)
    requires k + 6 <= |x|
    ensures DemangledAt(x + "_", k) == Contract(x[..k]) + x[k + 6..]
  {
    PartsOfLonger(x, "_", k, k + 6);
    assert |x + "_"| - 1 == |x| && (x + "_")[|x|] == '_';
  }

  /** What is found in a string is found there in a longer one. */
  lemma FindInLonger(x: string, y: string, a: string)
    requires Find(x, a, 0) >= 0
    ensures Find(x + y, a, 0) == Find(x, a, 0)
  {
    var z := x + y;
    assert z[0..|x|] == x;
    FindStands(x, a, 0);
    AtPart(z, 0, |x|, a, Find(x, a, 0));
    FindIsFirst(z, a, 0, Find(x, a, 0));
    FindStands(z, a, 0);
    AtPart(z, 0, |x|, a, Find(z, a, 0));
    FindIsFirst(x, a, 0, Find(z, a, 0));
  }

  /** Mangles a type if it is a message type. */
  method MangleIfRosType(t: string) returns (m: string)
    ensures m == MangleType(t)
  {
    var position := Find(t, "/msg/", 0);
    if position == -1 {
      return t;
    }
    var typeNamespace, typeName := t[..position + 5], t[position + 5..];
    if |typeName| == 0 {
      return t;
    }
    var n;
    ExpandIsOnePass(typeNamespace);
    ShrinkingEnds(typeNamespace, "/", "::");
    typeNamespace, n := ReplaceAll(typeNamespace, "/", "::");
    Regrouped(typeNamespace, DDS, typeName);
    m := typeNamespace + DDS + typeName + "_";
  }

  /** Demangles a type if it is a mangled one. */
  method DemangleIfRosType(t: string) returns (d: string)
    requires t != ""
    ensures d == DemangleType(t)
  {
    if t[|t| - 1] != '_' {
      return t;
    }
    var position := Find(t, DDS, 0);
    if position == -1 {
      return t;
    }
    FindStands(t, DDS, 0);
    LastOfDds(t, position);
    var typeNamespace := t[..position];
    var n;
    ContractIsOnePass(typeNamespace);
    ShrinkingEnds(typeNamespace, "::", "/");
    typeNamespace, n := ReplaceAll(typeNamespace, "::", "/");
    var start := position + |DDS|;
    d := typeNamespace + t[start..|t| - 1];
  }

  // ---------------------------------------------------------------- service types

  /** The last position where `a` stands, or -1. */
  function FindLast(s: string, a: string): (p: int)
    ensures p == -1 || 0 <= p <= |s| - |a|
  {
    if |a| > |s| then -1 else FindLastFrom(s, a, |s| - |a|)
  }

  function FindLastFrom(s: string, a: string, i: nat): (p: int)
    requires i + |a| <= |s|
    ensures -1 <= p <= i
  {
    if At(s, a, i) then i else if i == 0 then -1 else FindLastFrom(s, a, i - 1)
  }

  lemma AtEnd(s: string, a: string)
    ensures FindLast(s + a, a) == |s|
  {
  }

  const REQUEST := "_Request_"
  const RESPONSE := "_Response_"

  /** Where the suffix of a mangled service type is taken to stand, or -1. */
  function SuffixPosition(t: string): int {
    var p := FindLast(t, RESPONSE);
    if p != -1 && p + |RESPONSE| == |t| then p else FindLast(t, REQUEST)
  }

  /** The name goes up to the suffix, or to the end should the suffix stand in front of it. */
  function DemangleServiceType(t: string): string {
    var p, q := Find(t, DDS, 0), SuffixPosition(t);
    if p == -1 || q == -1 then ""
    else Contract(t[..p]) + t[p + 6..if q < p + 6 then |t| else q]
  }

  function MangleServiceType(t: string): string {
    var p := Find(t, "/srv/", 0);
    if p == -1 then ""
    else
      var d := t[..p + 5] + DDS + t[p + 5..];
      if Find(t, "rq/", 0) == 0 then Expand(d + REQUEST)
      else if Find(t, "rr/", 0) == 0 then Expand(d + RESPONSE)
      else ""
  }

  predicate IsServiceType(t: string) {
    Find(t, "/srv/", 0) != -1
  }

  function ServiceNamespace(t: string): string
    requires IsServiceType(t)
  {
    t[..Find(t, "/srv/", 0) + 5]
  }

  /** A service type that survives: it is that of a request or a reply, its namespace is plain, and its
      name has no slash. */
  ghost predicate Survives(t: string)
    requires IsServiceType(t)
  {
    && ("rq/" <= t || "rr/" <= t)
    && Plain(ServiceNamespace(t)) && '/' !in t[|ServiceNamespace(t)|..]
  }

  lemma SuffixOf(x: string, response: bool)
    ensures var suffix := if response then RESPONSE else REQUEST; SuffixPosition(x + suffix) == |x|
  {
    if response {
      AtEnd(x, RESPONSE);
    } else {
      AtEnd(x, REQUEST);
      FindLastStands(x + REQUEST, RESPONSE);
      assert (x + REQUEST)[|x| + 7] == 't' && RESPONSE[8] == 'e';
    }
  }

  lemma FindLastStands(s: string, a: string)
    ensures FindLast(s, a) >= 0 ==> At(s, a, FindLast(s, a))
  {
    if |a| <= |s| { FindLastFromStands(s, a, |s| - |a|); }
  }

  lemma {:induction false} FindLastFromStands(s: string, a: string, i: nat)
    requires i + |a| <= |s|
    ensures FindLastFrom(s, a, i) >= 0 ==> At(s, a, FindLastFrom(s, a, i))
  {
    if !At(s, a, i) && i > 0 { FindLastFromStands(s, a, i - 1); }
  }

  lemma MangledServiceIs(a: string, b: string, c: string, d: string)
    requires '/' !in b && '/' !in d
    ensures Expand(a + b + c + d) == Expand(a) + (b + Expand(c)) + d
  {
    ExpandConcat(a + b + c, d);
    ExpandKeeps(d);
    ExpandMiddle(a, b, c);
  }

  lemma ExpandMiddle(a: string, b: string, c: string)
    requires '/' !in b
    ensures Expand(a + b + c) == Expand(a) + (b + Expand(c))
  {
    ExpandConcat(a + b, c);
    ExpandConcat(a, b);
    ExpandKeeps(b);
    Regrouped(Expand(a), b, Expand(c));
  }

  lemma DemangledServiceIs(x: string, k: nat, suffix: string)
    requires k == Find(x, DDS, 0) && SuffixPosition(x + suffix) == |x|
    ensures k + 6 <= |x| && DemangleServiceType(x + suffix) == Contract(x[..k]) + x[k + 6..]
  {
    FindInLonger(x, suffix, DDS);
    PartsOfLonger(x, suffix, k, k + 6);
  }

  lemma PartsOfLonger(x: string, y: string, i: nat, j: nat)
    requires i <= j <= |x|
    ensures (x + y)[..i] == x[..i] && (x + y)[j..|x|] == x[j..]
  {
  }

  /** If the name has a slash, a colon stands where its last slash should be. */
  lemma SlashInName(u: string, ns: string, name: string)
    requires '/' in name
    ensures u + Expand(name) != ns + name
  {
    var i :| 0 <= i < |name| && name[i] == '/';
    LastSlash(u, ns, name, i);
  }

  lemma {:induction false} LastSlash(u: string, ns: string, name: string, i: nat)
    requires i < |name| && name[i] == '/'
    ensures u + Expand(name) != ns + name
    decreases |name| - i
  {
    var v, w := name[..i], name[i + 1..];
    if '/' in w {
      var j :| 0 <= j < |w| && w[j] == '/';
      LastSlash(u, ns, name, i + 1 + j);
    } else {
      assert name == v + ['/'] + w;
      ExpandAtSlash(v, w);
      Regroup(u, Expand(v) + ":", [':'], w);
      Regroup(ns, v, ['/'], w);
      EndsDiffer(u + (Expand(v) + ":"), ':', ns + v, '/', w);
    }
  }

  lemma Regroup(a: string, b: string, c: string, d: string)
    ensures a + (b + c + d) == (a + b) + c + d
  {
  }

  lemma ExpandAtSlash(v: string, w: string)
    requires '/' !in w
    ensures Expand(v + ['/'] + w) == Expand(v) + ":" + [':'] + w
  {
    ExpandConcat(v + ['/'], w);
    ExpandConcat(v, ['/']);
    ExpandKeeps(w);
    assert ['/'][1..] == "" && Expand(['/']) == ":" + ":";
    assert Expand(v) + (":" + ":") == Expand(v) + ":" + [':'];
  }

  lemma AroundServiceMarker(ns: string, name: string, x: string, k: nat)
    requires ns != "" && ns[|ns| - 1] == '/'
    requires x == Expand(ns) + (DDS + Expand(name)) && k == Find(x, DDS, 0)
    ensures k + 6 <= |x| && (Contract(x[..k]) + x[k + 6..] == ns + name <==> Plain(ns) && '/' !in name)
  {
    MarkerStands(Expand(ns), DDS + Expand(name));
    if '/' !in name {
      ExpandKeeps(name);
      AroundMarker(ns, name, x, k);
    } else {
      SlashInName(Contract(x[..k]) + (Expand(ns) + DDS)[k + 6..], ns, name);
    }
  }

  /** Demangling a mangled service type gives it back just if it survives. */
  lemma ServiceTypeRoundTrip(t: string)
    requires IsServiceType(t)
    ensures DemangleServiceType(MangleServiceType(t)) == t <==> Survives(t)
  {
    PrefixFound(t);
    if "rq/" <= t || "rr/" <= t {
      MarkedRoundTrip(t, ServiceNamespace(t), t[|ServiceNamespace(t)|..], !("rq/" <= t));
    } else {
      assert MangleServiceType(t) == "" && DemangleServiceType("") == "";
    }
  }

  lemma MarkedRoundTrip(t: string, ns: string, name: string, response: bool)
    requires IsServiceType(t) && ns == ServiceNamespace(t) && name == t[|ns|..]
    requires ("rq/" <= t || "rr/" <= t) && response == !("rq/" <= t)
    ensures DemangleServiceType(MangleServiceType(t)) == t <==> Plain(ns) && '/' !in name
  {
    var suffix := if response then RESPONSE else REQUEST;
    var x := Expand(ns) + (DDS + Expand(name));
    ServiceParts(t, ns, name, response);
    MarkerStands(Expand(ns), DDS + Expand(name));
    SuffixOf(x, response);
    DemangledServiceIs(x, Find(x, DDS, 0), suffix);
    AroundServiceMarker(ns, name, x, Find(x, DDS, 0));
  }

  lemma ServiceParts(t: string, ns: string, name: string, response: bool)
    requires IsServiceType(t) && ns == ServiceNamespace(t) && name == t[|ns|..]
    requires ("rq/" <= t || "rr/" <= t) && response == !("rq/" <= t)
    ensures ns + name == t && ns[|ns| - 1] == '/'
    ensures MangleServiceType(t) == Expand(ns) + (DDS + Expand(name)) + if response then RESPONSE else REQUEST
  {
    PrefixFound(t);
    FindStands(t, "/srv/", 0);
    SlashAtEnd(t, "/srv/", Find(t, "/srv/", 0));
    MangledServiceIs(ns, DDS, name, if response then RESPONSE else REQUEST);
  }

  lemma PrefixFound(t: string)
    ensures Find(t, "rq/", 0) == 0 <==> "rq/" <= t
    ensures Find(t, "rr/", 0) == 0 <==> "rr/" <= t
  {
    FindStands(t, "rq/", 0);
    FindStands(t, "rr/", 0);
  }

  /** Mangles the type of a service request or reply. */
  method MangleServiceTypeOnly(t: string) returns (m: string)
    ensures m == MangleServiceType(t)
  {
    var position := Find(t, "/srv/", 0);
    if position == -1 {
      return "";
    }
    m := t[..position + 5] + DDS;
    m := m + t[position + 5..];
    if Find(t, "rq/", 0) == 0 {
      m := m + REQUEST;
    } else if Find(t, "rr/", 0) == 0 {
      m := m + RESPONSE;
    } else {
      return "";
    }
    ExpandIsOnePass(m);
    ShrinkingEnds(m, "/", "::");
    var n;
    m, n := ReplaceAll(m, "/", "::");
  }

  /** Looks for one suffix after the other, and goes on with the next if one does not stand at the end. */
  method FindSuffix(t: string) returns (position: int)
    ensures position == SuffixPosition(t)
  {
    var suffixes := [RESPONSE, REQUEST];
    position := 0;
    var i := 0;
    while i < |suffixes|
      invariant 0 <= i <= 2
      invariant i > 0 ==> position == FindLast(t, suffixes[i - 1])
      invariant i > 0 ==> !(FindLast(t, RESPONSE) != -1 && FindLast(t, RESPONSE) + |RESPONSE| == |t|)
    {
      position := FindLast(t, suffixes[i]);
      if position != -1 && |t| - position - |suffixes[i]| == 0 {
        break;
      }
      i := i + 1;
    }
  }

  /** Demangles the type of a service request or reply. */
  method DemangleServiceTypeOnly(t: string) returns (d: string)
    ensures d == DemangleServiceType(t)
  {
    var nsPosition := Find(t, DDS, 0);
    if nsPosition == -1 {
      return "";
    }
    var position := FindSuffix(t);
    if position == -1 {
      return "";
    }
    var typeNamespace := t[..nsPosition];
    var n;
    ContractIsOnePass(typeNamespace);
    ShrinkingEnds(typeNamespace, "::", "/");
    typeNamespace, n := ReplaceAll(typeNamespace, "::", "/");
    var start := nsPosition + |DDS|;
    d := typeNamespace + t[start..if position < start then |t| else position];
  }

  // ---------------------------------------------------------------- the names themselves

  lemma FoundBehind(front: string, a: string, rest: string, p: nat)
    requires At(front + a + rest, a, |front|) && p == |front|
    requires forall i :: 0 <= i < |front| ==> !At(front + a + rest, a, i)
    ensures Find(front + a + rest, a, 0) == p
  {
    var s := front + a + rest;
    FindIsFirst(s, a, 0, p);
    FindStands(s, a, 0);
  }

  lemma NotAtOther(s: string, a: string, i: nat)
    requires a != "" && i < |s| && s[i] != a[0]
    ensures !At(s, a, i)
  {
  }

  /** The marker of a namespace behind a package name without slashes. */
  lemma MarkerBehind(pkg: string, marker: string, name: string)
    requires '/' !in pkg && |marker| == 5 && marker[0] == '/'
    ensures Find(pkg + marker + name, marker, 0) == |pkg|
  {
    var s := pkg + marker + name;
    forall i | 0 <= i < |pkg|
      ensures !At(s, marker, i)
    {
      assert s[i] == pkg[i];
      NotAtOther(s, marker, i);
    }
    FoundBehind(pkg, marker, name, |pkg|);
  }

  /** A message type such as "std_msgs/msg/String", as DDS sees it: "std_msgs::msg::dds_::String_". */
  lemma MangledMessage(pkg: string, name: string)
    requires '/' !in pkg && name != ""
    ensures MangleType(pkg + "/msg/" + name) == pkg + "::msg::dds_::" + name + "_"
  {
    var t := pkg + "/msg/" + name;
    assert MangleType(t) == Mangled(pkg + "/msg/", name) by {
      MarkerBehind(pkg, "/msg/", name);
      assert t[..|pkg| + 5] == pkg + "/msg/" && t[|pkg| + 5..] == name;
    }
    ExpandOfNamespace(pkg);
    assert pkg + "::msg::" + ("dds_::" + name) == pkg + "::msg::dds_::" + name;
  }

  lemma ExpandOfNamespace(pkg: string)
    requires '/' !in pkg
    ensures Expand(pkg + "/msg/") == pkg + "::msg::"
  {
    ExpandConcat(pkg, "/msg/");
    ExpandKeeps(pkg);
    ExpandOfMarker("msg");
    assert "/" + "msg" + "/" == "/msg/" && "::" + "msg" + "::" == "::msg::";
  }

  lemma ExpandOfMarker(word: string)
    requires '/' !in word
    ensures Expand("/" + word + "/") == "::" + word + "::"
  {
    ExpandConcat("/" + word, "/");
    ExpandConcat("/", word);
    ExpandKeeps(word);
    assert Expand("/") == "::" by { assert "/"[1..] == "" && "::" + "" == "::"; }
  }

  /** A service type such as "rq/pkg/srv/Add", as DDS sees it: "rq::pkg::srv::dds_::Add_Request_"; and the type of
      a reply, with "rr" and "_Response_". */
  lemma MangledService(pkg: string, name: string)
    requires '/' !in pkg && '/' !in name && pkg != "srv"
    ensures MangleServiceType("rq/" + pkg + "/srv/" + name) == "rq::" + pkg + "::srv::dds_::" + name + "_Request_"
    ensures MangleServiceType("rr/" + pkg + "/srv/" + name) == "rr::" + pkg + "::srv::dds_::" + name + "_Response_"
  {
    assert "rq" + "/" == "rq/" && "rq" + "::" == "rq::" && "rr" + "/" == "rr/" && "rr" + "::" == "rr::";
    MangledServiceWith("rq", pkg, name, "_Request_");
    MangledServiceWith("rr", pkg, name, "_Response_");
  }

  lemma MangledServiceWith(prefix: string, pkg: string, name: string, suffix: string)
    requires '/' !in pkg && '/' !in name && pkg != "srv"
    requires (prefix == "rq" && suffix == "_Request_") || (prefix == "rr" && suffix == "_Response_")
    ensures MangleServiceType(prefix + "/" + pkg + "/srv/" + name) ==
      prefix + "::" + pkg + "::srv::dds_::" + name + suffix
  {
    var front := prefix + "/" + pkg;
    var t := front + "/srv/" + name;
    ServiceMarkerBehind(prefix, pkg, name);
    CutNamespace(front, name);
    PrefixOf(t, prefix);
    assert MangleServiceType(t) == Expand(front + "/srv/" + "dds_::" + name + suffix);
    ExpandFront(prefix, pkg);
    MangledServiceIs(front + "/srv/", "dds_::", name, suffix);
    ExpandKeeps(name);
    Glued(prefix + "::" + pkg, name, suffix);
  }

  lemma {:induction false} FindLastFromIs(s: string, a: string, i: nat, q: int)
    requires i + |a| <= |s| && -1 <= q <= i && (q >= 0 ==> IsSlice(s, a, q))
    requires forall j :: q < j <= i ==> !IsSlice(s, a, j)
    ensures FindLastFrom(s, a, i) == q
  {
    AtIsIsSlice(s, a, i);
    if q < i && i > 0 { FindLastFromIs(s, a, i - 1, q); }
  }

  lemma FindLastIs(s: string, a: string, q: int)
    requires -1 <= q && (q >= 0 ==> IsSlice(s, a, q)) && forall j :: q < j ==> !IsSlice(s, a, j)
    ensures FindLast(s, a) == q
  {
    if |a| <= |s| { FindLastFromIs(s, a, |s| - |a|, q); }
  }

  /** "_Response_" stands at position `q`, at the very end, or else "_Request_" stands there for the last time. */
  ghost predicate SuffixAt(t: string, q: int) {
    if |t| >= 10 && t[|t| - 10..] == "_Response_" then q == |t| - 10
    else -1 <= q && (q >= 0 ==> IsSlice(t, "_Request_", q)) && forall j :: q < j ==> !IsSlice(t, "_Request_", j)
  }

  lemma SuffixAtIs(t: string, q: int)
    requires SuffixAt(t, q)
    ensures SuffixPosition(t) == q
  {
    var p := FindLast(t, "_Response_");
    FindLastStands(t, "_Response_");
    if |t| >= 10 && t[|t| - 10..] == "_Response_" {
      AtEnd(t[..|t| - 10], "_Response_");
      assert t[..|t| - 10] + "_Response_" == t;
    } else {
      if p >= 0 { AtIsIsSlice(t, "_Response_", p); }
      FindLastIs(t, "_Request_", q);
    }
  }

  /** "dds_::" stands at position `p` for the first time, or nowhere. */
  ghost predicate MarkerAt(t: string, p: int) {
    -1 <= p && (p >= 0 ==> IsSlice(t, "dds_::", p)) && forall i :: i < p || p < 0 ==> !IsSlice(t, "dds_::", i)
  }

  lemma MarkerAtIs(t: string, p: int)
    requires MarkerAt(t, p)
    ensures Find(t, DDS, 0) == p
  {
    var f := Find(t, "dds_::", 0);
    ContainsIsSlice(t, "dds_::");
    if p >= 0 { assert Contains(t, "dds_::"); }
  }

  /** What is demangled of any service type: the namespace in front of the first "dds_::", and the name behind it
      up to the suffix, or up to the end if the suffix stands in front of it; nothing without one or the other. */
  lemma DemangledService(t: string, p: int, q: int)
    requires MarkerAt(t, p) && SuffixAt(t, q)
    ensures DemangleServiceType(t) ==
      if p == -1 || q == -1 then "" else Contract(t[..p]) + if q < p + 6 then t[p + 6..] else t[p + 6..q]
  {
    SuffixAtIs(t, q);
    MarkerAtIs(t, p);
    if p >= 0 { assert t[p + 6..|t|] == t[p + 6..]; }
  }

  /** And of any message type: the same up to an underscore at the end; a type without the marker or the
      underscore, or with nothing between them, is left alone. */
  lemma DemangledMessage(t: string, p: int)
    requires t != "" && MarkerAt(t, p)
    ensures DemangleType(t) ==
      if p == -1 || t[|t| - 1] != '_' || p + 6 == |t| then t else Contract(t[..p]) + t[p + 6..|t| - 1]
  {
    MarkerAtIs(t, p);
  }

  lemma CutNamespace(front: string, name: string)
    ensures var t := front + "/srv/" + name; t[..|front| + 5] == front + "/srv/" && t[|front| + 5..] == name
  {
  }

  lemma Glued(front: string, name: string, suffix: string)
    ensures front + "::srv::" + ("dds_::" + name) + suffix == front + "::srv::dds_::" + name + suffix
  {
    assert "::srv::" + "dds_::" == "::srv::dds_::";
    assert front + "::srv::" + ("dds_::" + name) == front + ("::srv::" + "dds_::") + name;
  }

  lemma PrefixOf(t: string, prefix: string)
    requires (prefix == "rq" || prefix == "rr") && |t| > 2 && t[..2] == prefix && t[2] == '/'
    ensures Find(t, "rq/", 0) == 0 <==> prefix == "rq"
    ensures Find(t, "rr/", 0) == 0 <==> prefix == "rr"
  {
    PrefixFound(t);
    assert t[1] == t[..2][1];
    assert "rq/" <= t <==> prefix == "rq";
    assert "rr/" <= t <==> prefix == "rr";
  }

  lemma ExpandFront(prefix: string, pkg: string)
    requires '/' !in prefix && '/' !in pkg
    ensures Expand(prefix + "/" + pkg + "/srv/") == prefix + "::" + pkg + "::srv::"
  {
    ExpandConcat(prefix + "/" + pkg, "/srv/");
    ExpandConcat(prefix + "/", pkg);
    ExpandConcat(prefix, "/");
    ExpandKeeps(prefix);
    ExpandKeeps(pkg);
    ExpandOfMarker("srv");
    assert "/" + "srv" + "/" == "/srv/" && "::" + "srv" + "::" == "::srv::";
    assert Expand("/") == "::" by { assert "/"[1..] == "" && "::" + "" == "::"; }
  }

  lemma ServiceMarkerBehind(prefix: string, pkg: string, name: string)
    requires '/' !in pkg && pkg != "srv" && (prefix == "rq" || prefix == "rr")
    ensures Find(prefix + "/" + pkg + "/srv/" + name, "/srv/", 0) == 3 + |pkg|
  {
    var front := prefix + "/" + pkg;
    var s := front + "/srv/" + name;
    assert s[3..3 + |pkg|] == pkg && s[3 + |pkg|] == "/srv/"[0];
    forall i | 0 <= i < |front|
      ensures !At(s, "/srv/", i)
    {
      assert s[i] == front[i];
      if i == 2 {
        SecondSlash(s, pkg);
      } else {
        NotAtOther(s, "/srv/", i);
      }
    }
    FoundBehind(front, "/srv/", name, 3 + |pkg|);
  }

  /** Behind the first slash the marker stands only if the package is called like it. */
  lemma SecondSlash(s: string, pkg: string)
    requires |s| > 3 + |pkg| && s[3..3 + |pkg|] == pkg && s[3 + |pkg|] == '/' && '/' !in pkg && pkg != "srv"
    ensures !At(s, "/srv/", 2)
  {
    var m := "/srv/";
    assert m[1..4] == "srv";
    if |pkg| < 3 {
      Mismatch(s, m, 2, 1 + |pkg|);
    } else if |pkg| > 3 {
      assert s[6] == s[3..3 + |pkg|][3] == pkg[3];
      Mismatch(s, m, 2, 4);
    } else {
      var k :| 0 <= k < 3 && pkg[k] != m[1..4][k];
      assert s[3 + k] == s[3..6][k];
      Mismatch(s, m, 2, 1 + k);
    }
  }

  lemma Mismatch(s: string, a: string, i: nat, k: nat)
    requires k < |a| && i + k < |s| && s[i + k] != a[k]
    ensures !At(s, a, i)
  {
  }

  /** The topics "/name", with and without their prefixes. */
  lemma MangledTopics(name: string)
    ensures MangleTopic("/" + name) == "rt/" + name
    ensures DemangleTopic("rt/" + name) == DemangleTopic("rq/" + name) == DemangleTopic("rr/" + name) == "/" + name
  {
    assert "rt" + ("/" + name) == "rt/" + name && ("rt/" + name)[2..] == "/" + name;
    assert ("rq/" + name)[2..] == "/" + name && ("rr/" + name)[2..] == "/" + name;
  }

  /** The topics of a service called "/name". */
  lemma MangledServiceTopics(name: string)
    requires '/' !in name
    ensures MangleServiceTopic("rq", "/" + name, "Request") == "rq/" + name + "Request"
    ensures MangleServiceTopic("rr", "/" + name, "Reply") == "rr/" + name + "Reply"
  {
    OnlyLeadingSlashIs("/" + name);
    assert ("/" + name)[1..] == name;
    assert "rq" + ("/" + name) == "rq/" + name && "rr" + ("/" + name) == "rr/" + name;
  }

  // ---------------------------------------------------------------- topics

  predicate HasRosPrefix(n: string) {
    "rt/" <= n || "rq/" <= n || "rr/" <= n
  }

  function DemangleTopic(n: string): string {
    if HasRosPrefix(n) then n[2..] else n
  }

  function MangleTopic(n: string): string {
    if "/" <= n then "rt" + n else n
  }

  /** Demangling undoes mangling for every topic but one that looks mangled already; mangling undoes
      demangling for topics with the topic prefix, and for those that are no ROS topics at all. */
  lemma TopicRoundTrip(n: string)
    ensures DemangleTopic(MangleTopic(n)) == n <==> "/" <= n || !HasRosPrefix(n)
    ensures MangleTopic(DemangleTopic(n)) == n <==> "rt/" <= n || (!HasRosPrefix(n) && !("/" <= n))
  {
    if "/" <= n {
      assert ("rt" + n)[2..] == n && "rt/" <= "rt" + n;
    } else if HasRosPrefix(n) {
      assert n[2] == '/' && "/" <= n[2..];
      assert "rt" + n[2..] == n <==> "rt/" <= n;
    }
  }

  function RemovePrefix(n: string, prefix: string): string {
    if prefix + "/" <= n then n[|prefix|..] else ""
  }

  function DemangleServiceTopic(prefix: string, n: string, suffix: string): string {
    var s := RemovePrefix(n, prefix);
    var p := FindLast(s, suffix);
    if s == "" || p == -1 || p + |suffix| != |s| then "" else s[..p]
  }

  function MangleServiceTopic(prefix: string, n: string, suffix: string): string {
    if FindLast(n, "/") == 0 then prefix + n + suffix else ""
  }

  /** The topic of a service, demangled as a reply, and if that fails as a request. */
  function DemangleAnyServiceTopic(n: string): string {
    var d := DemangleServiceTopic("rr", n, "Reply");
    if d != "" then d else DemangleServiceTopic("rq", n, "Request")
  }

  /** The only slash is the first character. */
  predicate OnlyLeadingSlash(n: string) {
    n != "" && n[0] == '/' && '/' !in n[1..]
  }

  lemma {:induction false} FindLastSlash(n: string, i: nat)
    requires i + 1 <= |n|
    ensures FindLastFrom(n, "/", i) == 0 <==> n[0] == '/' && forall j :: 0 < j <= i ==> n[j] != '/'
  {
    assert At(n, "/", i) <==> n[i] == '/' by { assert "/"[0] == '/'; }
    if i > 0 && n[i] != '/' { FindLastSlash(n, i - 1); }
  }

  lemma OnlyLeadingSlashIs(n: string)
    ensures FindLast(n, "/") == 0 <==> OnlyLeadingSlash(n)
  {
    if n != "" {
      FindLastSlash(n, |n| - 1);
      assert forall j :: 0 < j < |n| ==> n[j] == n[1..][j - 1];
    }
  }

  /** Service topics come back just if their only slash is the first character; the empty topic does too. */
  lemma ServiceTopicRoundTrip(n: string)
    ensures DemangleAnyServiceTopic(MangleServiceTopic("rq", n, "Request")) == n <==> n == "" || OnlyLeadingSlash(n)
    ensures DemangleAnyServiceTopic(MangleServiceTopic("rr", n, "Reply")) == n <==> n == "" || OnlyLeadingSlash(n)
  {
    OnlyLeadingSlashIs(n);
    if OnlyLeadingSlash(n) {
      ServiceTopicBack("rq", n, "Request");
      ServiceTopicBack("rr", n, "Reply");
      assert ("rq" + n + "Request")[1] == 'q';
    }
  }

  lemma ServiceTopicBack(prefix: string, n: string, suffix: string)
    requires "/" <= n
    ensures DemangleServiceTopic(prefix, prefix + n + suffix, suffix) == n
  {
    var m := prefix + n + suffix;
    assert prefix + "/" <= m;
    assert m[|prefix|..] == n + suffix;
    AtEnd(n, suffix);
    assert (n + suffix)[..|n|] == n;
  }

  lemma Demangled(prefix: string, n: string, suffix: string)
    requires suffix != "" && suffix[0] != '/'
    ensures var d := DemangleServiceTopic(prefix, n, suffix);
      d != "" ==> "/" <= d && n == prefix + d + suffix
  {
    var s := RemovePrefix(n, prefix);
    var p := FindLast(s, suffix);
    if s != "" && p != -1 && p + |suffix| == |s| {
      FindLastStands(s, suffix);
      AtIsSlice(s, suffix, p);
      assert n == prefix + s && s == s[..p] + suffix;
      assert s[0] == n[|prefix|] == (prefix + "/")[|prefix|] == '/';
      assert p > 0;
    }
  }

  /** Which topics are demangled as those of a service: just "rq/nameRequest" and "rr/nameReply", to "/name". */
  lemma DemangledServiceTopics(n: string, name: string)
    ensures DemangleAnyServiceTopic("rq/" + name + "Request") == "/" + name
    ensures DemangleAnyServiceTopic("rr/" + name + "Reply") == "/" + name
    ensures var d := DemangleAnyServiceTopic(n);
      d != "" ==> "/" <= d && (n == "rq" + d + "Request" || n == "rr" + d + "Reply")
  {
    ServiceTopicBack("rq", "/" + name, "Request");
    ServiceTopicBack("rr", "/" + name, "Reply");
    assert "rq" + ("/" + name) + "Request" == "rq/" + name + "Request";
    assert "rr" + ("/" + name) + "Reply" == "rr/" + name + "Reply";
    assert ("rq/" + name + "Request")[1] == 'q';
    Demangled("rr", n, "Reply");
    Demangled("rq", n, "Request");
  }
}
