/**
 The two arrays filled by the storing action. `buffer` holds every stored option in command-line
 order; `options[k]` heads the list of those whose descriptor has index k. The head is a copy of
 the first such option, the rest of the list are the objects inside `buffer` itself.
 */
module OptionStore {
  import opened Maybes
  import opened OptionScan
  import opened OptionChain

  const INT_MAX := 0x7fffffff

  /** Every option refers to a descriptor of the table, with an index below `n`. */
  predicate WellIndexed(usage: seq<Descriptor>, n: nat, s: seq<Parsed>) {
    forall i :: 0 <= i < |s| ==> s[i].desc < |usage| && usage[s[i].desc].index < n
  }

  predicate HasIndex(usage: seq<Descriptor>, o: Parsed, k: nat) {
    o.desc < |usage| && usage[o.desc].index == k
  }

  /** The options with index `k`, in order. */
  function OfIndex(usage: seq<Descriptor>, s: seq<Parsed>, k: nat): seq<Parsed> {
    if s == [] then [] else
      var n := |s| - 1;
      OfIndex(usage, s[..n], k) + if HasIndex(usage, s[n], k) then [s[n]] else []
  }

  /** Their positions. */
  function Positions(usage: seq<Descriptor>, s: seq<Parsed>, k: nat): (p: seq<nat>)
    ensures |p| == |OfIndex(usage, s, k)|
    ensures forall i :: 0 <= i < |p| ==> p[i] < |s|
  {
    if s == [] then [] else
      var n := |s| - 1;
      Positions(usage, s[..n], k) + if HasIndex(usage, s[n], k) then [n] else []
  }

  lemma {:induction false} PositionsAscend(usage: seq<Descriptor>, s: seq<Parsed>, k: nat)
    ensures var p := Positions(usage, s, k);
      && (forall i :: 0 <= i < |p| ==> HasIndex(usage, s[p[i]], k) && s[p[i]] == OfIndex(usage, s, k)[i])
      && (forall i, j :: 0 <= i < j < |p| ==> p[i] < p[j])
  {
    if s != [] {
      var n := |s| - 1;
      PositionsAscend(usage, s[..n], k);
    }
  }

  /** The list of index `k`: its head, then the buffer objects at all but the first position. */
  ghost function ChainOf(head: Option, buf: seq<Option>, p: seq<nat>): (c: seq<Option>)
    requires forall i :: 0 <= i < |p| ==> p[i] < |buf|
    ensures c != [] && c[0] == head
    ensures |c| == if p == [] then 1 else |p|
    ensures forall i :: 1 <= i < |c| ==> c[i] == buf[p[i]]
    ensures forall x :: x in c ==> x == head || x in buf
  {
    if p == [] then [head] else seq(|p|, i requires 0 <= i < |p| => if i == 0 then head else buf[p[i]])
  }

  /** All objects of the two arrays are different objects. */
  ghost predicate Separate(opts: seq<Option>, buf: seq<Option>) {
    && (forall i, j :: 0 <= i < j < |opts| ==> opts[i] != opts[j])
    && (forall i, j :: 0 <= i < j < |buf| ==> buf[i] != buf[j])
    && (forall i, j :: 0 <= i < |opts| && 0 <= j < |buf| ==> opts[i] != buf[j])
  }

  /** The list `c` is well linked and its elements hold exactly the options `want`, in order; an
      empty list is a single unused element. */
  ghost predicate Lists(c: seq<Option>, want: seq<Parsed>)
    reads c
  {
    && IsChain(c)
    && |c| == (if want == [] then 1 else |want|)
    && (want == [] ==> !c[0].Used())
    && (forall i :: 0 <= i < |want| ==> c[i].Holds(want[i]))
  }

  /** The list headed by `options[k]` lists exactly the options in `s` with index `k`, in order. */
  ghost predicate ListsIndex(usage: seq<Descriptor>, opts: seq<Option>, buf: seq<Option>, s: seq<Parsed>, k: nat)
    requires k < |opts| && |s| <= |buf|
    reads opts, buf
  {
    Lists(ChainOf(opts[k], buf, Positions(usage, s, k)), OfIndex(usage, s, k))
  }

  /** The arrays hold exactly the options `s`. */
  ghost predicate Linked(usage: seq<Descriptor>, opts: seq<Option>, buf: seq<Option>, s: seq<Parsed>)
    reads opts, buf
  {
    && Separate(opts, buf)
    && |s| <= |buf|
    && WellIndexed(usage, |opts|, s)
    && (forall i :: 0 <= i < |s| ==> buf[i].Holds(s[i]))
    && (forall i :: |s| <= i < |buf| ==> !buf[i].Used())
    && (forall k :: 0 <= k < |opts| ==> ListsIndex(usage, opts, buf, s, k))
  }

  /** Lists of different indices share no object. */
  lemma NotShared(usage: seq<Descriptor>, opts: seq<Option>, buf: seq<Option>, s: seq<Parsed>, k: nat, l: nat, i: nat,
                  j: nat)
    requires Separate(opts, buf) && |s| <= |buf| && k < |opts| && l < |opts| && k != l
    requires i < |ChainOf(opts[k], buf, Positions(usage, s, k))|
    requires j < |ChainOf(opts[l], buf, Positions(usage, s, l))|
    ensures ChainOf(opts[k], buf, Positions(usage, s, k))[i] != ChainOf(opts[l], buf, Positions(usage, s, l))[j]
  {
    var p, q := Positions(usage, s, k), Positions(usage, s, l);
    PositionsAscend(usage, s, k);
    PositionsAscend(usage, s, l);
    if i > 0 && j > 0 {
      assert HasIndex(usage, s[p[i]], k) && HasIndex(usage, s[q[j]], l);
    }
  }

  lemma ListsAreDisjoint(usage: seq<Descriptor>, opts: seq<Option>, buf: seq<Option>, s: seq<Parsed>, k: nat, l: nat)
    requires Separate(opts, buf) && |s| <= |buf| && k < |opts| && l < |opts| && k != l
    ensures forall x :: x in ChainOf(opts[k], buf, Positions(usage, s, k)) ==>
      x !in ChainOf(opts[l], buf, Positions(usage, s, l))
  {
    var c := ChainOf(opts[k], buf, Positions(usage, s, k));
    var d := ChainOf(opts[l], buf, Positions(usage, s, l));
    forall x | x in c
      ensures x !in d
    {
      var i :| 0 <= i < |c| && c[i] == x;
      forall j | 0 <= j < |d|
        ensures d[j] != x
      {
        NotShared(usage, opts, buf, s, k, l, i, j);
      }
    }
  }

  /** Storing one more option of index `k` extends the list of `k` by the new slot, and only it. */
  lemma OfIndexSnoc(usage: seq<Descriptor>, s: seq<Parsed>, o: Parsed, k: nat)
    ensures OfIndex(usage, s + [o], k) == OfIndex(usage, s, k) + if HasIndex(usage, o, k) then [o] else []
    ensures Positions(usage, s + [o], k) == Positions(usage, s, k) + if HasIndex(usage, o, k) then [|s|] else []
  {
    var t := s + [o];
    assert t[..|t| - 1] == s && t[|t| - 1] == o;
  }

  lemma ChainSnoc(head: Option, buf: seq<Option>, p: seq<nat>, n: nat)
    requires n < |buf| && forall i :: 0 <= i < |p| ==> p[i] < |buf|
    ensures ChainOf(head, buf, p + [n]) == if p == [] then ChainOf(head, buf, p) else ChainOf(head, buf, p) + [buf[n]]
  {
    var c, d := ChainOf(head, buf, p), ChainOf(head, buf, p + [n]);
    assert forall i :: 1 <= i < |p| ==> d[i] == buf[(p + [n])[i]] == buf[p[i]] == c[i];
  }

  /** The list of an index other than that of the new option. */
  lemma OtherIndexKept(usage: seq<Descriptor>, opts: seq<Option>, buf: seq<Option>, s: seq<Parsed>, o: Parsed, k: nat)
    requires |s| < |buf| && k < |opts| && !HasIndex(usage, o, k)
    ensures ListsIndex(usage, opts, buf, s + [o], k) == ListsIndex(usage, opts, buf, s, k)
  {
    OfIndexSnoc(usage, s, o, k);
    assert OfIndex(usage, s, k) + [] == OfIndex(usage, s, k);
    assert Positions(usage, s, k) + [] == Positions(usage, s, k);
  }

  lemma SameIndexGrows(usage: seq<Descriptor>, opts: seq<Option>, buf: seq<Option>, s: seq<Parsed>, o: Parsed, k: nat)
    requires |s| < |buf| && k < |opts| && HasIndex(usage, o, k)
    requires var c, want := ChainOf(opts[k], buf, Positions(usage, s, k)), OfIndex(usage, s, k);
      Lists(if want == [] then c else c + [buf[|s|]], want + [o])
    ensures ListsIndex(usage, opts, buf, s + [o], k)
  {
    OfIndexSnoc(usage, s, o, k);
    ChainSnoc(opts[k], buf, Positions(usage, s, k), |s|);
  }

  /** Stores `o` in the unused object `slot`, and in the list `c` headed by `head`: an unused head
      becomes a copy, otherwise the slot itself is appended. Lists and objects apart from these
      are as before. */
  method Relink(o: Parsed, slot: Option, head: Option, ghost c: seq<Option>, ghost want: seq<Parsed>,
                ghost others: seq<seq<Option>>, ghost wants: seq<seq<Parsed>>, ghost own: nat, ghost apart: seq<Option>)
    requires Lists(c, want) && c[0] == head && slot !in c
    requires |others| == |wants|
    requires forall k :: 0 <= k < |others| && k != own ==>
      Lists(others[k], wants[k]) && forall x :: x in others[k] ==> x !in c && x != slot
    requires head !in apart && slot !in apart
    modifies c, slot
    ensures Lists(if want == [] then c else c + [slot], want + [o])
    ensures slot.Holds(o)
    ensures forall k :: 0 <= k < |others| && k != own ==> Lists(others[k], wants[k])
    ensures forall i :: 0 <= i < |apart| ==>
      apart[i].desc == old(apart[i].desc) && apart[i].name == old(apart[i].name) && apart[i].arg == old(apart[i].arg)
  {
    label K:
    slot.Assign(o);
    forall k | 0 <= k < |others| && k != own
      ensures Lists(others[k], wants[k])
    {
      assert forall x :: x in others[k] ==> x != slot && unchanged@K(x);
    }
    assert Lists(c, want) by {
      assert forall x :: x in c ==> x != slot && unchanged@K(x);
    }
    if head.Used() {
      label L:
      head.Append(slot, c, 0);
      forall k | 0 <= k < |others| && k != own
        ensures Lists(others[k], wants[k])
      {
        var d := others[k];
        forall i | 0 <= i < |d|
          ensures LinkedAt(d, i) && unchanged@L(d[i])
        {
          assert d[i] in d && d[i] !in c && d[i] != slot;
          assert old@L(LinkedAt(d, i));
        }
      }
    } else {
      label M:
      assert c == [head] && head in c;
      head.Assign(o);
      forall k | 0 <= k < |others| && k != own
        ensures Lists(others[k], wants[k])
      {
        var d := others[k];
        forall i | 0 <= i < |d|
          ensures LinkedAt(d, i) && unchanged@M(d[i])
        {
          assert d[i] in d && d[i] !in c && d[i] != slot;
          assert old@M(LinkedAt(d, i));
        }
      }
    }
  }

  /** The objects of a list other than that of `idx` are outside what storing touches. */
  lemma OutsideTouched(usage: seq<Descriptor>, opts: seq<Option>, buf: seq<Option>, s: seq<Parsed>, idx: nat, k: nat)
    requires Separate(opts, buf) && |s| < |buf| && idx < |opts| && k < |opts| && k != idx
    ensures forall x :: x in ChainOf(opts[k], buf, Positions(usage, s, k)) ==>
      && x !in ChainOf(opts[idx], buf, Positions(usage, s, idx))
      && x != buf[|s|]
  {
    ListsAreDisjoint(usage, opts, buf, s, k, idx);
  }

  ghost function Chains(usage: seq<Descriptor>, opts: seq<Option>, buf: seq<Option>, s: seq<Parsed>)
    : (cs: seq<seq<Option>>)
    requires |s| <= |buf|
    ensures |cs| == |opts|
    ensures forall k :: 0 <= k < |opts| ==> cs[k] == ChainOf(opts[k], buf, Positions(usage, s, k))
  {
    seq(|opts|, k requires 0 <= k < |opts| => ChainOf(opts[k], buf, Positions(usage, s, k)))
  }

  ghost function Wants(usage: seq<Descriptor>, n: nat, s: seq<Parsed>): (ws: seq<seq<Parsed>>)
    ensures |ws| == n
    ensures forall k :: 0 <= k < n ==> ws[k] == OfIndex(usage, s, k)
  {
    seq(n, k requires 0 <= k < n => OfIndex(usage, s, k))
  }

  lemma ReadyToRelink(usage: seq<Descriptor>, opts: seq<Option>, buf: seq<Option>, s: seq<Parsed>, idx: nat)
    requires Linked(usage, opts, buf, s) && |s| < |buf| && idx < |opts|
    ensures var cs, ws := Chains(usage, opts, buf, s), Wants(usage, |opts|, s);
      && Lists(cs[idx], ws[idx]) && buf[|s|] !in cs[idx]
      && forall k :: 0 <= k < |cs| && k != idx ==>
        Lists(cs[k], ws[k]) && forall x :: x in cs[k] ==> x !in cs[idx] && x != buf[|s|]
  {
    var cs, ws := Chains(usage, opts, buf, s), Wants(usage, |opts|, s);
    assert ListsIndex(usage, opts, buf, s, idx);
    forall k | 0 <= k < |cs| && k != idx
      ensures Lists(cs[k], ws[k]) && forall x :: x in cs[k] ==> x !in cs[idx] && x != buf[|s|]
    {
      OutsideTouched(usage, opts, buf, s, idx, k);
      assert ListsIndex(usage, opts, buf, s, k);
    }
  }

  lemma Relinked(usage: seq<Descriptor>, opts: seq<Option>, buf: seq<Option>, s: seq<Parsed>, o: Parsed, idx: nat)
    requires |s| < |buf| && idx < |opts| && HasIndex(usage, o, idx)
    requires var cs, ws := Chains(usage, opts, buf, s), Wants(usage, |opts|, s);
      && Lists(if ws[idx] == [] then cs[idx] else cs[idx] + [buf[|s|]], ws[idx] + [o])
      && forall k :: 0 <= k < |cs| && k != idx ==> Lists(cs[k], ws[k])
    ensures forall k :: 0 <= k < |opts| ==> ListsIndex(usage, opts, buf, s + [o], k)
  {
    forall k | 0 <= k < |opts|
      ensures ListsIndex(usage, opts, buf, s + [o], k)
    {
      if k == idx {
        SameIndexGrows(usage, opts, buf, s, o, idx);
      } else {
        OtherIndexKept(usage, opts, buf, s, o, k);
      }
    }
  }

  lemma LinkedNext(usage: seq<Descriptor>, opts: seq<Option>, buf: seq<Option>, s: seq<Parsed>, o: Parsed)
    requires Separate(opts, buf) && |s| < |buf| && WellIndexed(usage, |opts|, s)
    requires o.desc < |usage| && usage[o.desc].index < |opts|
    requires (forall i :: 0 <= i < |s| ==> buf[i].Holds(s[i])) && buf[|s|].Holds(o)
    requires forall i :: |s| < i < |buf| ==> !buf[i].Used()
    requires forall k :: 0 <= k < |opts| ==> ListsIndex(usage, opts, buf, s + [o], k)
    ensures Linked(usage, opts, buf, s + [o])
  {
  }

  /** Walking a list from its head through `next` meets exactly the options of that index. */
  method WalkIndex(usage: seq<Descriptor>, options: array<Option>, ghost buf: seq<Option>, ghost s: seq<Parsed>, k: nat)
    returns (r: seq<Parsed>)
    requires Linked(usage, options[..], buf, s) && k < options.Length
    ensures r == OfIndex(usage, s, k)
  {
    assert options[k] == options[..][k] && ListsIndex(usage, options[..], buf, s, k);
    r := WalkList(options[k], ChainOf(options[k], buf, Positions(usage, s, k)), OfIndex(usage, s, k));
  }

  method WalkList(head: Option, ghost c: seq<Option>, ghost want: seq<Parsed>) returns (r: seq<Parsed>)
    requires Lists(c, want) && head == c[0]
    ensures r == want
  {
    r := [];
    if head.Used() {
      var opt := head;
      assert opt.Holds(want[0]) && LinkedAt(c, 0);
      r := [Parsed(opt.desc.value, opt.name, opt.arg)];
      while !opt.IsLast()
        invariant 0 < |r| <= |want| && r == want[..|r|]
        invariant opt == c[|r| - 1] && LinkedAt(c, |r| - 1)
        decreases |want| - |r|
      {
        assert LinkedAt(c, |r|) && c[|r|].Holds(want[|r|]);
        opt := opt.next;
        r := r + [Parsed(opt.desc.value, opt.name, opt.arg)];
      }
    }
  }

  /** From every element of a list its length and its last element can be asked; an unused head
      counts zero options. */
  method CountAndLast(usage: seq<Descriptor>, options: array<Option>, ghost buf: seq<Option>, ghost s: seq<Parsed>,
                      k: nat, element: Option, ghost i: nat)
    returns (n: nat, last: Option)
    requires Linked(usage, options[..], buf, s) && k < options.Length
    requires var c := ChainOf(options[k], buf, Positions(usage, s, k)); i < |c| && element == c[i]
    ensures n == |OfIndex(usage, s, k)|
    ensures n > 0 ==> last.Holds(OfIndex(usage, s, k)[n - 1])
  {
    assert options[k] == options[..][k] && ListsIndex(usage, options[..], buf, s, k);
    n, last := CountList(element, ChainOf(options[k], buf, Positions(usage, s, k)), OfIndex(usage, s, k), i);
  }

  method CountList(element: Option, ghost c: seq<Option>, ghost want: seq<Parsed>, ghost i: nat)
    returns (n: nat, last: Option)
    requires Lists(c, want) && i < |c| && element == c[i]
    ensures n == |want| && (n > 0 ==> last.Holds(want[n - 1]))
  {
    n := element.Count(c, i);
    last := element.Last(c, i);
  }

  /** Stores one more option in the arrays: the object after the last used one, and its list. */
  method Link(usage: seq<Descriptor>, ghost opts: seq<Option>, ghost buf: seq<Option>, ghost s: seq<Parsed>,
              o: Parsed, idx: nat, slot: Option, head: Option)
    requires Linked(usage, opts, buf, s) && |s| < |buf|
    requires o.desc < |usage| && usage[o.desc].index == idx < |opts|
    requires slot == buf[|s|] && head == opts[idx]
    modifies opts, buf
    ensures Linked(usage, opts, buf, s + [o])
  {
    ghost var cs, ws := Chains(usage, opts, buf, s), Wants(usage, |opts|, s);
    ghost var apart := buf[..|s|] + buf[|s| + 1..];
    ReadyToRelink(usage, opts, buf, s, idx);
    Relink(o, slot, head, cs[idx], ws[idx], cs, ws, idx, apart);
    Relinked(usage, opts, buf, s, o, idx);
    assert forall i :: 0 <= i < |s| ==> apart[i] == buf[i];
    assert forall i :: |s| < i < |buf| ==> apart[i - 1] == buf[i];
    LinkedNext(usage, opts, buf, s, o);
  }

  lemma PrefixGrows(prior: seq<Parsed>, performed: seq<Parsed>, stored: seq<Parsed>, o: Parsed)
    requires |stored| == |prior| + |performed| && stored == prior + performed[..|performed|]
    ensures stored + [o] == prior + (performed + [o])[..|performed| + 1]
  {
  }

  class StoreAction {
    const usage: seq<Descriptor>
    const options: array<Option>
    const buffer: array<Option>
    const bufmax: int
    var opCount: nat
    var nonops: Maybe<(nat, nat)>  // number and start of the non-option arguments, if any were found
    ghost var stored: seq<Parsed>     // what the buffer holds
    ghost var performed: seq<Parsed>  // what was performed, stored or not
    ghost const prior: seq<Parsed>    // what the buffer held before
    ghost const optionSlots: seq<Option>
    ghost const bufferSlots: seq<Option>
    ghost const frame: set<object>  // everything the action may change

    ghost predicate InFrame() {
      this in frame && (forall x :: x in optionSlots ==> x in frame) && (forall x :: x in bufferSlots ==> x in frame)
    }

    /** The arrays are well linked and the counter agrees with them. */
    ghost predicate Valid()
      reads this, options, buffer, optionSlots, bufferSlots
    {
      && options[..] == optionSlots && buffer[..] == bufferSlots
      && InFrame()
      && Linked(usage, optionSlots, bufferSlots, stored)
      && bufmax <= buffer.Length && bufmax <= INT_MAX
      && opCount <= |stored| && opCount <= INT_MAX
      && (0 <= bufmax ==> opCount <= bufmax)
      && (opCount == |stored| || opCount == bufmax)
      && StoredIsPrefix()
    }

    /** Options are stored in the order they are performed, until the slots are used up. */
    ghost predicate StoredIsPrefix()
      reads this
    {
      var kept := |stored| - |prior|;
      && 0 <= kept <= |performed|
      && stored == prior + performed[..kept]
      && (kept == |performed| || (0 <= bufmax && opCount == bufmax))
    }

    /** `n` further options can be performed without writing outside `buffer`. */
    ghost predicate SafeFor(n: nat)
      reads this
    {
      bufmax < 0 ==> opCount + n <= buffer.Length || INT_MAX <= buffer.Length
    }

    /** How many further options are accepted before one is refused; None means no limit. */
    ghost function Room(): Maybe<nat>
      reads this
    {
      if 0 <= bufmax || opCount > INT_MAX then None else Some(INT_MAX - opCount)
    }

    /** `kept` are the non-options that the parser has from an earlier pass. */
    constructor (usage: seq<Descriptor>, options: array<Option>, buffer: array<Option>, bufmax: int,
                 kept: Maybe<(nat, nat)>, ghost prior: seq<Parsed>)
      requires Linked(usage, options[..], buffer[..], prior)
      requires if bufmax < 0 then |prior| < buffer.Length else bufmax <= buffer.Length
      requires |prior| <= INT_MAX && bufmax <= INT_MAX
      ensures Valid() && stored == prior && this.prior == prior && performed == [] && nonops == kept
      ensures this.usage == usage && this.options == options && this.buffer == buffer && this.bufmax == bufmax
      ensures optionSlots == options[..] && bufferSlots == buffer[..]
      ensures frame == {this} + (set x: object | x in options[..]) + (set x: object | x in buffer[..])
      ensures opCount == if 0 <= bufmax < |prior| then bufmax else |prior|
    {
      this.usage, this.options, this.buffer, this.bufmax := usage, options, buffer, bufmax;
      stored, performed, this.prior := prior, [], prior;
      assert prior == prior + [];
      nonops := kept;
      optionSlots, bufferSlots := options[..], buffer[..];
      frame := {this} + (set x: object | x in options[..]) + (set x: object | x in buffer[..]);
      var bufidx := 0;
      while (bufmax < 0 || bufidx < bufmax) && buffer[bufidx].Used()
        invariant 0 <= bufidx <= |prior| && (0 <= bufmax ==> bufidx <= bufmax)
        decreases |prior| - bufidx
      {
        assert buffer[bufidx] == buffer[..][bufidx];
        bufidx := bufidx + 1;
      }
      assert bufidx < |prior| ==> buffer[bufidx] == buffer[..][bufidx];
      opCount := bufidx;
    }

    /** Stores the option if there is a slot for it, and links it into the list of its index. */
    method Perform(o: Parsed, ghost n: nat) returns (ok: bool)
      requires Valid() && SafeFor(n) && 1 <= n
      requires WellIndexed(usage, options.Length, [o])
      modifies this, optionSlots, bufferSlots
      ensures Valid()
      ensures ok == (old(Room()) == None || old(Room()).value > 0)
      ensures ok ==> SafeFor(n - 1) && Room() == if old(Room()) == None then None else Some(old(Room()).value - 1)
      ensures performed == if ok then old(performed) + [o] else old(performed)
      ensures stored == if ok && (bufmax < 0 || old(opCount) < bufmax) then old(stored) + [o] else old(stored)
      ensures opCount - old(opCount) == |stored| - old(|stored|)
      ensures nonops == old(nonops)
    {
      if bufmax < 0 || opCount < bufmax {
        if opCount == INT_MAX {
          return false;
        }
        StoreOption(o);
      } else {
        assert (performed + [o])[..|stored| - |prior|] == performed[..|stored| - |prior|];
        performed := performed + [o];
      }
      ok := true;
    }

    method StoreOption(o: Parsed)
      requires Valid() && opCount < buffer.Length && opCount == |stored|
      requires WellIndexed(usage, options.Length, [o])
      requires opCount < INT_MAX && (bufmax < 0 || opCount < bufmax)
      modifies this, optionSlots, bufferSlots
      ensures Valid() && performed == old(performed) + [o] && nonops == old(nonops)
      ensures stored == old(stored) + [o] && opCount == old(opCount) + 1
    {
      assert o == [o][0];
      var idx := usage[o.desc].index;
      Link(usage, optionSlots, bufferSlots, stored, o, idx, buffer[opCount], options[idx]);
      TakeDown(o);
    }

    /** The option is stored: the books follow. */
    method TakeDown(o: Parsed)
      requires options[..] == optionSlots && buffer[..] == bufferSlots && InFrame() && StoredIsPrefix()
      requires Linked(usage, optionSlots, bufferSlots, stored + [o])
      requires bufmax <= buffer.Length && bufmax <= INT_MAX && opCount == |stored| < INT_MAX
      requires bufmax < 0 || opCount < bufmax
      modifies this`opCount, this`performed, this`stored
      ensures Valid() && performed == old(performed) + [o] && stored == old(stored) + [o] && opCount == old(opCount) + 1
    {
      PrefixGrows(prior, performed, stored, o);
      opCount := opCount + 1;
      performed := performed + [o];
      stored := stored + [o];
    }
  }
}
