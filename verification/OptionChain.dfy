/**
 The Option object and its circular, tagged, doubly linked list. The tag on `next` marks the
 last element and the tag on `prev` the first; the tagged links close the circle.
 */
module OptionChain {
  import opened Maybes
  import opened OptionScan

  /** The links of the i-th element agree with its place in the list `c`. */
  ghost predicate LinkedAt(c: seq<Option>, i: nat)
    requires i < |c|
    reads c
  {
    && c[i].next == (if i + 1 < |c| then c[i + 1] else c[0])
    && c[i].nextTagged == (i + 1 == |c|)
    && c[i].prev == (if i > 0 then c[i - 1] else c[|c| - 1])
    && c[i].prevTagged == (i == 0)
  }

  /** The sequence `c` of objects is one list: links agree in both directions, wrap around at the
      ends, and only the wrapping links are tagged. */
  ghost predicate IsChain(c: seq<Option>)
    reads c
  {
    && c != []
    && (forall i, j :: 0 <= i < j < |c| ==> c[i] != c[j])
    && (forall i :: 0 <= i < |c| ==> LinkedAt(c, i))
  }

  class Option {
    var next: Option
    var nextTagged: bool
    var prev: Option
    var prevTagged: bool
    var desc: Maybe<nat>
    var name: string
    var arg: Maybe<string>

    constructor ()
      ensures IsChain([this]) && desc == None
    {
      next, nextTagged := this, true;
      prev, prevTagged := this, true;
      desc, name, arg := None, "", None;
    }

    predicate Used()
      reads this
    {
      desc.Some?
    }

    ghost predicate Holds(o: Parsed)
      reads this
    {
      desc == Some(o.desc) && name == o.name && arg == o.arg
    }

    /** Assignment copies the option but not its links. */
    method Assign(o: Parsed)
      modifies this
      ensures Holds(o) && IsChain([this])
    {
      desc, name, arg := Some(o.desc), o.name, o.arg;
      next, nextTagged := this, true;
      prev, prevTagged := this, true;
    }

    predicate IsFirst()
      reads this
    {
      prevTagged
    }

    predicate IsLast()
      reads this
    {
      nextTagged
    }

    method First(ghost c: seq<Option>, ghost i: nat) returns (p: Option)
      requires IsChain(c) && i < |c| && c[i] == this
      ensures p == c[0]
    {
      p := this;
      ghost var k := i;
      assert LinkedAt(c, k);
      while !p.IsFirst()
        invariant 0 <= k < |c| && p == c[k] && LinkedAt(c, k)
        decreases k
      {
        assert LinkedAt(c, k - 1);
        p := p.prev;
        k := k - 1;
      }
    }

    method Last(ghost c: seq<Option>, ghost i: nat) returns (p: Option)
      requires IsChain(c) && i < |c| && c[i] == this
      ensures p == c[|c| - 1]
    {
      p := First(c, i);
      assert LinkedAt(c, 0);
      p := p.prev;
    }

    /** The number of used elements, whichever element it is asked of. */
    method Count(ghost c: seq<Option>, ghost i: nat) returns (n: nat)
      requires IsChain(c) && i < |c| && c[i] == this
      ensures n == if Used() then |c| else |c| - 1
    {
      n := if desc.None? then 0 else 1;
      var p := First(c, i);
      ghost var k := 0;
      assert LinkedAt(c, k);
      while !p.IsLast()
        invariant 0 <= k < |c| && p == c[k] && LinkedAt(c, k)
        invariant n == k + (if desc.None? then 0 else 1)
        decreases |c| - k
      {
        assert LinkedAt(c, k + 1);
        n := n + 1;
        p := p.next;
        k := k + 1;
      }
    }

    method Append(newLast: Option, ghost c: seq<Option>, ghost i: nat)
      requires IsChain(c) && i < |c| && c[i] == this
      requires newLast !in c
      modifies c, newLast
      ensures IsChain(c + [newLast])
      ensures forall o :: o in c || o == newLast ==>
        o.desc == old(o.desc) && o.name == old(o.name) && o.arg == old(o.arg)
    {
      var p := Last(c, i);
      var f := First(c, i);
      p.next, p.nextTagged := newLast, false;
      newLast.prev, newLast.prevTagged := p, false;
      newLast.next, newLast.nextTagged := f, true;
      f.prev, f.prevTagged := newLast, true;
      ghost var d := c + [newLast];
      forall k | 0 <= k < |d|
        ensures LinkedAt(d, k)
      {
        assert k < |c| ==> old(LinkedAt(c, k));
      }
    }
  }
}
