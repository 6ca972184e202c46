/**
 The line wrapper of the usage formatter: a ring of sixteen slots holds up to fifteen lines that
 are written out one at a time, so that they can be interleaved with other columns.
 */
module LineWrapper {
  import opened Bolts
  import opened Bytes
  import opened DisplayWidth
  import opened LineWrapping

  const SLOTS := 16
  const CAPACITY := 15

  class Sink {
    var out: seq<Byte>

    method Write(s: seq<Byte>)
      modifies this
      ensures out == old(out) + s
    {
      out := out + s;
    }
  }

  function Spaces(n: nat): seq<Byte> {
    seq(n, _ => SPACE)
  }

  /** Moving from column 0 to column `x`; a negative column causes a line break. */
  function Indentation(x: int): seq<Byte> {
    if x < 0 then [NEWLINE] else Spaces(x)
  }

  /** Lines separated by line breaks and indentation; `wrote` says whether one precedes the first. */
  function Emit(cs: seq<Chunk>, x: int, wrote: bool): seq<Byte> {
    if cs == [] then [] else
      (if wrote then [NEWLINE] + Indentation(x) else []) + cs[0].text + Emit(cs[1..], x, true)
  }

  lemma {:induction false} EmitSnoc(cs: seq<Chunk>, c: Chunk, x: int, wrote: bool)
    ensures Emit(cs + [c], x, wrote) ==
      Emit(cs, x, wrote) + (if wrote || cs != [] then [NEWLINE] + Indentation(x) else []) + c.text
  {
    if cs == [] {
      assert (cs + [c])[1..] == [];
      assert Emit([], x, true) == [];
    } else {
      EmitSnoc(cs[1..], c, x, true);
      assert (cs + [c])[1..] == cs[1..] + [c];
    }
  }

  method Indent(write: Sink, x: int)
    modifies write
    ensures write.out == old(write.out) + Indentation(x)
  {
    var indent := x;
    if indent < 0 {
      write.Write([NEWLINE]);
    }
    var i := 0;
    while i < indent
      invariant 0 <= i && (i <= indent || indent < 0)
      invariant write.out == old(write.out) + (if x < 0 then [NEWLINE] else Spaces(i))
    {
      write.Write([SPACE]);
      i := i + 1;
      assert Spaces(i) == Spaces(i - 1) + [SPACE];
    }
  }

  /** The first `n` lines of `q` have been written. */
  ghost predicate Drained(q: seq<Chunk>, n: nat, x: int, w: seq<Chunk>, out: seq<Byte>, queue: seq<Chunk>,
                          written: seq<Chunk>, now: seq<Byte>) {
    n <= |q| && queue == q[n..] && written == w + q[..n] && now == out + Emit(q[..n], x, false)
  }

  lemma DrainedOne(q: seq<Chunk>, n: nat, x: int, w: seq<Chunk>, out: seq<Byte>, queue: seq<Chunk>,
                   written: seq<Chunk>, now: seq<Byte>)
    requires Drained(q, n, x, w, out, queue, written, now) && queue != []
    ensures Drained(q, n + 1, x, w, out, queue[1..], written + [queue[0]], now + Emit([queue[0]], x, n > 0))
  {
    EmitSnoc(q[..n], q[n], x, false);
    assert q[..n + 1] == q[..n] + [q[n]];
  }

  /** The lines `all` were to be stored: the ring holds the latest, the others have been written. */
  ghost predicate StoredAs(all: seq<Chunk>, x: int, w: seq<Chunk>, out: seq<Byte>, queue: seq<Chunk>,
                           written: seq<Chunk>, now: seq<Byte>, wrote: bool) {
    var k := Overflow(|all|);
    && queue == all[k..] && written == w + all[..k] && wrote == (k > 0)
    && now == out + Emit(all[..k], x, false)
  }

  lemma StoredBehind(all: seq<Chunk>, c: Chunk, x: int, w: seq<Chunk>, out: seq<Byte>, queue: seq<Chunk>,
                     written: seq<Chunk>, now: seq<Byte>, line: seq<Chunk>)
    requires StoredAs(all, x, w, out, queue, written, now, Overflow(|all|) > 0)
    requires line == if |queue| == CAPACITY then [queue[0]] else []
    ensures StoredAs(all + [c], x, w, out, queue[|line|..] + [c], written + line,
                     now + Emit(line, x, Overflow(|all|) > 0), Overflow(|all|) > 0 || line != [])
  {
    var k := Overflow(|all|);
    OneMoreLine(all, c, x);
    assert w + all[..k] + line == w + (all[..k] + line);
    assert out + Emit(all[..k], x, false) + Emit(line, x, k > 0)
      == out + (Emit(all[..k], x, false) + Emit(line, x, k > 0));
  }

  /** The slot of the i-th oldest line, when the reader stands at `tail`. */
  function Slot(tail: nat, i: nat): nat
    requires tail < SLOTS && i < SLOTS
  {
    if tail + 1 + i < SLOTS then tail + 1 + i else tail + 1 + i - SLOTS
  }

  /** The number of lines between reader and writer. */
  function Between(tail: nat, head: nat): (n: nat)
    requires tail < SLOTS && head < SLOTS
    ensures n < SLOTS
  {
    if head > tail then head - tail - 1 else head + SLOTS - tail - 1
  }

  /** The end of the longest prefix of whole characters that fits. */
  method FindFit(data: seq<Byte>, width: nat, u: nat, ghost f: Decoder) returns (maxi: nat)
    requires Decodes(f, u) && Proper(f)
    ensures maxi == Fit(data, width, f)
  {
    var utf8width := 0;
    maxi := 0;
    while maxi < |data| && utf8width < width
      invariant maxi <= |data| && FitFrom(data, maxi, utf8width, width, f) == Fit(data, width, f)
      decreases |data| - maxi
    {
      var charbytes, wide := DecodeChar(data, maxi, u, f);
      if wide {
        if utf8width + 2 > width {
          break;
        }
        utf8width := utf8width + 1;
      }
      utf8width := utf8width + 1;
      maxi := maxi + charbytes;
    }
  }

  method FindSpace(data: seq<Byte>, maxi: nat) returns (i: int)
    requires maxi < |data|
    ensures i == LastSpace(data, maxi)
  {
    i := maxi;
    while i >= 0 && data[i] != SPACE
      invariant -1 <= i <= maxi && LastSpace(data, maxi) == LastSpace(data, i)
    {
      i := i - 1;
    }
  }

  /** Where the first line of `data` ends, and whether a space behind it is dropped. */
  method SplitPoint(data: seq<Byte>, width: nat, u: nat, ghost f: Decoder) returns (n: nat, space: bool)
    requires data != [] && Decodes(f, u) && Proper(f)
    ensures n <= |data| && Chunk(data[..n], space) == NextChunk(data, width, f)
    ensures space ==> n < |data|
  {
    assert data[..|data|] == data;
    if |data| <= width {
      return |data|, false;
    }
    var maxi := FindFit(data, width, u, f);
    if maxi == |data| {
      return |data|, false;
    }
    var i := FindSpace(data, maxi);
    if i >= 0 {
      return i, true;
    }
    return maxi, false;
  }

  function Min(a: nat, b: nat): nat { if a <= b then a else b }

  /** How many of `n` lines a call to Process writes out: those that do not fit into the ring, and
      at least one if there is any. */
  function WrittenOut(n: nat): (k: nat)
    ensures k <= n
  {
    if n > CAPACITY then n - CAPACITY else Min(1, n)
  }

  /** `lines` are the lines of `data` (see Bolts). */
  ghost predicate LinesOf(lines: seq<Chunk>, data: seq<Byte>, width: nat, f: Decoder) {
    forall k {:trigger Key(k)} :: Bolt(k) ==> lines == Wrap(data, width, f) && Proper(f)
  }

  /** Splits the first line off. */
  method NextLine(rest: seq<Byte>, width: nat, u: nat, ghost f: Decoder, ghost left: seq<Chunk>)
    returns (n: nat, space: bool, ghost c: Chunk, ghost left': seq<Chunk>)
    requires rest != [] && 2 <= width && LinesOf(left, rest, width, f) && Decodes(f, u)
    ensures n <= |rest| && (space ==> n < |rest|) && (space || n > 0) && c.text == rest[..n] && left == [c] + left'
    ensures LinesOf(left', rest[if space then n + 1 else n..], width, f)
  {
    assert Key(0);
    NextChunkFits(rest, width, f);
    n, space := SplitPoint(rest, width, u, f);
    c := Chunk(rest[..n], space);
    left' := Wrap(rest[if space then n + 1 else n..], width, f);
  }

  function Overflow(n: nat): nat {
    if n > CAPACITY then n - CAPACITY else 0
  }

  /** One more line behind the lines `all`, of which the oldest have left a full ring. */
  lemma OneMoreLine(all: seq<Chunk>, c: Chunk, x: int)
    ensures var k := Overflow(|all|);
      var line := if |all[k..]| == CAPACITY then [all[k]] else [];
      var k' := Overflow(|all + [c]|);
      && k' == k + |line|
      && all[k..][|line|..] + [c] == (all + [c])[k'..]
      && all[..k] + line == (all + [c])[..k']
      && Emit(all[..k], x, false) + Emit(line, x, k > 0) == Emit((all + [c])[..k'], x, false)
  {
    var k := Overflow(|all|);
    if |all[k..]| == CAPACITY {
      EmitSnoc(all[..k], all[k], x, false);
      TakeMore(all, c, k);
    } else {
      assert all[..0] == [] && (all + [c])[..0] == [] && Emit([], x, false) == [];
    }
  }

  lemma TakeMore(all: seq<Chunk>, c: Chunk, k: nat)
    requires k < |all|
    ensures all[..k] + [all[k]] == (all + [c])[..k + 1] && all[k..][1..] + [c] == (all + [c])[k + 1..]
  {
  }

  class LineWrapper {
    const u: nat  // payload of the undefined start byte, see DisplayWidth
    ghost const f: Decoder
    const lenbuf: array<nat>
    const datbuf: array<seq<Byte>>
    const x: int
    const width: nat
    var head: nat  // next slot to write
    var tail: nat  // slot before the next to read
    var wroteSomething: bool
    ghost var queue: seq<Chunk>    // lines in the ring, oldest first
    ghost var written: seq<Chunk>  // lines written so far

    ghost predicate Holds(slot: nat, c: Chunk)
      requires slot < lenbuf.Length == datbuf.Length
      reads lenbuf, datbuf
    {
      lenbuf[slot] <= |datbuf[slot]| && datbuf[slot][..lenbuf[slot]] == c.text
    }

    /** The ring holds the queue. */
    ghost predicate Valid()
      reads this, lenbuf, datbuf
    {
      && lenbuf.Length == SLOTS && datbuf.Length == SLOTS && 2 <= width && Decodes(f, u)
      && head < SLOTS && tail < SLOTS && |queue| == Between(tail, head)
      && forall i :: 0 <= i < |queue| ==> Holds(Slot(tail, i), queue[i])
    }

    constructor (x1: int, x2: int, undefinedPayload: nat)
      ensures Valid() && queue == [] && written == []
      ensures x == x1 && width == (if x2 - x1 < 2 then 2 else x2 - x1) && u == undefinedPayload
      ensures f == DecoderOf(undefinedPayload)
      ensures fresh(lenbuf) && fresh(datbuf)
    {
      u, x := undefinedPayload, x1;
      f := DecoderOf(undefinedPayload);
      lenbuf := new nat[SLOTS];
      datbuf := new seq<Byte>[SLOTS];
      width := if x2 - x1 < 2 then 2 else x2 - x1;
      head, tail, wroteSomething := 0, 15, false;
      queue, written := [], [];
    }

    predicate BufEmpty()
      reads this
    {
      (tail + 1) % SLOTS == head
    }

    predicate BufFull()
      reads this
    {
      tail == head
    }

    lemma EmptyAndFull()
      requires Valid()
      ensures BufEmpty() <==> queue == []
      ensures BufFull() <==> |queue| == CAPACITY
    {
    }

    /** Puts a line into a free slot; no line in the ring is touched. */
    method BufStore(data: seq<Byte>, len: nat, ghost c: Chunk)
      requires Valid() && |queue| < CAPACITY && len <= |data| && c.text == data[..len]
      modifies this`head, this`queue, lenbuf, datbuf
      ensures Valid() && queue == old(queue) + [c] && tail == old(tail)
    {
      EmptyAndFull();
      lenbuf[head] := len;
      datbuf[head] := data;
      assert forall i :: 0 <= i < |queue| ==> Slot(tail, i) != head;
      assert Slot(tail, |queue|) == head && Holds(head, c);
      head := (head + 1) % SLOTS;
      queue := queue + [c];
    }

    /** Moves the reader over the oldest line. */
    method BufNext() returns (line: seq<Byte>)
      requires Valid() && queue != []
      modifies this`tail, this`queue
      ensures Valid() && queue == old(queue)[1..] && line == old(queue)[0].text
    {
      assert Holds(Slot(tail, 0), queue[0]);
      ghost var t := tail;
      tail := (tail + 1) % SLOTS;
      line := datbuf[tail][..lenbuf[tail]];
      queue := queue[1..];
      forall i | 0 <= i < |queue|
        ensures Holds(Slot(tail, i), queue[i])
      {
        assert Holds(Slot(t, i + 1), old(queue)[i + 1]);
      }
    }

    method WriteOneLine(write: Sink)
      requires Valid() && (wroteSomething ==> queue != [])
      modifies write, this`tail, this`wroteSomething, this`queue, this`written
      ensures Valid() && wroteSomething
      ensures var line := if old(queue) == [] then [] else [old(queue)[0]];
        && queue == old(queue)[|line|..] && written == old(written) + line
        && write.out == old(write.out) + Emit(line, x, old(wroteSomething))
    {
      EmptyAndFull();
      if wroteSomething {
        write.Write([NEWLINE]);
        Indent(write, x);
      }
      if !BufEmpty() {
        written := written + [queue[0]];
        var line := BufNext();
        write.Write(line);
      }
      wroteSomething := true;
    }

    /** Puts a line into the ring; the oldest line makes room if there is none. */
    method Output(write: Sink, data: seq<Byte>, len: nat, ghost c: Chunk)
      requires Valid() && len <= |data| && c.text == data[..len]
      modifies write, this`head, this`tail, this`wroteSomething, this`queue, this`written, lenbuf, datbuf
      ensures Valid()
      ensures var line := if |old(queue)| == CAPACITY then [old(queue)[0]] else [];
        && queue == old(queue)[|line|..] + [c] && written == old(written) + line
        && write.out == old(write.out) + Emit(line, x, old(wroteSomething))
        && wroteSomething == (old(wroteSomething) || line != [])
    {
      EmptyAndFull();
      if BufFull() {
        WriteOneLine(write);
      }
      BufStore(data, len, c);
    }

    /** Writes the whole queue. */
    method Drain(write: Sink)
      requires Valid() && !wroteSomething
      modifies write, this`tail, this`wroteSomething, this`queue, this`written
      ensures Valid() && queue == [] && written == old(written) + old(queue)
      ensures write.out == old(write.out) + Emit(old(queue), x, false)
    {
      ghost var q, out, w := queue, write.out, written;
      ghost var n := 0;
      EmptyAndFull();
      while !BufEmpty()
        invariant Valid() && Drained(q, n, x, w, out, queue, written, write.out) && wroteSomething == (n > 0)
        invariant BufEmpty() <==> queue == []
        decreases |queue|
      {
        DrainedOne(q, n, x, w, out, queue, written, write.out);
        WriteOneLine(write);
        n := n + 1;
        EmptyAndFull();
      }
      assert q[..n] == q;
    }

    /** Writes all lines left, each indented, and a final line break; nothing if there are none. */
    method Flush(write: Sink)
      requires Valid()
      modifies write, this`tail, this`wroteSomething, this`queue, this`written
      ensures Valid() && queue == [] && written == old(written) + old(queue)
      ensures write.out == old(write.out) +
        if old(queue) == [] then [] else Indentation(x) + Emit(old(queue), x, false) + [NEWLINE]
    {
      EmptyAndFull();
      if BufEmpty() {
        assert written + [] == written;
        return;
      }
      Indent(write, x);
      wroteSomething := false;
      Drain(write);
      write.Write([NEWLINE]);
    }

    /** The line goes into the ring, behind the lines `all`. */
    method OutputBehind(write: Sink, data: seq<Byte>, len: nat, ghost c: Chunk, ghost all: seq<Chunk>,
                        ghost w: seq<Chunk>, ghost out: seq<Byte>)
      requires Valid() && Stored(all, w, out, write.out) && len <= |data| && c.text == data[..len]
      modifies write, this`head, this`tail, this`wroteSomething, this`queue, this`written, lenbuf, datbuf
      ensures Valid() && Stored(all + [c], w, out, write.out)
    {
      ghost var line := if |queue| == CAPACITY then [queue[0]] else [];
      StoredBehind(all, c, x, w, out, queue, written, write.out, line);
      Output(write, data, len, c);
    }

    /** The first of the lines of `rest` goes into the ring. */
    method StoreLine(write: Sink, rest: seq<Byte>, ghost all: seq<Chunk>, ghost left: seq<Chunk>, ghost w: seq<Chunk>,
                     ghost out: seq<Byte>)
      returns (rest': seq<Byte>, ghost c: Chunk, ghost left': seq<Chunk>)
      requires rest != [] && Valid() && LinesOf(left, rest, width, f) && Stored(all, w, out, write.out)
      modifies write, this`head, this`tail, this`wroteSomething, this`queue, this`written, lenbuf, datbuf
      ensures Valid() && LinesOf(left', rest', width, f) && left == [c] + left' && |rest'| < |rest|
      ensures Stored(all + [c], w, out, write.out)
    {
      var n, space;
      n, space, c, left' := NextLine(rest, width, u, f, left);
      OutputBehind(write, rest, n, c, all, w, out);
      rest' := rest[if space then n + 1 else n..];
    }

    ghost predicate Stored(all: seq<Chunk>, w: seq<Chunk>, out: seq<Byte>, now: seq<Byte>)
      reads this
    {
      StoredAs(all, x, w, out, queue, written, now, wroteSomething)
    }

    lemma NothingLeft(left: seq<Chunk>)
      requires LinesOf(left, [], width, f)
      ensures left == []
    {
      assert Key(0);
    }

    lemma NothingStored(w: seq<Chunk>, out: seq<Byte>)
      requires |queue| <= CAPACITY && written == w && !wroteSomething
      ensures Stored(queue, w, out, out)
    {
      assert queue[..0] == [] && Emit([], x, false) == [] && queue[0..] == queue;
    }

    /** Stores the lines of `data` in the ring, writing out the oldest as room is needed. */
    method Store(write: Sink, data: seq<Byte>, ghost lines: seq<Chunk>)
      requires Valid() && !wroteSomething && LinesOf(lines, data, width, f)
      modifies write, this`head, this`tail, this`wroteSomething, this`queue, this`written, lenbuf, datbuf
      ensures Valid() && Stored(old(queue) + lines, old(written), old(write.out), write.out)
    {
      var rest := data;
      ghost var w, out, all, left := written, write.out, queue, lines;
      NothingStored(w, out);
      while rest != []
        invariant Valid() && LinesOf(left, rest, width, f)
        invariant old(queue) + lines == all + left
        invariant Stored(all, w, out, write.out)
        decreases |rest|
      {
        ghost var c;
        rest, c, left := StoreLine(write, rest, all, left, w, out);
        all := all + [c];
      }
      NothingLeft(left);
      assert all + [] == all;
    }

    /** Wraps one more piece of text, and writes at least one line if there is any; more only if the
        ring cannot hold them all. */
    method Process(write: Sink, data: seq<Byte>, ghost lines: seq<Chunk>)
      requires Valid() && LinesOf(lines, data, width, f)
      modifies write, this`head, this`tail, this`wroteSomething, this`queue, this`written, lenbuf, datbuf
      ensures Valid()
      ensures var all := old(queue) + lines;
        var k := WrittenOut(|all|);
        && queue == all[k..] && written == old(written) + all[..k]
        && write.out == old(write.out) + Emit(all[..k], x, false)
      ensures |queue| <= 15 && (|old(queue) + lines| > 0 ==> |written| > |old(written)|)
      ensures |written| > |old(written)| + 1 ==> |queue| == 15
    {
      wroteSomething := false;
      Store(write, data, lines);
      WriteAtLeastOne(write, old(queue) + lines, old(written), old(write.out));
    }

    method WriteAtLeastOne(write: Sink, ghost all: seq<Chunk>, ghost w: seq<Chunk>, ghost out: seq<Byte>)
      requires Valid() && Stored(all, w, out, write.out)
      modifies write, this`tail, this`wroteSomething, this`queue, this`written
      ensures Valid()
      ensures var k := WrittenOut(|all|);
        && queue == all[k..] && written == w + all[..k] && write.out == out + Emit(all[..k], x, false)
    {
      if !wroteSomething {
        assert all[..0] == [] && Emit([], x, false) == [] && all[0..] == all;
        assert all != [] ==> [all[0]] == all[..1];
        WriteOneLine(write);
      }
    }
  }

  /** The lines of several texts, dropped spaces put back, are the texts, and none is too wide. */
  lemma {:induction false} AllLinesRejoin(texts: seq<seq<Byte>>, width: nat, f: Decoder)
    requires Proper(f) && 2 <= width
    ensures Rejoin(AllLines(texts, width, f)) == Flatten(texts) && AllFit(AllLines(texts, width, f), width, f)
  {
    if texts != [] {
      var n := |texts| - 1;
      var a, b := AllLines(texts[..n], width, f), Wrap(texts[n], width, f);
      AllLinesRejoin(texts[..n], width, f);
      WrapRejoins(texts[n], width, f);
      RejoinConcat(a, b);
    }
  }

  /** The screen after some texts, and the lines held back, if an unbounded queue were used. */
  datatype Screen = Screen(out: seq<Byte>, held: seq<Chunk>)

  function Session(texts: seq<seq<Byte>>, x: int, width: nat, f: Decoder): Screen {
    if texts == [] then Screen([], []) else
      var n := |texts| - 1;
      var before := Session(texts[..n], x, width, f);
      var all := before.held + Wrap(texts[n], width, f);
      var k := WrittenOut(|all|);
      Screen(before.out + Emit(all[..k], x, false), all[k..])
  }

  function Flushed(s: Screen, x: int): seq<Byte> {
    s.out + if s.held == [] then [] else Indentation(x) + Emit(s.held, x, false) + [NEWLINE]
  }

  /** The lines queued and written and the output are those of the unbounded queue after these
      texts (see Bolts). */
  ghost predicate Follows(texts: seq<seq<Byte>>, x: int, width: nat, f: Decoder, queue: seq<Chunk>, written: seq<Chunk>,
                          start: seq<Byte>, out: seq<Byte>) {
    forall k {:trigger Key(k)} :: Bolt(k) ==>
      var s := Session(texts, x, width, f);
      && queue == s.held && out == start + s.out
      && written + queue == AllLines(texts, width, f)
  }

  lemma FollowsNone(x: int, width: nat, f: Decoder, start: seq<Byte>)
    ensures Follows([], x, width, f, [], [], start, start)
  {
    assert start + [] == start;
    assert Session([], x, width, f).out == [] && AllLines([], width, f) == [] + [];
  }

  lemma FollowsNext(texts: seq<seq<Byte>>, text: seq<Byte>, x: int, width: nat, f: Decoder, queue: seq<Chunk>,
                    written: seq<Chunk>, start: seq<Byte>, out: seq<Byte>, lines: seq<Chunk>)
    requires Follows(texts, x, width, f, queue, written, start, out) && LinesOf(lines, text, width, f)
    ensures var all := queue + lines;
      var k := WrittenOut(|all|);
      Follows(texts + [text], x, width, f, all[k..], written + all[..k], start, out + Emit(all[..k], x, false))
  {
    assert Key(0);
    var k := WrittenOut(|queue + lines|);
    SplitAgain(written, queue, lines, k);
    Associative(start, Session(texts, x, width, f).out, Emit((queue + lines)[..k], x, false));
  }

  lemma SplitAgain(w: seq<Chunk>, q: seq<Chunk>, lines: seq<Chunk>, k: nat)
    requires k <= |q + lines|
    ensures w + (q + lines)[..k] + (q + lines)[k..] == w + q + lines
  {
  }

  lemma FollowsToTheEnd(texts: seq<seq<Byte>>, x: int, width: nat, f: Decoder, queue: seq<Chunk>, written: seq<Chunk>,
                        start: seq<Byte>, out: seq<Byte>)
    requires Follows(texts, x, width, f, queue, written, start, out) && Proper(f) && 2 <= width
    ensures out + (if queue == [] then [] else Indentation(x) + Emit(queue, x, false) + [NEWLINE]) ==
      start + Flushed(Session(texts, x, width, f), x)
    ensures written + queue == AllLines(texts, width, f)
    ensures Rejoin(written + queue) == Flatten(texts) && AllFit(written + queue, width, f)
  {
    assert Key(0);
    AllLinesRejoin(texts, width, f);
    Associative(start, Session(texts, x, width, f).out,
                if queue == [] then [] else Indentation(x) + Emit(queue, x, false) + [NEWLINE]);
  }

  /** The lines of a text, wrapped in their key. */
  lemma MakeLines(data: seq<Byte>, width: nat, f: Decoder) returns (lines: seq<Chunk>)
    requires Proper(f)
    ensures LinesOf(lines, data, width, f)
  {
    lines := Wrap(data, width, f);
  }

  /** Wraps a sequence of texts and flushes. The ring writes what an unbounded queue would, and the
      lines written are the lines of the texts in order: none lost, none too wide, and put together
      they are the texts. */
  method WrapAll(texts: seq<seq<Byte>>, x1: int, x2: int, u: nat, write: Sink) returns (ghost lines: seq<Chunk>)
    modifies write
    ensures var width := if x2 - x1 < 2 then 2 else x2 - x1;
      && write.out == old(write.out) + Flushed(Session(texts, x1, width, DecoderOf(u)), x1)
      && lines == AllLines(texts, width, DecoderOf(u))
      && Rejoin(lines) == Flatten(texts) && AllFit(lines, width, DecoderOf(u))
  {
    DecoderIsProper(u);
    var wrapper := new LineWrapper(x1, x2, u);
    ghost var start := write.out;
    FeedAll(wrapper, texts, write, start);
    lines := FlushAll(wrapper, texts, write, start);
  }

  method Feed(wrapper: LineWrapper, ghost texts: seq<seq<Byte>>, text: seq<Byte>, write: Sink, ghost start: seq<Byte>)
    requires wrapper.Valid() && Proper(wrapper.f)
    requires Follows(texts, wrapper.x, wrapper.width, wrapper.f, wrapper.queue, wrapper.written, start, write.out)
    modifies write, wrapper, wrapper.lenbuf, wrapper.datbuf
    ensures wrapper.Valid()
    ensures Follows(texts + [text], wrapper.x, wrapper.width, wrapper.f, wrapper.queue, wrapper.written, start,
                    write.out)
  {
    ghost var lines := MakeLines(text, wrapper.width, wrapper.f);
    FollowsNext(texts, text, wrapper.x, wrapper.width, wrapper.f, wrapper.queue, wrapper.written, start, write.out,
                lines);
    wrapper.Process(write, text, lines);
  }

  method FeedAll(wrapper: LineWrapper, texts: seq<seq<Byte>>, write: Sink, ghost start: seq<Byte>)
    requires wrapper.Valid() && wrapper.queue == [] && wrapper.written == [] && Proper(wrapper.f) && write.out == start
    modifies write, wrapper, wrapper.lenbuf, wrapper.datbuf
    ensures wrapper.Valid()
    ensures Follows(texts, wrapper.x, wrapper.width, wrapper.f, wrapper.queue, wrapper.written, start, write.out)
  {
    FollowsNone(wrapper.x, wrapper.width, wrapper.f, start);
    var i := 0;
    while i < |texts|
      invariant i <= |texts| && wrapper.Valid()
      invariant Follows(texts[..i], wrapper.x, wrapper.width, wrapper.f, wrapper.queue, wrapper.written, start,
                        write.out)
    {
      assert texts[..i + 1] == texts[..i] + [texts[i]];
      Feed(wrapper, texts[..i], texts[i], write, start);
      i := i + 1;
    }
    assert texts[..i] == texts;
  }

  method FlushAll(wrapper: LineWrapper, ghost texts: seq<seq<Byte>>, write: Sink, ghost start: seq<Byte>)
    returns (ghost lines: seq<Chunk>)
    requires wrapper.Valid() && Proper(wrapper.f)
    requires Follows(texts, wrapper.x, wrapper.width, wrapper.f, wrapper.queue, wrapper.written, start, write.out)
    modifies write, wrapper
    ensures write.out == start + Flushed(Session(texts, wrapper.x, wrapper.width, wrapper.f), wrapper.x)
    ensures lines == AllLines(texts, wrapper.width, wrapper.f)
    ensures Rejoin(lines) == Flatten(texts) && AllFit(lines, wrapper.width, wrapper.f)
  {
    FollowsToTheEnd(texts, wrapper.x, wrapper.width, wrapper.f, wrapper.queue, wrapper.written, start, write.out);
    wrapper.Flush(write);
    lines := wrapper.written;
  }

  function Flatten(texts: seq<seq<Byte>>): seq<Byte> {
    if texts == [] then [] else Flatten(texts[..|texts| - 1]) + texts[|texts| - 1]
  }

  function AllLines(texts: seq<seq<Byte>>, width: nat, f: Decoder): seq<Chunk>
  {
    if texts == [] then [] else AllLines(texts[..|texts| - 1], width, f) + Wrap(texts[|texts| - 1], width, f)
  }
}
