/**
 The queue of database operations: any number of threads push, one thread processes. Every action
 between two lock operations is one step, and steps of all threads interleave in any order.
 */
module DiscoveryQueue {
  import AllowedTopicList
  import opened Bolts
  import opened DiscoveryDatabase

  /** Where the processing thread is: about to test its wake-up condition; waiting, notified or not;
      about to swap the queues; about to look at the front; behind an operation it carried out but has
      not popped yet; finished. */
  datatype Worker = Testing | Waiting(notified: bool) | Swapping | Looking | Applied | Finished

  /** `promised` counts threads that changed what the worker waits for and have not notified it yet;
      `listening` is false once the callbacks are cleared. `pushed` and `processed` are the history. */
  datatype Queue = Queue(foreground: seq<Operation>, background: seq<Operation>, worker: Worker, exit: bool,
                         promised: nat, listening: bool, entities: Entities, signals: seq<Signal>,
                         ghost pushed: seq<Operation>, ghost processed: seq<Operation>)

  datatype Step =
    | Push(op: Operation)   // under the lock
    | Notify                // after it
    | ClearCallbacks        // stopping: first the callbacks are cleared,
    | Exit                  // then the flag is set under the lock
    | SpuriousWakeUp
    | Work                  // the processing thread goes on

  ghost predicate Start(q: Queue) {
    q == Queue([], [], Testing, false, 0, true, map[], [], [], [])
  }

  predicate Possible(q: Queue, s: Step) {
    match s
    case Notify => q.promised > 0
    case SpuriousWakeUp => q.worker.Waiting?
    case Work => !(q.worker == Waiting(false) || q.worker.Finished?)
    case _ => true
  }

  function WakeUp(q: Queue): Queue {
    if q.worker.Waiting? then q.(worker := Waiting(true)) else q
  }

  ghost function Do(c: Setup, q: Queue, s: Step): Queue
    requires Possible(q, s)
  {
    match s
    case Push(op) => q.(background := q.background + [op], promised := q.promised + 1, pushed := q.pushed + [op])
    case Notify => WakeUp(q.(promised := q.promised - 1))
    case ClearCallbacks => q.(listening := false)
    case Exit => q.(exit := true, promised := q.promised + 1)
    case SpuriousWakeUp => WakeUp(q)
    case Work => Worked(c, q)
  }

  /** The processing thread: it waits until a queue is not empty or the exit flag is set; then swaps
      the queues, which discards what is left in the foreground; then carries out and pops the front
      of the foreground, until that is empty. */
  ghost function Worked(c: Setup, q: Queue): Queue {
    match q.worker
    case Testing =>
      if q.exit then q.(worker := Finished)
      else if q.foreground == [] && q.background == [] then q.(worker := Waiting(false))
      else q.(worker := Swapping)
    case Waiting(_) => q.(worker := Testing)
    case Swapping => q.(foreground := q.background, background := [], worker := Looking)
    case Looking =>
      if q.foreground == [] then q.(worker := Testing)
      else
        var r := Apply(c, q.entities, q.foreground[0]);
        q.(worker := Applied, entities := r.entities, signals := q.signals + if q.listening then r.signals else [],
           processed := q.processed + [q.foreground[0]])
    case Applied => if q.foreground == [] then q else q.(foreground := q.foreground[1..], worker := Looking)
    case Finished => q
  }

  /** Operations in the foreground that are still to be carried out. */
  function Ahead(q: Queue): seq<Operation> {
    if q.worker.Applied? && q.foreground != [] then q.foreground[1..] else q.foreground
  }

  /** The database, and what the pipe was told, follow from what was processed. */
  ghost predicate Follows(c: Setup, q: Queue) {
    && q.entities == ApplyAll(c, q.processed).entities
    && (q.listening ==> q.signals == ApplyAll(c, q.processed).signals)
    && q.signals <= ApplyAll(c, q.processed).signals
  }

  ghost predicate Inv(c: Setup, q: Queue) {
    // nothing is lost, doubled or reordered
    && q.pushed == q.processed + Ahead(q) + q.background
    // the swap discards nothing
    && (q.worker.Looking? || q.worker.Applied? || q.foreground == [])
    && (q.worker.Applied? ==> q.foreground != []) && (q.worker.Swapping? ==> q.background != [])
    && Follows(c, q)
    // no lost wake-up
    && (q.worker == Waiting(false) && (q.background != [] || q.exit) ==> q.promised > 0)
    && (q.worker.Finished? ==> q.exit)
  }

  lemma StepKeepsInv(c: Setup, q: Queue, s: Step)
    requires Inv(c, q) && Possible(q, s)
    ensures Inv(c, Do(c, q, s))
  {
    match s
    case Push(op) => assert q.processed + Ahead(q) + (q.background + [op])
      == q.processed + Ahead(q) + q.background + [op];
    case Work => WorkKeepsInv(c, q);
    case _ =>
  }

  lemma WorkKeepsInv(c: Setup, q: Queue)
    requires Inv(c, q)
    ensures Inv(c, Worked(c, q))
  {
    match q.worker
    case Swapping =>
      assert q.processed + [] + q.background == q.processed + q.background + [];
    case Looking =>
      if q.foreground != [] { ApplyKeepsInv(c, q, q.foreground[0], q.foreground[1..]); }
    case Applied =>
    case Testing =>
    case Waiting(_) =>
    case Finished =>
  }

  lemma ApplyKeepsInv(c: Setup, q: Queue, op: Operation, rest: seq<Operation>)
    requires Inv(c, q) && q.worker.Looking? && q.foreground == [op] + rest
    ensures Inv(c, Worked(c, q))
  {
    var z := Worked(c, q);
    assert z.foreground[1..] == rest;
    assert Follows(c, z) by { FollowsNext(c, q, op, z); }
    assert z.pushed == z.processed + rest + z.background by { OneShifted(q.processed, op, rest, q.background); }
  }

  lemma OneShifted(done: seq<Operation>, op: Operation, rest: seq<Operation>, more: seq<Operation>)
    ensures done + ([op] + rest) + more == done + [op] + rest + more
  {
  }

  lemma FollowsNext(c: Setup, q: Queue, op: Operation, z: Queue)
    requires Follows(c, q) && z.processed == q.processed + [op] && z.listening == q.listening
    requires var r := Apply(c, q.entities, op);
      z.entities == r.entities && z.signals == q.signals + if q.listening then r.signals else []
    ensures Follows(c, z)
  {
    OneMoreApplied(c, q.processed, op);
  }

  lemma OneMoreApplied(c: Setup, done: seq<Operation>, op: Operation)
    ensures var r, last := ApplyAll(c, done), Apply(c, ApplyAll(c, done).entities, op);
      ApplyAll(c, done + [op]) == Outcome(last.entities, r.signals + last.signals, last.ok)
  {
    assert (done + [op])[..|done|] == done;
  }

  /** A run: the states one after the other, each reached from the one before by a possible step. */
  ghost predicate IsRun(c: Setup, qs: seq<Queue>, steps: seq<Step>) {
    && |qs| == |steps| + 1 && Start(qs[0])
    && forall i :: 0 <= i < |steps| ==> Possible(qs[i], steps[i]) && qs[i + 1] == Do(c, qs[i], steps[i])
  }

  /** In every state of every interleaving. */
  lemma {:induction false} RunsKeepInv(c: Setup, qs: seq<Queue>, steps: seq<Step>, i: nat)
    requires IsRun(c, qs, steps) && i < |qs|
    ensures Inv(c, qs[i])
  {
    if i > 0 {
      RunsKeepInv(c, qs, steps, i - 1);
      StepKeepsInv(c, qs[i - 1], steps[i - 1]);
    }
  }

  /** What was processed is a prefix of what was pushed; and if the processing thread sleeps, with no
      notification on its way, it has processed everything. */
  lemma ProcessedInOrder(c: Setup, qs: seq<Queue>, steps: seq<Step>, i: nat)
    requires IsRun(c, qs, steps) && i < |qs|
    ensures qs[i].processed <= qs[i].pushed
    ensures qs[i].worker == Waiting(false) && qs[i].promised == 0 ==>
      qs[i].processed == qs[i].pushed && qs[i].entities == ApplyAll(c, qs[i].pushed).entities && !qs[i].exit
  {
    RunsKeepInv(c, qs, steps, i);
    var q := qs[i];
    assert q.processed + Ahead(q) + q.background == q.processed + (Ahead(q) + q.background);
  }

  /** Work left: each step of the processing thread makes it less, until everything pushed is processed. */
  function WorkLeft(q: Queue): nat {
    5 * |q.background| + 2 * |q.foreground| +
    match q.worker
    case Waiting(_) => 3
    case Testing => 2
    case Swapping => 1
    case Looking => 3
    case Applied => 2
    case Finished => 0
  }

  /** If nobody pushes any more and the exit flag stays clear, the processing thread comes to rest: as
      long as it can go on it does so with less work left, and when it cannot, all is processed. */
  lemma WorkIsDone(c: Setup, q: Queue)
    requires Inv(c, q) && !q.exit && q.promised == 0
    ensures Possible(q, Work) ==> var z := Do(c, q, Work); z.worker == Waiting(false) || WorkLeft(z) < WorkLeft(q)
    ensures !Possible(q, Work) ==> q.processed == q.pushed
  {
    if !Possible(q, Work) {
      assert q.processed + [] + [] == q.processed;
    }
  }

  /** As long as the callbacks are set the pipe has been told just what the processed operations tell,
      so that over exact operations the signals of a topic alternate in every interleaving. */
  lemma SignalsAlternateInRuns(c: Setup, qs: seq<Queue>, steps: seq<Step>, i: nat, t: AllowedTopicList.Topic, d: nat)
    requires IsRun(c, qs, steps) && i < |qs| && qs[i].listening
    requires ExactRun(c, qs[i].pushed, t, d) && !c.isService(t) && c.removeUnused
    ensures Alternates(About(qs[i].signals, t, d))
    ensures Users(c, qs[i].entities, t, d) != {} <==> |About(qs[i].signals, t, d)| % 2 == 1
  {
    RunsKeepInv(c, qs, steps, i);
    ProcessedInOrder(c, qs, steps, i);
    var q := qs[i];
    forall k | 0 <= k < |q.processed|
      ensures ExactAt(c, q.processed, k, t, d)
    {
      assert q.processed[..k] == q.pushed[..k] && ExactAt(c, q.pushed, k, t, d);
    }
    SignalsAlternate(c, q.processed, t, d);
  }

  // ---------------------------------------------------------------- stopping

  /** The exit flag is set, and no swap is due. */
  ghost predicate Stopping(q: Queue) {
    q.exit && !q.worker.Swapping? && (q.worker.Applied? ==> q.foreground != [])
  }

  /** Nothing but what was swapped in at `q` was processed up to `z` (see Bolts). */
  ghost predicate Since(q: Queue, z: Queue) {
    forall k {:trigger Key(k)} :: Bolt(k) ==>
      Stopping(z) && q.processed <= z.processed && z.processed + Ahead(z) == q.processed + Ahead(q)
  }

  lemma SinceStep(c: Setup, a: Queue, q: Queue, s: Step)
    requires Since(a, q) && Possible(q, s)
    ensures Since(a, Do(c, q, s))
  {
    assert Key(0);
    if s == Work && q.worker.Looking? && q.foreground != [] {
      assert q.processed + q.foreground == q.processed + [q.foreground[0]] + q.foreground[1..];
    }
  }

  lemma {:induction false} SinceAlongRun(c: Setup, qs: seq<Queue>, steps: seq<Step>, i: nat, j: nat)
    requires IsRun(c, qs, steps) && i <= j < |qs| && Since(qs[i], qs[i])
    ensures Since(qs[i], qs[j])
  {
    if i < j {
      SinceAlongRun(c, qs, steps, i, j - 1);
      SinceStep(c, qs[i], qs[j - 1], steps[j - 1]);
    }
  }

  /** Then nothing else is processed than what was swapped in before, whatever is pushed. */
  lemma ExitDropsTheRest(c: Setup, qs: seq<Queue>, steps: seq<Step>, i: nat, j: nat)
    requires IsRun(c, qs, steps) && i <= j < |qs| && qs[i].exit && !qs[i].worker.Swapping?
    ensures qs[j].exit && qs[i].processed <= qs[j].processed <= qs[i].processed + Ahead(qs[i])
  {
    RunsKeepInv(c, qs, steps, i);
    assert Since(qs[i], qs[i]) by { assert Stopping(qs[i]); }
    SinceAlongRun(c, qs, steps, i, j);
    assert Key(0);
    assert qs[j].processed <= qs[j].processed + Ahead(qs[j]);
  }

  /** And the processing thread ends: with the exit flag set every step of it leaves less to do, and the only way
      to come to rest is to finish. */
  lemma ExitEnds(c: Setup, q: Queue)
    requires Inv(c, q) && q.exit
    ensures Possible(q, Work) ==> WorkLeft(Do(c, q, Work)) < WorkLeft(q)
    ensures !Possible(q, Work) ==> q.worker.Finished? || (q.worker == Waiting(false) && q.promised > 0)
  {
  }

  /** After the callbacks were cleared the pipe is told nothing any more. */
  lemma {:induction false} SilentAfterClear(c: Setup, qs: seq<Queue>, steps: seq<Step>, i: nat, j: nat)
    requires IsRun(c, qs, steps) && i < j < |qs| && steps[i] == ClearCallbacks
    ensures !qs[j].listening && qs[j].signals == qs[i].signals
  {
    assert qs[j - 1 + 1] == Do(c, qs[j - 1], steps[j - 1]);
    if i + 1 < j {
      SilentAfterClear(c, qs, steps, i, j - 1);
      SilentStep(c, qs[j - 1], steps[j - 1]);
    }
  }

  lemma SilentStep(c: Setup, q: Queue, s: Step)
    requires !q.listening && Possible(q, s)
    ensures !Do(c, q, s).listening && Do(c, q, s).signals == q.signals
  {
  }
}
