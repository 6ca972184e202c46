/**
 The wait handler as a monitor: threads wait under its lock for a predicate on a value, for the
 handler to be disabled, or for a time limit. Each stretch between taking and releasing the lock is
 one step; steps of all threads interleave in any order.
 */
module WaitHandler {

  datatype AwakeReason = Disabled | Timeout | ConditionMet

  /** A thread inside `wait`: parked on the condition variable; or woken up, and on its way to take the
      lock again and test. `expired` says that its time limit is over. */
  datatype Waiter = Waiter(parked: bool, predicate_: int -> bool, timed: bool, expired: bool)

  /** `returned` lists the threads that came back from `wait`, and why. */
  datatype Handler = Handler(value: int, enabled: bool, nWaiting: int, waiters: map<nat, Waiter>,
                             returned: seq<(nat, AwakeReason)>)

  datatype Step =
    | SetValue(v: int)
    | Enable
    | Disable
    | Wait(thread: nat, predicate_: int -> bool, timed: bool) // calls wait: tests, and parks if it must
    | Expire(thread: nat)                                     // the time limit is over
    | Spurious(thread: nat)                                   // woken up for no reason
    | Resume(thread: nat)                                     // takes the lock again: tests, and returns or parks

  ghost predicate Start(h: Handler) {
    h.waiters == map[] && h.nWaiting == 0 && h.returned == []
  }

  predicate Possible(h: Handler, s: Step) {
    match s
    case Wait(t, _, _) => t !in h.waiters
    case Expire(t) => t in h.waiters && h.waiters[t].timed
    case Spurious(t) => t in h.waiters
    case Resume(t) => t in h.waiters && !h.waiters[t].parked
    case _ => true
  }

  function NotifyAll(w: map<nat, Waiter>): map<nat, Waiter> {
    map t | t in w :: w[t].(parked := false)
  }

  predicate Holds(h: Handler, w: Waiter) {
    !h.enabled || w.predicate_(h.value)
  }

  /** Why a thread that stops waiting does so: being disabled comes before the time limit. */
  function Reason(h: Handler, w: Waiter): AwakeReason {
    if !h.enabled then Disabled else if !Holds(h, w) then Timeout else ConditionMet
  }

  function Leave(h: Handler, t: nat, w: Waiter): Handler {
    h.(nWaiting := h.nWaiting - 1, waiters := h.waiters - {t}, returned := h.returned + [(t, Reason(h, w))])
  }

  /** The loop of `wait_for` at its test: return if the condition holds or the time is over, else park. */
  function Test(h: Handler, t: nat, w: Waiter): Handler {
    if Holds(h, w) || w.expired then Leave(h, t, w) else h.(waiters := h.waiters[t := w.(parked := true)])
  }

  function Do(h: Handler, s: Step): Handler
    requires Possible(h, s)
  {
    match s
    case SetValue(v) => h.(value := v, waiters := NotifyAll(h.waiters))
    case Enable => h.(enabled := true)
    case Disable => h.(enabled := false, waiters := NotifyAll(h.waiters))
    case Wait(t, p, timed) => Test(h.(nWaiting := h.nWaiting + 1), t, Waiter(false, p, timed, false))
    case Expire(t) => h.(waiters := h.waiters[t := h.waiters[t].(expired := true, parked := false)])
    case Spurious(t) => h.(waiters := h.waiters[t := h.waiters[t].(parked := false)])
    case Resume(t) => Test(h, t, h.waiters[t])
  }

  /** No lost wake-up: a thread is parked only while the handler is enabled, its predicate false, and its
      time not over. The counter counts the threads that wait. */
  ghost predicate Inv(h: Handler) {
    && h.nWaiting == |h.waiters|
    && forall t :: t in h.waiters ==>
         && (h.waiters[t].parked ==> !Holds(h, h.waiters[t]) && !h.waiters[t].expired)
         && (h.waiters[t].expired ==> h.waiters[t].timed)
  }

  lemma KeysOfNotified(w: map<nat, Waiter>)
    ensures NotifyAll(w).Keys == w.Keys && |NotifyAll(w)| == |w|
  {
    assert |NotifyAll(w)| == |NotifyAll(w).Keys| && |w| == |w.Keys|;
  }

  lemma SizeWith(w: map<nat, Waiter>, t: nat, x: Waiter)
    ensures |w[t := x]| == if t in w then |w| else |w| + 1
  {
    assert w[t := x].Keys == w.Keys + {t};
    assert |w[t := x]| == |w[t := x].Keys| && |w| == |w.Keys|;
  }

  lemma StepKeepsInv(h: Handler, s: Step)
    requires Inv(h) && Possible(h, s)
    ensures Inv(Do(h, s))
  {
    match s
    case SetValue(_) => KeysOfNotified(h.waiters);
    case Disable => KeysOfNotified(h.waiters);
    case Enable =>
    case Wait(t, p, timed) => TestKeepsInv(h.(nWaiting := h.nWaiting + 1), t, Waiter(false, p, timed, false));
    case Expire(t) => WakingKeepsInv(h, t, h.waiters[t].(expired := true, parked := false));
    case Spurious(t) => WakingKeepsInv(h, t, h.waiters[t].(parked := false));
    case Resume(t) => TestKeepsInv(h, t, h.waiters[t]);
  }

  lemma WakingKeepsInv(h: Handler, t: nat, w: Waiter)
    requires Inv(h) && t in h.waiters && !w.parked && (w.expired ==> w.timed)
    ensures Inv(h.(waiters := h.waiters[t := w]))
  {
    SizeWith(h.waiters, t, w);
  }

  lemma TestKeepsInv(h: Handler, t: nat, w: Waiter)
    requires h.nWaiting == |h.waiters - {t}| + 1
    requires forall x :: x in h.waiters && x != t ==>
      && (h.waiters[x].parked ==> !Holds(h, h.waiters[x]) && !h.waiters[x].expired)
      && (h.waiters[x].expired ==> h.waiters[x].timed)
    requires w.expired ==> w.timed
    ensures Inv(Test(h, t, w))
  {
    SizeWith(h.waiters, t, w.(parked := true));
  }

  ghost predicate IsRun(hs: seq<Handler>, ss: seq<Step>) {
    && |hs| == |ss| + 1 && Start(hs[0])
    && forall i :: 0 <= i < |ss| ==> Possible(hs[i], ss[i]) && hs[i + 1] == Do(hs[i], ss[i])
  }

  /** In every state of every interleaving. */
  lemma {:induction false} RunsKeepInv(hs: seq<Handler>, ss: seq<Step>, i: nat)
    requires IsRun(hs, ss) && i < |hs|
    ensures Inv(hs[i])
  {
    if i > 0 {
      RunsKeepInv(hs, ss, i - 1);
      StepKeepsInv(hs[i - 1], ss[i - 1]);
    }
  }

  function LastSet(value: int, ss: seq<Step>): int {
    if ss == [] then value
    else if ss[|ss| - 1].SetValue? then ss[|ss| - 1].v
    else LastSet(value, ss[..|ss| - 1])
  }

  function LastSwitch(enabled: bool, ss: seq<Step>): bool {
    if ss == [] then enabled
    else if ss[|ss| - 1].Enable? then true
    else if ss[|ss| - 1].Disable? then false
    else LastSwitch(enabled, ss[..|ss| - 1])
  }

  /** In every interleaving the value is the one set last, and the handler is enabled just if it was switched on
      last. */
  lemma {:induction false} ValueIsLastSet(hs: seq<Handler>, ss: seq<Step>, i: nat)
    requires IsRun(hs, ss) && i < |hs|
    ensures hs[i].value == LastSet(hs[0].value, ss[..i]) && hs[i].enabled == LastSwitch(hs[0].enabled, ss[..i])
  {
    if i > 0 {
      ValueIsLastSet(hs, ss, i - 1);
      assert hs[i] == Do(hs[i - 1], ss[i - 1]);
      assert ss[..i][..i - 1] == ss[..i - 1] && ss[..i][i - 1] == ss[i - 1];
    }
  }

  /** A thread inside `wait` waits for the predicate, and with the limit, of its last call, at step `k`; it has not
      returned since; and its time is over just if it ran out since. */
  lemma {:induction false} WaitsForItsOwn(hs: seq<Handler>, ss: seq<Step>, i: nat, t: nat) returns (k: nat)
    requires IsRun(hs, ss) && i < |hs| && t in hs[i].waiters
    ensures k < i && ss[k] == Wait(t, hs[i].waiters[t].predicate_, hs[i].waiters[t].timed) && t !in hs[k].waiters
    ensures forall j :: k < j <= i ==> t in hs[j].waiters
    ensures hs[i].waiters[t].expired <==> exists j :: k < j < i && ss[j] == Expire(t)
  {
    WaitsOn(hs[i - 1], ss[i - 1], t);
    if t in hs[i - 1].waiters {
      k := WaitsForItsOwn(hs, ss, i - 1, t);
    } else {
      k := i - 1;
    }
  }

  lemma WaitsOn(h: Handler, s: Step, t: nat)
    requires Possible(h, s) && t in Do(h, s).waiters
    ensures var w := Do(h, s).waiters[t];
      if t in h.waiters
      then w.predicate_ == h.waiters[t].predicate_ && w.timed == h.waiters[t].timed
           && (w.expired <==> h.waiters[t].expired || s == Expire(t))
      else s == Wait(t, w.predicate_, w.timed) && !w.expired
  {
  }

  /** A thread is woken up by a value that is set, by a disabling, by its own time limit or for no reason, and by
      nothing else; enabling wakes up nobody. And a thread leaves just by returning, one at a time. */
  lemma WokenBy(h: Handler, s: Step, t: nat)
    requires Possible(h, s) && t in h.waiters
    ensures var z := Do(h, s);
      && (h.waiters[t].parked ==> t in z.waiters)
      && (h.waiters[t].parked && !z.waiters[t].parked <==>
            h.waiters[t].parked && (s.SetValue? || s.Disable? || s == Expire(t) || s == Spurious(t)))
      && (t !in z.waiters <==> s == Resume(t) && exists x :: z.returned == h.returned + [(t, x)])
      && (t in z.waiters ==> z.returned == h.returned || exists u, x :: u != t && z.returned == h.returned + [(u, x)])
  {
  }

  /** A thread whose condition holds, or whose time is over, is never left parked: it can resume, and
      then it returns. */
  lemma CanReturn(hs: seq<Handler>, ss: seq<Step>, i: nat, t: nat)
    requires IsRun(hs, ss) && i < |hs| && t in hs[i].waiters
    requires Holds(hs[i], hs[i].waiters[t]) || hs[i].waiters[t].expired
    ensures Possible(hs[i], Resume(t)) && t !in Do(hs[i], Resume(t)).waiters
  {
    RunsKeepInv(hs, ss, i);
  }

  /** Why a thread returns, for every step that makes one return: `disabled` just if the handler is
      disabled; otherwise `condition_met` just if the predicate is true of the value; otherwise the time
      is over, and there was a limit. */
  lemma ReasonIsRight(hs: seq<Handler>, ss: seq<Step>, i: nat)
    requires IsRun(hs, ss) && i < |ss| && |hs[i + 1].returned| > |hs[i].returned|
    ensures ss[i].Wait? || ss[i].Resume?
    ensures var h := hs[i]; var (t, reason) := hs[i + 1].returned[|h.returned|];
      var (p, limited) := if ss[i].Wait? then (ss[i].predicate_, false)
        else (h.waiters[t].predicate_, h.waiters[t].timed);
      && t == ss[i].thread && t !in hs[i + 1].waiters
      && (reason == Disabled <==> !h.enabled)
      && (reason == ConditionMet <==> h.enabled && p(h.value))
      && (reason == Timeout ==> limited)
  {
    RunsKeepInv(hs, ss, i);
  }

  /** Whether the last of the steps from `i` up to `j` that enable or disable enables. */
  predicate Reenabled(ss: seq<Step>, i: nat, j: nat)
    requires i <= j <= |ss|
    decreases j
  {
    if i == j then false
    else if ss[j - 1].Enable? then true
    else if ss[j - 1].Disable? then false
    else Reenabled(ss, i, j - 1)
  }

  /** From a disabling up to its next resumption a thread goes on waiting for the same predicate. */
  lemma {:induction false} WaitsMeanwhile(hs: seq<Handler>, ss: seq<Step>, i: nat, j: nat, t: nat)
    requires IsRun(hs, ss) && i < j <= |ss| && ss[i].Disable? && t in hs[i].waiters
    requires forall k :: i < k < j ==> ss[k] != Resume(t)
    ensures t in hs[j].waiters && hs[j].waiters[t].predicate_ == hs[i].waiters[t].predicate_
    ensures hs[j].enabled <==> Reenabled(ss, i, j)
  {
    assert hs[j] == Do(hs[j - 1], ss[j - 1]) && Possible(hs[j - 1], ss[j - 1]);
    if j > i + 1 {
      WaitsMeanwhile(hs, ss, i, j - 1, t);
    }
  }

  /** What a disabling does to a thread that waits, at its next resumption, whatever happens in between: it
      returns as disabled just if nobody enabled again; and it misses the disabling altogether, and waits
      on, just if somebody did, its predicate is false, and its time is not over. */
  lemma DisableMissed(hs: seq<Handler>, ss: seq<Step>, i: nat, j: nat, t: nat)
    requires IsRun(hs, ss) && i < j < |ss| && ss[i].Disable? && t in hs[i].waiters
    requires ss[j] == Resume(t) && forall k :: i < k < j ==> ss[k] != Resume(t)
    ensures t in hs[j].waiters
    ensures hs[j + 1].returned == hs[j].returned + [(t, Disabled)] <==> !Reenabled(ss, i, j)
    ensures t in hs[j + 1].waiters <==>
      Reenabled(ss, i, j) && !hs[i].waiters[t].predicate_(hs[j].value) && !hs[j].waiters[t].expired
    ensures t in hs[j + 1].waiters ==> hs[j + 1].waiters[t].parked && hs[j + 1].returned == hs[j].returned
  {
    WaitsMeanwhile(hs, ss, i, j, t);
    assert hs[j + 1] == Do(hs[j], ss[j]);
    var r := hs[j].returned;
    assert |r + [(t, Disabled)]| == |r| + 1 && (r + [(t, Disabled)])[|r|] == (t, Disabled);
  }

  /** The comment in `enable` fails for every thread that is parked: whoever disables and enables again at
      once leaves it parked. */
  lemma EnabledTooEarly(h: Handler, t: nat)
    requires Inv(h) && t in h.waiters && h.waiters[t].parked
    ensures Do(h, Disable).waiters != map[] && !Do(h, Disable).enabled
    ensures var z := Do(Do(Do(h, Disable), Enable), Resume(t));
      t in z.waiters && z.waiters[t].parked && z.returned == h.returned
  {
    assert t in Do(h, Disable).waiters;
  }

  /** What can happen while one thread keeps the lock: it notifies, time passes, threads are woken up. None
      of them gets any further. */
  ghost predicate WhileLocked(h: Handler, next: Handler) {
    || next == h.(waiters := NotifyAll(h.waiters))
    || (exists t :: Possible(h, Expire(t)) && next == Do(h, Expire(t)))
    || (exists t :: Possible(h, Spurious(t)) && next == Do(h, Spurious(t)))
  }

  /** `blocking_disable` notifies in a loop while threads wait, and keeps the lock that they need to leave:
      its loop is never left if anybody waits, and never entered otherwise. */
  lemma {:induction false} BlockingDisable(hs: seq<Handler>, i: nat)
    requires i < |hs| && Inv(hs[0])
    requires forall k :: 0 <= k < |hs| - 1 ==> WhileLocked(hs[k], hs[k + 1])
    ensures hs[i].nWaiting == hs[0].nWaiting && (hs[i].nWaiting > 0 <==> hs[0].waiters != map[])
    ensures hs[i].waiters.Keys == hs[0].waiters.Keys
  {
    if i > 0 {
      BlockingDisable(hs[..i], i - 1);
      assert WhileLocked(hs[i - 1], hs[i]);
      KeysOfNotified(hs[i - 1].waiters);
    }
  }

  // ---------------------------------------------------------------- the code

  /** The handler; the threads that wait are those of the operating system, kept here to be notified. */
  class WaitHandler {
    var value: int
    var enabled: bool
    var nWaiting: int
    var waiters: map<nat, Waiter>
    var returned: seq<(nat, AwakeReason)>

    constructor (enabled: bool, initValue: int)
      ensures View() == Handler(initValue, enabled, 0, map[], []) && Start(View())
    {
      this.value, this.enabled := initValue, enabled;
      nWaiting, waiters, returned := 0, map[], [];
    }

    function View(): Handler
      reads this
    {
      Handler(value, enabled, nWaiting, waiters, returned)
    }

    method NotifyAllWaiters()
      modifies this`waiters
      ensures waiters == NotifyAll(old(waiters))
    {
      waiters := map t | t in waiters :: waiters[t].(parked := false);
    }

    method Set(v: int)
      modifies this
      ensures View() == Do(old(View()), SetValue(v))
    {
      value := v;
      NotifyAllWaiters();
    }

    method EnableHandler()
      modifies this
      ensures View() == Do(old(View()), Enable)
    {
      enabled := true;
    }

    method DisableHandler()
      modifies this
      ensures View() == Do(old(View()), Disable)
    {
      enabled := false;
      NotifyAllWaiters();
    }

    /** The way into `wait`, up to parking or to returning without parking. */
    method EnterWait(t: nat, p: int -> bool, timed: bool)
      requires Possible(View(), Wait(t, p, timed))
      modifies this
      ensures View() == Do(old(View()), Wait(t, p, timed))
    {
      nWaiting := nWaiting + 1;
      var result := !enabled || p(value);
      if result {
        LeaveWait(t, Waiter(false, p, timed, false), result);
      } else {
        waiters := waiters[t := Waiter(true, p, timed, false)];
      }
    }

    /** Behind the condition variable, with the lock taken again. */
    method ResumeWait(t: nat)
      requires Possible(View(), Resume(t))
      modifies this
      ensures View() == Do(old(View()), Resume(t))
    {
      var w := waiters[t];
      var result := !enabled || w.predicate_(value);
      if result || w.expired {
        LeaveWait(t, w, result);
      } else {
        waiters := waiters[t := w.(parked := true)];
      }
    }

    method LeaveWait(t: nat, ghost w: Waiter, result: bool)
      requires result == Holds(View(), w)
      modifies this
      ensures View() == Leave(old(View()), t, w)
    {
      nWaiting := nWaiting - 1;
      waiters := waiters - {t};
      var reason := if !enabled then Disabled else if !result then Timeout else ConditionMet;
      returned := returned + [(t, reason)];
    }
  }
}
