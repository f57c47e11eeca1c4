/**
 * Threads, semaphores and locks as interleaved steps (threads/thread.c, threads/synch.c).
 * A step is a stretch of code that runs with interrupts off, or one assignment to a lock's holder.
 */
module Scheduler {
  import opened Definitions
  import opened Sequences
  import opened Wrappers

  type Tid = nat
  type Sema = nat

  datatype Status = Running | Ready | Blocked | Dying

  /**
   * Where a thread is in the synchronization code: outside it; inside sema_down, to look at the value again when
   * it next runs; between sema_down and the assignment of the holder in lock_acquire; between the clearing of the
   * holder and sema_up in lock_release; or put to sleep by thread_block itself.
   */
  datatype Pc = Outside | InDown(sema: Sema) | Taken(lock: Sema) | Given(lock: Sema) | Asleep

  datatype Thread = Thread(status: Status, pc: Pc, priority: int)

  datatype Semaphore = Semaphore(value: nat, waiters: seq<Tid>)

  type Threads = map<Tid, Thread>

  /** The running thread, and the ready list: exactly the ready threads but for the idle one. */
  ghost predicate ReadyOk(threads: Threads, cur: Tid, idle: Tid, ready: seq<Tid>) {
    && cur in threads && idle in threads && Distinct(ready)
    && (forall t :: t in ready ==> t in threads)
    && (forall t :: t in threads ==> (threads[t].status == Running <==> t == cur))
    && (forall t :: t in threads ==> (t in ready <==> threads[t].status == Ready && t != idle))
  }

  ghost predicate Waits(threads: Threads, idle: Tid, s: Sema, t: Tid) {
    t in threads && t != idle && threads[t].status == Blocked && threads[t].pc == InDown(s)
  }

  /** Waiters are blocked, in sema_down on this very semaphore. */
  ghost predicate WaitersOk(threads: Threads, idle: Tid, s: Sema, waiters: seq<Tid>) {
    Distinct(waiters) && forall t :: t in waiters ==> Waits(threads, idle, s, t)
  }

  ghost predicate IsPast(thread: Thread, t: Tid, holder: Option<Tid>, l: Sema) {
    thread.pc == Taken(l) || thread.pc == Given(l) || holder == Some(t)
  }

  /** The threads past lock l's down and not yet past its up. */
  ghost function Past(threads: Threads, holder: Option<Tid>, l: Sema): set<Tid> {
    set t | t in threads && IsPast(threads[t], t, holder, l)
  }

  ghost predicate LockOk(threads: Threads, holder: Option<Tid>, l: Sema, value: nat) {
    && (holder.Some? ==> holder.value in threads && threads[holder.value].pc != Given(l))
    && value + |Past(threads, holder, l)| == 1
  }

  /** Highest priority first. */
  ghost predicate Descending(threads: Threads, ready: seq<Tid>) {
    && (forall t :: t in ready ==> t in threads)
    && forall i, j :: 0 <= i < j < |ready| ==> threads[ready[i]].priority >= threads[ready[j]].priority
  }

  /** One thread's change that leaves it as much past l as it was leaves l's set alone. */
  lemma PastKept(threads: Threads, t: Tid, thread: Thread, holder: Option<Tid>, l: Sema)
    requires t in threads ==> (IsPast(threads[t], t, holder, l) <==> IsPast(thread, t, holder, l))
    requires t !in threads ==> !IsPast(thread, t, holder, l)
    ensures Past(threads[t := thread], holder, l) == Past(threads, holder, l)
  {
  }

  /** The mutual exclusion that the counting invariant gives. */
  lemma MutualExclusion(threads: Threads, holder: Option<Tid>, l: Sema, value: nat, t: Tid, u: Tid)
    requires LockOk(threads, holder, l, value)
    ensures value <= 1
    ensures value == 1 <==> Past(threads, holder, l) == {}
    ensures t in Past(threads, holder, l) && u in Past(threads, holder, l) ==> t == u
  {
    var p := Past(threads, holder, l);
    assert t in p && u in p && t != u ==> |p - {t} - {u}| == |p| - 2;
  }

  type Semas = map<Sema, Semaphore>
  type Holders = map<Sema, Option<Tid>>

  /** Every wait list and every lock is as it should be. */
  ghost predicate SyncOk(threads: Threads, idle: Tid, semas: Semas, holder: Holders) {
    && (forall s {:trigger semas[s]} :: s in semas ==> WaitersOk(threads, idle, s, semas[s].waiters))
    && (forall l {:trigger holder[l]} :: l in holder ==> l in semas && LockOk(threads, holder[l], l, semas[l].value))
  }

  ghost predicate Crossing(pc: Pc) {
    pc.Taken? || pc.Given?
  }

  /** A thread may change as long as it crosses no lock's boundary and keeps to the wait lists it is on. */
  lemma SyncKept(threads: Threads, t: Tid, thread: Thread, idle: Tid, semas: Semas, holder: Holders)
    requires SyncOk(threads, idle, semas, holder) && t in threads
    requires threads[t].pc == thread.pc || (!Crossing(threads[t].pc) && !Crossing(thread.pc))
    requires forall s :: s in semas && t in semas[s].waiters ==> Waits(threads[t := thread], idle, s, t)
    ensures SyncOk(threads[t := thread], idle, semas, holder)
  {
    var threads' := threads[t := thread];
    forall s | s in semas
      ensures WaitersOk(threads', idle, s, semas[s].waiters)
    {
      assert WaitersOk(threads, idle, s, semas[s].waiters);
      assert forall u :: u in semas[s].waiters ==> Waits(threads, idle, s, u);
    }
    forall l | l in holder
      ensures LockOk(threads', holder[l], l, semas[l].value)
    {
      PastKept(threads, t, thread, holder[l], l);
    }
  }

  /** A thread that is not blocked is on no wait list, and neither is the idle thread. */
  lemma NotWaiting(threads: Threads, idle: Tid, semas: Semas, holder: Holders, t: Tid)
    requires SyncOk(threads, idle, semas, holder)
    requires t == idle || t !in threads || threads[t].status != Blocked || !threads[t].pc.InDown?
    ensures forall s :: s in semas ==> t !in semas[s].waiters
  {
    forall s | s in semas ensures t !in semas[s].waiters {
      assert t in semas[s].waiters ==> Waits(threads, idle, s, t);
    }
  }

  /** The ready list while the processor changes hands. */
  ghost predicate Switching(threads: Threads, idle: Tid, ready: seq<Tid>) {
    && idle in threads && Distinct(ready)
    && (forall t :: t in ready ==> t in threads)
    && (forall t :: t in threads ==> threads[t].status != Running)
    && (forall t :: t in threads ==> (t in ready <==> threads[t].status == Ready && t != idle))
  }

  lemma SwitchIn(threads: Threads, idle: Tid, ready: seq<Tid>)
    requires Switching(threads, idle, ready)
    ensures ready == [] ==> ReadyOk(threads[idle := threads[idle].(status := Running)], idle, idle, [])
    ensures ready != [] ==>
              && ready[0] in threads
              && ReadyOk(threads[ready[0] := threads[ready[0]].(status := Running)], ready[0], idle, ready[1..])
  {
    if ready != [] {
      assert forall t :: t in ready[1..] ==> t in ready;
      assert forall t :: t in ready && t != ready[0] ==> t in ready[1..];
    }
  }

  /** What a thread does apart from its status is no concern of the ready list. */
  lemma ReadyKept(threads: Threads, cur: Tid, idle: Tid, ready: seq<Tid>, t: Tid, thread: Thread)
    requires ReadyOk(threads, cur, idle, ready) && t in threads && thread.status == threads[t].status
    ensures ReadyOk(threads[t := thread], cur, idle, ready)
  {
  }

  /** The running thread stops running, and joins the ready list if it becomes ready. */
  lemma SwitchOut(threads: Threads, cur: Tid, idle: Tid, ready: seq<Tid>, thread: Thread, i: nat)
    requires ReadyOk(threads, cur, idle, ready) && thread.status != Running && i <= |ready|
    ensures thread.status != Ready || cur == idle ==> Switching(threads[cur := thread], idle, ready)
    ensures thread.status == Ready && cur != idle ==> Switching(threads[cur := thread], idle, InsertAt(ready, i, cur))
  {
    InsertAtDistinct(ready, i, cur);
  }

  /** A blocked thread inside sema_down goes on the wait list. */
  lemma Enqueued(threads: Threads, idle: Tid, semas: Semas, holder: Holders, s: Sema, t: Tid)
    requires SyncOk(threads, idle, semas, holder) && s in semas && Waits(threads, idle, s, t) && t !in semas[s].waiters
    ensures SyncOk(threads, idle, semas[s := Semaphore(semas[s].value, semas[s].waiters + [t])], holder)
  {
    assert WaitersOk(threads, idle, s, semas[s].waiters);
  }

  /** A waiter comes off its wait list, and is then on none. */
  lemma Dequeued(threads: Threads, idle: Tid, semas: Semas, holder: Holders, s: Sema, k: nat)
    requires SyncOk(threads, idle, semas, holder) && s in semas && k < |semas[s].waiters|
    ensures var semas' := semas[s := Semaphore(semas[s].value, RemoveAt(semas[s].waiters, k))];
            && SyncOk(threads, idle, semas', holder)
            && Waits(threads, idle, s, semas[s].waiters[k])
            && forall s' :: s' in semas' ==> semas[s].waiters[k] !in semas'[s'].waiters
  {
    var t := semas[s].waiters[k];
    assert WaitersOk(threads, idle, s, semas[s].waiters);
    RemoveAtDistinct(semas[s].waiters, k);
    assert Waits(threads, idle, s, t);
    forall s' | s' in semas && s' != s ensures t !in semas[s'].waiters {
      assert t in semas[s'].waiters ==> Waits(threads, idle, s', t);
    }
  }

  /** Where a thread is once it has taken the value. */
  function AfterDown(holder: Holders, s: Sema): Pc {
    if s in holder then Taken(s) else Outside
  }

  /** Taking the value of a lock's semaphore makes the thread the one past it. */
  lemma DownTaken(threads: Threads, idle: Tid, semas: Semas, holder: Holders, s: Sema, t: Tid)
    requires SyncOk(threads, idle, semas, holder) && s in semas && semas[s].value > 0
    requires t in threads && threads[t].status != Blocked && !Crossing(threads[t].pc)
    ensures SyncOk(threads[t := threads[t].(pc := AfterDown(holder, s))], idle,
                   semas[s := Semaphore(semas[s].value - 1, semas[s].waiters)], holder)
  {
    var threads' := threads[t := threads[t].(pc := AfterDown(holder, s))];
    NotWaiting(threads, idle, semas, holder, t);
    forall s' | s' in semas
      ensures WaitersOk(threads', idle, s', semas[s'].waiters)
    {
      assert WaitersOk(threads, idle, s', semas[s'].waiters);
      assert forall u :: u in semas[s'].waiters ==> Waits(threads, idle, s', u);
    }
    forall l | l in holder
      ensures LockOk(threads', holder[l], l, if l == s then semas[l].value - 1 else semas[l].value)
    {
      if l == s {
        MutualExclusion(threads, holder[l], l, semas[l].value, t, t);
        assert Past(threads', holder[l], l) == {t} by {
          assert forall u :: u in threads ==> u !in Past(threads, holder[l], l);
        }
      } else {
        PastKept(threads, t, threads'[t], holder[l], l);
      }
    }
  }

  /** t joins the ready list. */
  lemma ReadyJoin(threads: Threads, cur: Tid, idle: Tid, ready: seq<Tid>, i: nat, t: Tid)
    requires ReadyOk(threads, cur, idle, ready) && i <= |ready|
    requires t in threads && t != idle && threads[t].status == Blocked
    ensures ReadyOk(threads[t := threads[t].(status := Ready)], cur, idle, InsertAt(ready, i, t))
  {
    InsertAtDistinct(ready, i, t);
  }

  /** Putting t before the first thread of no higher priority keeps the order. */
  lemma InsertDescending(threads: Threads, ready: seq<Tid>, i: nat, t: Tid)
    requires Descending(threads, ready) && t in threads && i <= |ready|
    requires forall k :: 0 <= k < i ==> threads[ready[k]].priority >= threads[t].priority
    requires i < |ready| ==> threads[ready[i]].priority <= threads[t].priority
    ensures Descending(threads, InsertAt(ready, i, t))
  {
  }

  /** t moves from one way of being past l to another. */
  lemma CrossingKept(threads: Threads, idle: Tid, semas: Semas, holder: Holders, l: Sema, h: Option<Tid>, t: Tid, pc: Pc)
    requires SyncOk(threads, idle, semas, holder) && l in holder && t in Past(threads, holder[l], l)
    requires threads[t].status != Blocked && (Crossing(threads[t].pc) ==> threads[t].pc.lock == l)
    requires (h == Some(t) && !Crossing(pc)) || (h == None && pc == Given(l))
    ensures SyncOk(threads[t := threads[t].(pc := pc)], idle, semas, holder[l := h])
  {
    var threads' := threads[t := threads[t].(pc := pc)];
    NotWaiting(threads, idle, semas, holder, t);
    forall s | s in semas
      ensures WaitersOk(threads', idle, s, semas[s].waiters)
    {
      assert WaitersOk(threads, idle, s, semas[s].waiters);
      assert forall u :: u in semas[s].waiters ==> Waits(threads, idle, s, u);
    }
    forall l' | l' in holder
      ensures LockOk(threads', if l' == l then h else holder[l'], l', semas[l'].value)
    {
      if l' == l {
        forall u | u in Past(threads, holder[l], l) ensures u == t {
          MutualExclusion(threads, holder[l], l, semas[l].value, t, u);
        }
        assert Past(threads, holder[l], l) == {t} == Past(threads', h, l);
      } else {
        PastKept(threads, t, threads'[t], holder[l'], l');
      }
    }
  }

  /** Where a thread is once it has given the value back. */
  function AfterUp(holder: Holders, s: Sema, pc: Pc): Pc {
    if s in holder then Outside else pc
  }

  function GaveValue(holder: Holders, s: Sema, thread: Thread): Thread {
    thread.(pc := AfterUp(holder, s, thread.pc))
  }

  function Raised(sema: Semaphore): Semaphore {
    Semaphore(sema.value + 1, sema.waiters)
  }

  /** Giving the value back ends the thread's stay past the lock. */
  lemma UpGiven(threads: Threads, idle: Tid, semas: Semas, holder: Holders, s: Sema, t: Tid)
    requires SyncOk(threads, idle, semas, holder) && s in semas
    requires t in threads && threads[t].status != Blocked && (s in holder ==> threads[t].pc == Given(s))
    ensures SyncOk(threads[t := GaveValue(holder, s, threads[t])], idle, semas[s := Raised(semas[s])], holder)
  {
    var threads' := threads[t := GaveValue(holder, s, threads[t])];
    NotWaiting(threads, idle, semas, holder, t);
    forall s' | s' in semas
      ensures WaitersOk(threads', idle, s', semas[s'].waiters)
    {
      assert WaitersOk(threads, idle, s', semas[s'].waiters);
      assert forall u :: u in semas[s'].waiters ==> Waits(threads, idle, s', u);
    }
    forall l | l in holder
      ensures LockOk(threads', holder[l], l, if l == s then semas[l].value + 1 else semas[l].value)
    {
      if l == s {
        forall u | u in Past(threads, holder[l], l) ensures u == t {
          MutualExclusion(threads, holder[l], l, semas[l].value, t, u);
        }
        assert t in Past(threads, holder[l], l);
        assert Past(threads, holder[l], l) == {t};
        forall u | u in threads' ensures u !in Past(threads', holder[l], l) {
          assert u != t ==> u !in Past(threads, holder[l], l);
        }
        assert Past(threads', holder[l], l) == {};
      } else {
        PastKept(threads, t, threads'[t], holder[l], l);
      }
    }
  }

  /** Program counters speak of semaphores and locks that exist. */
  ghost predicate PcsOk(threads: Threads, semas: Semas, holder: Holders) {
    && (forall t :: t in threads && threads[t].pc.InDown? ==> threads[t].pc.sema in semas)
    && (forall t :: t in threads && Crossing(threads[t].pc) ==> threads[t].pc.lock in holder)
  }

  ghost predicate PrioritiesOk(threads: Threads) {
    forall t :: t in threads ==> threads[t].priority >= PRI_MIN
  }

  /** The ready list after the running thread has stepped aside, behind the first i. */
  function Aside(ready: seq<Tid>, cur: Tid, idle: Tid, i: nat): seq<Tid>
    requires i <= |ready|
  {
    if cur == idle then ready else InsertAt(ready, i, cur)
  }

  lemma AsideDescending(threads: Threads, ready: seq<Tid>, cur: Tid, idle: Tid, i: nat, thread: Thread)
    requires cur in threads && i <= |ready| && forall u :: u in ready ==> u in threads
    requires thread.priority == threads[cur].priority && thread.pc == threads[cur].pc
    requires forall k :: 0 <= k < i ==> threads[ready[k]].priority >= threads[cur].priority
    requires i < |ready| ==> threads[ready[i]].priority < threads[cur].priority
    ensures cur != idle ==> cur in Aside(ready, cur, idle, i)
    ensures SameButStatus(threads, threads[cur := thread])
    ensures Descending(threads, ready) ==> Descending(threads[cur := thread], Aside(ready, cur, idle, i))
  {
    assert InsertAt(ready, i, cur)[i] == cur;
    if Descending(threads, ready) {
      InsertDescending(threads, ready, i, cur);
    }
  }

  /** On an ordered list, whoever is at the front has the highest priority, and the rest stays ordered. */
  lemma FrontIsHighest(threads: Threads, ready: seq<Tid>, threads': Threads)
    requires Descending(threads, ready)
    requires forall t :: t in threads ==> t in threads' && threads'[t].priority == threads[t].priority
    ensures Descending(threads', Rest(ready))
    ensures forall t :: t in ready ==> threads[ready[0]].priority >= threads[t].priority
  {
  }

  /** A thread outside all synchronization code can be added. */
  lemma NewThread(threads: Threads, idle: Tid, semas: Semas, holder: Holders, t: Tid, thread: Thread)
    requires SyncOk(threads, idle, semas, holder) && t !in threads && !Crossing(thread.pc)
    ensures SyncOk(threads[t := thread], idle, semas, holder)
  {
    NotWaiting(threads, idle, semas, holder, t);
    forall s | s in semas
      ensures WaitersOk(threads[t := thread], idle, s, semas[s].waiters)
    {
      assert WaitersOk(threads, idle, s, semas[s].waiters);
      assert forall u :: u in semas[s].waiters ==> Waits(threads, idle, s, u);
    }
    forall l | l in holder
      ensures LockOk(threads[t := thread], holder[l], l, semas[l].value)
    {
      PastKept(threads, t, thread, holder[l], l);
    }
  }

  /** The thread at k is the first of those with the highest priority. */
  ghost predicate FirstHighest(threads: Threads, waiters: seq<Tid>, k: nat)
    requires k < |waiters|
  {
    && (forall t :: t in waiters ==> t in threads)
    && (forall j :: 0 <= j < |waiters| ==> threads[waiters[j]].priority <= threads[waiters[k]].priority)
    && (forall j :: 0 <= j < k ==> threads[waiters[j]].priority < threads[waiters[k]].priority)
  }

  /** Position i is before the first thread on the list that is not above t. */
  ghost predicate BeforeEquals(threads: Threads, ready: seq<Tid>, i: nat, t: Tid) {
    && t in threads && i <= |ready| && (forall u :: u in ready ==> u in threads)
    && (forall k :: 0 <= k < i ==> threads[ready[k]].priority > threads[t].priority)
    && (i < |ready| ==> threads[ready[i]].priority <= threads[t].priority)
  }

  /** The same threads, alike but for their status. */
  ghost predicate SameButStatus(a: Threads, b: Threads) {
    a.Keys == b.Keys && forall t :: t in a ==> a[t].pc == b[t].pc && a[t].priority == b[t].priority
  }

  lemma SameButStatusTwice(a: Threads, b: Threads, c: Threads)
    requires SameButStatus(a, b) && SameButStatus(b, c)
    ensures SameButStatus(a, c)
  {
  }

  function Awoken(threads: Threads, woken: Option<Tid>): Threads {
    if woken.Some? && woken.value in threads then
      threads[woken.value := threads[woken.value].(status := Ready)]
    else
      threads
  }

  // ---- the whole invariant, step by step ----

  ghost predicate Good(threads: Threads, cur: Tid, idle: Tid, ready: seq<Tid>, semas: Semas, holder: Holders) {
    && ReadyOk(threads, cur, idle, ready) && SyncOk(threads, idle, semas, holder)
    && PrioritiesOk(threads) && PcsOk(threads, semas, holder)
  }

  /** The same while the processor changes hands. */
  ghost predicate Between(threads: Threads, idle: Tid, ready: seq<Tid>, semas: Semas, holder: Holders) {
    && Switching(threads, idle, ready) && SyncOk(threads, idle, semas, holder)
    && PrioritiesOk(threads) && PcsOk(threads, semas, holder)
  }

  /** The thread that schedule picks. */
  function Next(idle: Tid, ready: seq<Tid>): Tid {
    if ready == [] then idle else ready[0]
  }

  function Rest(ready: seq<Tid>): seq<Tid> {
    if ready == [] then [] else ready[1..]
  }

  /** Thread t becomes `thread`, and then `next` runs. */
  function HandOver(threads: Threads, t: Tid, thread: Thread, next: Tid): Threads
    requires next in threads[t := thread]
  {
    var after := threads[t := thread];
    after[next := after[next].(status := Running)]
  }

  lemma GoodSwitchIn(threads: Threads, idle: Tid, ready: seq<Tid>, semas: Semas, holder: Holders)
    requires Between(threads, idle, ready, semas, holder)
    ensures var n := Next(idle, ready);
            && n in threads
            && Good(threads[n := threads[n].(status := Running)], n, idle, Rest(ready), semas, holder)
  {
    SwitchIn(threads, idle, ready);
    var n := Next(idle, ready);
    NotWaiting(threads, idle, semas, holder, n);
    SyncKept(threads, n, threads[n].(status := Running), idle, semas, holder);
  }

  lemma GoodSwitchOut(threads: Threads, cur: Tid, idle: Tid, ready: seq<Tid>, semas: Semas, holder: Holders, thread: Thread, i: nat)
    requires Good(threads, cur, idle, ready, semas, holder) && i <= |ready|
    requires thread.status != Running && thread.priority == threads[cur].priority
    requires thread.pc == threads[cur].pc || (!Crossing(threads[cur].pc) && !Crossing(thread.pc))
    requires thread.pc.InDown? ==> thread.pc.sema in semas
    ensures Between(threads[cur := thread], idle,
                    if thread.status == Ready && cur != idle then InsertAt(ready, i, cur) else ready, semas, holder)
  {
    NotWaiting(threads, idle, semas, holder, cur);
    SyncKept(threads, cur, thread, idle, semas, holder);
    SwitchOut(threads, cur, idle, ready, thread, i);
  }

  lemma GoodUnblock(threads: Threads, cur: Tid, idle: Tid, ready: seq<Tid>, semas: Semas, holder: Holders, t: Tid, i: nat)
    requires Good(threads, cur, idle, ready, semas, holder) && i <= |ready|
    requires t in threads && t != idle && threads[t].status == Blocked
    requires forall s :: s in semas ==> t !in semas[s].waiters
    ensures Good(threads[t := threads[t].(status := Ready)], cur, idle, InsertAt(ready, i, t), semas, holder)
  {
    ReadyJoin(threads, cur, idle, ready, i, t);
    SyncKept(threads, t, threads[t].(status := Ready), idle, semas, holder);
  }

  lemma GoodDown(threads: Threads, cur: Tid, idle: Tid, ready: seq<Tid>, semas: Semas, holder: Holders, s: Sema)
    requires Good(threads, cur, idle, ready, semas, holder)
    requires s in semas && semas[s].value > 0 && !Crossing(threads[cur].pc)
    ensures Good(threads[cur := threads[cur].(pc := AfterDown(holder, s))], cur, idle, ready,
                 semas[s := Semaphore(semas[s].value - 1, semas[s].waiters)], holder)
  {
    DownTaken(threads, idle, semas, holder, s, cur);
    ReadyKept(threads, cur, idle, ready, cur, threads[cur].(pc := AfterDown(holder, s)));
  }

  lemma GoodUp(threads: Threads, cur: Tid, idle: Tid, ready: seq<Tid>, semas: Semas, holder: Holders, s: Sema)
    requires Good(threads, cur, idle, ready, semas, holder)
    requires s in semas && (s in holder ==> threads[cur].pc == Given(s))
    ensures Good(threads[cur := GaveValue(holder, s, threads[cur])], cur, idle, ready, semas[s := Raised(semas[s])], holder)
  {
    UpGiven(threads, idle, semas, holder, s, cur);
    ReadyKept(threads, cur, idle, ready, cur, GaveValue(holder, s, threads[cur]));
  }

  /** The running thread names itself the holder or clears the holder. */
  lemma GoodHolder(threads: Threads, cur: Tid, idle: Tid, ready: seq<Tid>, semas: Semas, holder: Holders, l: Sema)
    requires Good(threads, cur, idle, ready, semas, holder) && l in holder
    ensures threads[cur].pc == Taken(l) ==>
              Good(threads[cur := threads[cur].(pc := Outside)], cur, idle, ready, semas, holder[l := Some(cur)])
    ensures threads[cur].pc == Outside && holder[l] == Some(cur) ==>
              Good(threads[cur := threads[cur].(pc := Given(l))], cur, idle, ready, semas, holder[l := None])
  {
    if threads[cur].pc == Taken(l) {
      CrossingKept(threads, idle, semas, holder, l, Some(cur), cur, Outside);
    } else if threads[cur].pc == Outside && holder[l] == Some(cur) {
      CrossingKept(threads, idle, semas, holder, l, None, cur, Given(l));
    }
  }

  /** A change of priority, or of program counter outside the locks for a thread that does not wait. */
  lemma GoodChange(threads: Threads, cur: Tid, idle: Tid, ready: seq<Tid>, semas: Semas, holder: Holders, t: Tid, thread: Thread)
    requires Good(threads, cur, idle, ready, semas, holder) && t in threads
    requires thread.status == threads[t].status && thread.priority >= PRI_MIN
    requires thread.pc == threads[t].pc || (thread.status == Ready && thread.pc == Outside && !Crossing(threads[t].pc))
    ensures Good(threads[t := thread], cur, idle, ready, semas, holder)
  {
    forall s | s in semas && t in semas[s].waiters
      ensures Waits(threads[t := thread], idle, s, t)
    {
      assert WaitersOk(threads, idle, s, semas[s].waiters);
      assert Waits(threads, idle, s, t);
    }
    SyncKept(threads, t, thread, idle, semas, holder);
    ReadyKept(threads, cur, idle, ready, t, thread);
  }

  // ---- steps and runs ----

  datatype Step =
    | DownAgain
    | Down(s: Sema)
    | TryDown(s: Sema)
    | Up(s: Sema)
    | Name
    | Clear(l: Sema)
    | Preempt
    | Sleep
    | Wake(t: Tid)
    | Spawn(t: Tid, priority: int)
    | Quit
    | Reprioritize(t: Tid, priority: int)
    | NewSema(s: Sema, value: nat)
    | NewLock(l: Sema)

  /** What may happen next. Inside sema_down interrupts are off, and only its loop can go on. */
  predicate Enabled(threads: Threads, cur: Tid, idle: Tid, semas: Semas, holder: Holders, step: Step) {
    cur in threads &&
    var pc := threads[cur].pc;
    match step
    case DownAgain => cur != idle && pc.InDown? && pc.sema in semas
    case Down(s) => cur != idle && pc == Outside && s in semas && (s in holder ==> holder[s] != Some(cur))
    case TryDown(s) => cur != idle && pc == Outside && s in semas && (s in holder ==> holder[s] != Some(cur))
    case Up(s) => !pc.InDown? && s in semas && (s in holder ==> pc == Given(s))
    case Name => pc.Taken? && pc.lock in holder
    case Clear(l) => pc == Outside && l in holder && holder[l] == Some(cur)
    case Preempt => !pc.InDown?
    case Sleep => pc == Outside
    case Wake(t) => !pc.InDown? && t in threads && t != idle && threads[t].status == Blocked && threads[t].pc == Asleep
    case Spawn(t, p) => !pc.InDown? && t !in threads && p >= PRI_MIN
    case Quit => cur != idle && pc == Outside
    case Reprioritize(t, p) => !pc.InDown? && t in threads && p >= PRI_MIN
    case NewSema(s, value) => !pc.InDown? && s !in semas
    case NewLock(l) => !pc.InDown? && l !in semas
  }

  /**
   * All of the kernel's state. A thread is stranded from when it looks at its semaphore again and finds no value, so
   * that it waits without a place on the list.
   */
  datatype State = State(threads: Threads, cur: Tid, ready: seq<Tid>, semas: Semas, holder: Holders, stranded: set<Tid>)

  ghost predicate CanStep(idle: Tid, a: State, step: Step) {
    Enabled(a.threads, a.cur, idle, a.semas, a.holder, step)
  }

  /** The running thread becomes `thread` and gives the processor to the front of the ready list. */
  ghost predicate HandsOver(idle: Tid, a: State, thread: Thread, ready: seq<Tid>, b: State) {
    && b.cur == Next(idle, ready) && b.ready == Rest(ready) && b.cur in a.threads
    && b.threads == HandOver(a.threads, a.cur, thread, b.cur)
  }

  /** A blocked thread becomes `thread`, ready and in its place on the ready list. */
  ghost predicate Readied(threads: Threads, ready: seq<Tid>, t: Tid, ready': seq<Tid>) {
    exists i: nat :: BeforeEquals(threads, ready, i, t) && ready' == InsertAt(ready, i, t)
  }

  ghost predicate TookValue(a: State, s: Sema, b: State)
    requires a.cur in a.threads && s in a.semas && a.semas[s].value > 0
  {
    b == a.(semas := a.semas[s := Semaphore(a.semas[s].value - 1, a.semas[s].waiters)],
            threads := a.threads[a.cur := a.threads[a.cur].(pc := AfterDown(a.holder, s))])
  }

  /** The first of the highest waiters leaves the list of s and becomes ready, and the value goes up. */
  ghost predicate GaveValueTo(a: State, s: Sema, k: nat, b: State)
    requires a.cur in a.threads && s in a.semas && k < |a.semas[s].waiters|
  {
    var t := a.semas[s].waiters[k];
    && FirstHighest(a.threads, a.semas[s].waiters, k) && Readied(a.threads, a.ready, t, b.ready)
    && b.semas == a.semas[s := Semaphore(a.semas[s].value + 1, RemoveAt(a.semas[s].waiters, k))]
    && b.threads == Awoken(a.threads, Some(t))[a.cur := GaveValue(a.holder, s, a.threads[a.cur])]
  }

  /** Position i is behind the threads that are not below the running one. */
  ghost predicate BehindEquals(threads: Threads, ready: seq<Tid>, i: nat, t: Tid) {
    && t in threads && i <= |ready| && (forall u :: u in ready ==> u in threads)
    && (forall k :: 0 <= k < i ==> threads[ready[k]].priority >= threads[t].priority)
    && (i < |ready| ==> threads[ready[i]].priority < threads[t].priority)
  }

  /** What each step does, exactly. */
  ghost predicate Stepped(idle: Tid, a: State, step: Step, b: State)
    requires CanStep(idle, a, step)
  {
    var me := a.threads[a.cur];
    match step
    case DownAgain =>
      if a.semas[me.pc.sema].value > 0 then TookValue(a, me.pc.sema, b)
      else
        && HandsOver(idle, a, me.(status := Blocked), a.ready, b)
        && b.semas == a.semas && b.holder == a.holder && b.stranded == a.stranded + {a.cur}
    case Down(s) =>
      if a.semas[s].value > 0 then TookValue(a, s, b)
      else
        && HandsOver(idle, a, me.(status := Blocked, pc := InDown(s)), a.ready, b)
        && b.semas == a.semas[s := Semaphore(0, a.semas[s].waiters + [a.cur])]
        && b.holder == a.holder && b.stranded == a.stranded
    case TryDown(s) => if a.semas[s].value > 0 then TookValue(a, s, b) else b == a
    case Up(s) =>
      if a.semas[s].waiters == [] then
        b == a.(semas := a.semas[s := Raised(a.semas[s])], threads := a.threads[a.cur := GaveValue(a.holder, s, me)])
      else
        && b.cur == a.cur && b.holder == a.holder && b.stranded == a.stranded
        && exists k: nat :: k < |a.semas[s].waiters| && GaveValueTo(a, s, k, b)
    case Name =>
      b == a.(threads := a.threads[a.cur := me.(pc := Outside)], holder := a.holder[me.pc.lock := Some(a.cur)])
    case Clear(l) => b == a.(threads := a.threads[a.cur := me.(pc := Given(l))], holder := a.holder[l := None])
    case Preempt =>
      && b == a.(threads := b.threads, cur := b.cur, ready := b.ready)
      && exists i: nat :: BehindEquals(a.threads, a.ready, i, a.cur)
                          && HandsOver(idle, a, me.(status := Ready), Aside(a.ready, a.cur, idle, i), b)
    case Sleep =>
      && b == a.(threads := b.threads, cur := b.cur, ready := b.ready)
      && HandsOver(idle, a, me.(status := Blocked, pc := if a.cur == idle then Outside else Asleep), a.ready, b)
    case Wake(t) =>
      && b == a.(threads := a.threads[t := a.threads[t].(status := Ready, pc := Outside)], ready := b.ready)
      && Readied(b.threads, a.ready, t, b.ready)
    case Spawn(t, p) =>
      && b == a.(threads := a.threads[t := Thread(Ready, Outside, p)], ready := b.ready)
      && Readied(b.threads, a.ready, t, b.ready)
    case Quit =>
      && b == a.(threads := b.threads, cur := b.cur, ready := b.ready)
      && HandsOver(idle, a, me.(status := Dying), a.ready, b)
    case Reprioritize(t, p) => b == a.(threads := a.threads[t := a.threads[t].(priority := p)])
    case NewSema(s, value) => b == a.(semas := a.semas[s := Semaphore(value, [])])
    case NewLock(l) => b == a.(semas := a.semas[l := Semaphore(1, [])], holder := a.holder[l := None])
  }

  /** A step that cannot happen is passed over. */
  ghost predicate Moves(idle: Tid, a: State, step: Step, b: State) {
    if CanStep(idle, a, step) then Stepped(idle, a, step, b) else b == a
  }

  ghost predicate IsRun(idle: Tid, trace: seq<State>, steps: seq<Step>) {
    |trace| == |steps| + 1 && forall i :: 0 <= i < |steps| ==> Moves(idle, trace[i], steps[i], trace[i + 1])
  }

  ghost predicate InSemaDown(threads: Threads, t: Tid) {
    t in threads && threads[t].status == Blocked && threads[t].pc.InDown?
  }

  /** A thread that is blocked in sema_down has its place on the list if and only if it is not stranded. */
  ghost predicate StrandedOk(threads: Threads, idle: Tid, semas: Semas, stranded: set<Tid>) {
    && idle in threads && !threads[idle].pc.InDown?
    && (forall t :: t in stranded ==> InSemaDown(threads, t))
    && (forall t {:trigger InSemaDown(threads, t)} :: InSemaDown(threads, t) ==>
          threads[t].pc.sema in semas && (t in semas[threads[t].pc.sema].waiters <==> t !in stranded))
  }

  ghost predicate StateGood(idle: Tid, a: State) {
    && Good(a.threads, a.cur, idle, a.ready, a.semas, a.holder) && StrandedOk(a.threads, idle, a.semas, a.stranded)
  }

  ghost predicate AllGood(idle: Tid, trace: seq<State>) {
    forall i :: 0 <= i < |trace| ==> StateGood(idle, trace[i])
  }

  lemma RunNext(idle: Tid, trace: seq<State>, steps: seq<Step>, i: nat, b: State)
    requires i < |steps| && IsRun(idle, trace, steps[..i]) && AllGood(idle, trace)
    requires Moves(idle, trace[i], steps[i], b) && StateGood(idle, b)
    ensures IsRun(idle, trace + [b], steps[..i + 1]) && AllGood(idle, trace + [b])
  {
    hide Moves, StateGood;
  }

  /** Stranded threads stay where they are. */
  ghost predicate Unmoved(threads: Threads, threads': Threads, stranded: set<Tid>) {
    forall t :: t in stranded ==> t in threads && t in threads' && threads'[t].pc == threads[t].pc
  }

  /** A thread that is not blocked in sema_down changes, and still is not. */
  lemma OneElsewhere(threads: Threads, idle: Tid, semas: Semas, stranded: set<Tid>, t: Tid, thread: Thread)
    requires StrandedOk(threads, idle, semas, stranded) && !InSemaDown(threads, t)
    requires (thread.status != Blocked && t != idle) || !thread.pc.InDown?
    ensures StrandedOk(threads[t := thread], idle, semas, stranded) && Unmoved(threads, threads[t := thread], stranded)
  {
    var threads' := threads[t := thread];
    assert t in stranded ==> InSemaDown(threads, t);
    forall u | u in stranded
      ensures InSemaDown(threads', u) && u in threads && threads'[u] == threads[u]
    {
      assert InSemaDown(threads, u);
    }
    forall u | InSemaDown(threads', u)
      ensures threads'[u].pc.sema in semas && (u in semas[threads'[u].pc.sema].waiters <==> u !in stranded)
    {
      assert InSemaDown(threads, u) && u != t;
    }
  }

  /** Wait lists that stay as they are. */
  lemma SameLists(threads: Threads, idle: Tid, semas: Semas, semas': Semas, stranded: set<Tid>)
    requires StrandedOk(threads, idle, semas, stranded)
    requires forall s :: s in semas ==> s in semas' && semas'[s].waiters == semas[s].waiters
    ensures StrandedOk(threads, idle, semas', stranded)
  {
  }

  /** A thread blocks in sema_down: with a place on the list, or stranded. */
  lemma OneBlocks(threads: Threads, idle: Tid, semas: Semas, stranded: set<Tid>, t: Tid, thread: Thread, s: Sema, value: nat)
    requires StrandedOk(threads, idle, semas, stranded) && !InSemaDown(threads, t) && s in semas && t !in semas[s].waiters
    requires thread.status == Blocked && thread.pc == InDown(s) && t != idle
    ensures StrandedOk(threads[t := thread], idle, semas, stranded + {t})
    ensures StrandedOk(threads[t := thread], idle, semas[s := Semaphore(value, semas[s].waiters + [t])], stranded)
    ensures Unmoved(threads, threads[t := thread], stranded)
  {
    var threads' := threads[t := thread];
    assert t in stranded ==> InSemaDown(threads, t);
    forall u | u in stranded
      ensures InSemaDown(threads', u) && u in threads && threads'[u] == threads[u]
    {
      assert InSemaDown(threads, u);
    }
    forall u | InSemaDown(threads', u)
      ensures u == t || (InSemaDown(threads, u) && threads'[u] == threads[u])
    {
    }
    assert InSemaDown(threads', t);
  }

  /** A waiter leaves its list and is blocked no more. */
  lemma OneLeaves(threads: Threads, idle: Tid, semas: Semas, stranded: set<Tid>, s: Sema, k: nat, value: nat)
    requires StrandedOk(threads, idle, semas, stranded) && s in semas && k < |semas[s].waiters| && Distinct(semas[s].waiters)
    requires InSemaDown(threads, semas[s].waiters[k]) && threads[semas[s].waiters[k]].pc == InDown(s)
    ensures var threads' := Awoken(threads, Some(semas[s].waiters[k]));
            && StrandedOk(threads', idle, semas[s := Semaphore(value, RemoveAt(semas[s].waiters, k))], stranded)
            && Unmoved(threads, threads', stranded)
  {
    var t, waiters := semas[s].waiters[k], semas[s].waiters;
    var threads', semas' := Awoken(threads, Some(t)), semas[s := Semaphore(value, RemoveAt(waiters, k))];
    RemoveAtDistinct(waiters, k);
    forall u | u in stranded
      ensures InSemaDown(threads', u) && u in threads && threads'[u] == threads[u]
    {
      assert InSemaDown(threads, u);
    }
    forall u | InSemaDown(threads', u)
      ensures threads'[u].pc.sema in semas' && (u in semas'[threads'[u].pc.sema].waiters <==> u !in stranded)
    {
      assert InSemaDown(threads, u) && u != t;
      assert u in RemoveAt(waiters, k) <==> u in waiters;
    }
  }

  /** The next thread to run. */
  lemma OneRuns(threads: Threads, idle: Tid, semas: Semas, stranded: set<Tid>, t: Tid, thread: Thread, next: Tid)
    requires next in threads[t := thread] && StrandedOk(threads[t := thread], idle, semas, stranded)
    requires !InSemaDown(threads[t := thread], next)
    ensures StrandedOk(HandOver(threads, t, thread, next), idle, semas, stranded)
    ensures Unmoved(threads[t := thread], HandOver(threads, t, thread, next), stranded)
  {
    var after := threads[t := thread];
    OneElsewhere(after, idle, semas, stranded, next, after[next].(status := Running));
  }

  /** Whoever is on the ready list, and the idle thread, is not blocked in sema_down. */
  lemma NextIsFree(idle: Tid, a: State, thread: Thread, ready: seq<Tid>, b: State)
    requires StateGood(idle, a) && HandsOver(idle, a, thread, ready, b)
    requires a.cur == idle ==> !thread.pc.InDown?
    requires forall t :: t in ready ==> t in a.ready || (t == a.cur && thread.status != Blocked)
    ensures !InSemaDown(a.threads, a.cur) && !InSemaDown(a.threads[a.cur := thread], b.cur)
  {
    if b.cur != idle {
      assert b.cur in ready;
    }
  }

  /** The running thread stops elsewhere than in sema_down. */
  lemma HandOverElsewhere(idle: Tid, a: State, thread: Thread, ready: seq<Tid>, b: State)
    requires StateGood(idle, a) && HandsOver(idle, a, thread, ready, b)
    requires (thread.status != Blocked && a.cur != idle) || !thread.pc.InDown?
    requires forall t :: t in ready ==> t in a.ready || (t == a.cur && thread.status != Blocked)
    ensures StrandedOk(b.threads, idle, a.semas, a.stranded) && Unmoved(a.threads, b.threads, a.stranded)
  {
    hide ReadyOk, SyncOk, PcsOk;
    NextIsFree(idle, a, thread, ready, b);
    hide InSemaDown, StrandedOk;
    OneElsewhere(a.threads, idle, a.semas, a.stranded, a.cur, thread);
    OneRuns(a.threads, idle, a.semas, a.stranded, a.cur, thread, b.cur);
  }

  /** The running thread blocks in sema_down on s, with a place on the list or stranded. */
  lemma HandOverBlocked(idle: Tid, a: State, thread: Thread, s: Sema, value: nat, b: State)
    requires StateGood(idle, a) && HandsOver(idle, a, thread, a.ready, b) && a.cur != idle && s in a.semas
    requires thread.status == Blocked && thread.pc == InDown(s)
    ensures Unmoved(a.threads, b.threads, a.stranded)
    ensures StrandedOk(b.threads, idle, a.semas, a.stranded + {a.cur})
    ensures StrandedOk(b.threads, idle, a.semas[s := Semaphore(value, a.semas[s].waiters + [a.cur])], a.stranded)
  {
    NotWaiting(a.threads, idle, a.semas, a.holder, a.cur);
    NextIsFree(idle, a, thread, a.ready, b);
    hide ReadyOk, SyncOk, PcsOk, InSemaDown, StrandedOk;
    var semas' := a.semas[s := Semaphore(value, a.semas[s].waiters + [a.cur])];
    OneBlocks(a.threads, idle, a.semas, a.stranded, a.cur, thread, s, value);
    OneRuns(a.threads, idle, a.semas, a.stranded + {a.cur}, a.cur, thread, b.cur);
    OneRuns(a.threads, idle, semas', a.stranded, a.cur, thread, b.cur);
  }

  /** A value taken or given back by the running thread. */
  lemma ValueMoved(idle: Tid, a: State, thread: Thread, s: Sema, value: nat)
    requires StateGood(idle, a) && s in a.semas && thread.status == a.threads[a.cur].status
    requires a.cur == idle ==> !thread.pc.InDown?
    ensures var threads' := a.threads[a.cur := thread];
            && StrandedOk(threads', idle, a.semas[s := Semaphore(value, a.semas[s].waiters)], a.stranded)
            && Unmoved(a.threads, threads', a.stranded)
  {
    OneElsewhere(a.threads, idle, a.semas, a.stranded, a.cur, thread);
    SameLists(a.threads[a.cur := thread], idle, a.semas, a.semas[s := Semaphore(value, a.semas[s].waiters)], a.stranded);
  }

  /** sema_up with a waiter. */
  lemma ValueGiven(idle: Tid, a: State, s: Sema, k: nat, b: State)
    requires StateGood(idle, a) && s in a.semas && k < |a.semas[s].waiters| && GaveValueTo(a, s, k, b)
    requires a.cur == idle ==> !a.threads[a.cur].pc.InDown?
    ensures StrandedOk(b.threads, idle, b.semas, a.stranded) && Unmoved(a.threads, b.threads, a.stranded)
  {
    var t := a.semas[s].waiters[k];
    assert WaitersOk(a.threads, idle, s, a.semas[s].waiters);
    assert Waits(a.threads, idle, s, t) && InSemaDown(a.threads, t);
    OneLeaves(a.threads, idle, a.semas, a.stranded, s, k, a.semas[s].value + 1);
    var awoken := Awoken(a.threads, Some(t));
    OneElsewhere(awoken, idle, b.semas, a.stranded, a.cur, GaveValue(a.holder, s, a.threads[a.cur]));
  }

  /** A change of priority. */
  lemma PriorityMoved(idle: Tid, a: State, t: Tid, p: int)
    requires StateGood(idle, a) && t in a.threads
    ensures var threads' := a.threads[t := a.threads[t].(priority := p)];
            StrandedOk(threads', idle, a.semas, a.stranded) && Unmoved(a.threads, threads', a.stranded)
  {
    var threads' := a.threads[t := a.threads[t].(priority := p)];
    forall u
      ensures InSemaDown(threads', u) <==> InSemaDown(a.threads, u)
    {
    }
  }

  /** No step moves a stranded thread, and only a second look at a semaphore without value strands one. */
  lemma StrandedKept(idle: Tid, a: State, step: Step, b: State)
    requires StateGood(idle, a) && CanStep(idle, a, step) && Stepped(idle, a, step, b)
    ensures StrandedOk(b.threads, idle, b.semas, b.stranded)
    ensures a.stranded <= b.stranded && Unmoved(a.threads, b.threads, a.stranded)
  {
    hide ReadyOk, SyncOk, PcsOk, StrandedOk, Unmoved, FirstHighest, BeforeEquals, HandsOver, GaveValueTo;
    RunningIsFree(idle, a);
    var me := a.threads[a.cur];
    match step
    case DownAgain => KeptByDown(idle, a, step, me.pc.sema, b);
    case Down(s) => KeptByDown(idle, a, step, s, b);
    case TryDown(s) => KeptByDown(idle, a, step, s, b);
    case Up(s) => KeptByUp(idle, a, s, b);
    case Name => OneElsewhere(a.threads, idle, a.semas, a.stranded, a.cur, me.(pc := Outside));
    case Clear(l) => OneElsewhere(a.threads, idle, a.semas, a.stranded, a.cur, me.(pc := Given(l)));
    case Preempt => KeptByPreempt(idle, a, b);
    case Sleep =>
      HandOverElsewhere(idle, a, me.(status := Blocked, pc := if a.cur == idle then Outside else Asleep), a.ready, b);
    case Wake(t) => OneElsewhere(a.threads, idle, a.semas, a.stranded, t, a.threads[t].(status := Ready, pc := Outside));
    case Spawn(t, p) => OneElsewhere(a.threads, idle, a.semas, a.stranded, t, Thread(Ready, Outside, p));
    case Quit => HandOverElsewhere(idle, a, me.(status := Dying), a.ready, b);
    case Reprioritize(t, p) => PriorityMoved(idle, a, t, p);
    case NewSema(s, value) => KeptByNew(idle, a, s, value);
    case NewLock(l) => KeptByNew(idle, a, l, 1);
  }

  lemma KeptByDown(idle: Tid, a: State, step: Step, s: Sema, b: State)
    requires StateGood(idle, a) && CanStep(idle, a, step) && Stepped(idle, a, step, b)
    requires (step == DownAgain && a.threads[a.cur].pc == InDown(s)) || step == Down(s) || step == TryDown(s)
    ensures StrandedOk(b.threads, idle, b.semas, b.stranded)
    ensures a.stranded <= b.stranded && Unmoved(a.threads, b.threads, a.stranded)
  {
    var me, value := a.threads[a.cur], a.semas[s].value;
    hide ReadyOk, SyncOk, PcsOk;
    if value > 0 {
      ValueMoved(idle, a, me.(pc := AfterDown(a.holder, s)), s, value - 1);
    } else if step.TryDown? {
      assert forall t :: t in a.stranded ==> InSemaDown(a.threads, t);
    } else {
      HandOverBlocked(idle, a, me.(status := Blocked, pc := InDown(s)), s, 0, b);
    }
  }

  lemma KeptByUp(idle: Tid, a: State, s: Sema, b: State)
    requires StateGood(idle, a) && CanStep(idle, a, Up(s)) && Stepped(idle, a, Up(s), b)
    ensures StrandedOk(b.threads, idle, b.semas, b.stranded)
    ensures a.stranded <= b.stranded && Unmoved(a.threads, b.threads, a.stranded)
  {
    hide ReadyOk, SyncOk, PcsOk, StrandedOk, Unmoved;
    if a.semas[s].waiters == [] {
      ValueMoved(idle, a, GaveValue(a.holder, s, a.threads[a.cur]), s, a.semas[s].value + 1);
    } else {
      var k: nat :| k < |a.semas[s].waiters| && GaveValueTo(a, s, k, b);
      ValueGiven(idle, a, s, k, b);
    }
  }

  lemma KeptByPreempt(idle: Tid, a: State, b: State)
    requires StateGood(idle, a) && CanStep(idle, a, Preempt) && Stepped(idle, a, Preempt, b)
    ensures StrandedOk(b.threads, idle, b.semas, b.stranded)
    ensures a.stranded <= b.stranded && Unmoved(a.threads, b.threads, a.stranded)
  {
    hide ReadyOk, SyncOk, PcsOk, StrandedOk, Unmoved;
    var me := a.threads[a.cur].(status := Ready);
    var i: nat :| BehindEquals(a.threads, a.ready, i, a.cur) && HandsOver(idle, a, me, Aside(a.ready, a.cur, idle, i), b);
    HandOverElsewhere(idle, a, me, Aside(a.ready, a.cur, idle, i), b);
  }

  lemma KeptByNew(idle: Tid, a: State, s: Sema, value: nat)
    requires StateGood(idle, a) && s !in a.semas
    ensures StrandedOk(a.threads, idle, a.semas[s := Semaphore(value, [])], a.stranded)
    ensures Unmoved(a.threads, a.threads, a.stranded)
  {
    assert forall t :: t in a.stranded ==> InSemaDown(a.threads, t);
    SameLists(a.threads, idle, a.semas, a.semas[s := Semaphore(value, [])], a.stranded);
  }

  /** In every run, a thread that is stranded once is blocked in the same sema_down, off every list, ever after. */
  lemma {:induction false} StrandedForever(idle: Tid, trace: seq<State>, steps: seq<Step>, i: nat, j: nat, t: Tid)
    requires IsRun(idle, trace, steps) && AllGood(idle, trace) && i <= j < |trace| && t in trace[i].stranded
    ensures t in trace[j].stranded && InSemaDown(trace[i].threads, t) && InSemaDown(trace[j].threads, t)
    ensures t in trace[i].threads && t in trace[j].threads && trace[j].threads[t].pc == trace[i].threads[t].pc
    ensures t !in trace[j].ready && forall s :: s in trace[j].semas ==> t !in trace[j].semas[s].waiters
    decreases j
  {
    hide StateGood, Moves, InSemaDown;
    OffTheLists(idle, trace[i], t);
    if i < j {
      StrandedForever(idle, trace, steps, i, j - 1, t);
      StrandedNext(idle, trace[j - 1], steps[j - 1], trace[j], t);
      OffTheLists(idle, trace[j], t);
    }
  }

  lemma StrandedNext(idle: Tid, a: State, step: Step, b: State, t: Tid)
    requires StateGood(idle, a) && Moves(idle, a, step, b) && t in a.stranded
    ensures t in b.stranded && t in a.threads && t in b.threads && b.threads[t].pc == a.threads[t].pc
  {
    hide Good, Stepped, StrandedOk;
    OffTheLists(idle, a, t);
    if CanStep(idle, a, step) {
      StrandedKept(idle, a, step, b);
    }
  }

  lemma OffTheLists(idle: Tid, a: State, t: Tid)
    requires StateGood(idle, a) && t in a.stranded
    ensures InSemaDown(a.threads, t) && t in a.threads
    ensures t !in a.ready && forall s :: s in a.semas ==> t !in a.semas[s].waiters
  {
    assert InSemaDown(a.threads, t);
    forall s | s in a.semas
      ensures t !in a.semas[s].waiters
    {
      assert WaitersOk(a.threads, idle, s, a.semas[s].waiters);
      assert t in a.semas[s].waiters ==> Waits(a.threads, idle, s, t);
    }
  }

  /** In every run, a thread becomes stranded exactly when it looks again and finds no value. */
  lemma StrandedWhen(idle: Tid, trace: seq<State>, steps: seq<Step>, i: nat, t: Tid)
    requires IsRun(idle, trace, steps) && AllGood(idle, trace) && i < |steps|
    ensures t in trace[i + 1].stranded && t !in trace[i].stranded <==>
              && CanStep(idle, trace[i], steps[i]) && steps[i] == DownAgain && t == trace[i].cur
              && trace[i].semas[trace[i].threads[t].pc.sema].value == 0
  {
    hide StateGood, HandsOver, Readied, GaveValueTo, BehindEquals;
    RunningIsFree(idle, trace[i]);
    assert Moves(idle, trace[i], steps[i], trace[i + 1]);
  }

  /** The running thread is not blocked, so it is not stranded. */
  lemma RunningIsFree(idle: Tid, a: State)
    requires StateGood(idle, a)
    ensures a.cur in a.threads && a.threads[a.cur].status == Running && !InSemaDown(a.threads, a.cur) && a.cur !in a.stranded
  {
    assert a.cur in a.stranded ==> InSemaDown(a.threads, a.cur);
  }

  // ---- the order of the ready list ----

  ghost predicate SamePriorities(a: Threads, b: Threads) {
    forall t :: t in a ==> t in b && b[t].priority == a[t].priority
  }

  /** No thread on the list is above t. */
  ghost predicate NoneAbove(threads: Threads, ready: seq<Tid>, t: Tid) {
    t in threads && forall u :: u in ready ==> u in threads && threads[u].priority <= threads[t].priority
  }

  lemma SameOrder(a: Threads, b: Threads, ready: seq<Tid>)
    requires Descending(a, ready) && SamePriorities(a, b)
    ensures Descending(b, ready)
  {
  }

  lemma ReadiedOrder(threads: Threads, ready: seq<Tid>, t: Tid, ready': seq<Tid>)
    requires Descending(threads, ready) && Readied(threads, ready, t, ready')
    ensures Descending(threads, ready')
  {
    var i: nat :| BeforeEquals(threads, ready, i, t) && ready' == InsertAt(ready, i, t);
    InsertDescending(threads, ready, i, t);
  }

  /** The front of an ordered list runs next. */
  lemma HandsOverOrder(idle: Tid, a: State, thread: Thread, ready: seq<Tid>, b: State)
    requires HandsOver(idle, a, thread, ready, b) && a.cur in a.threads && thread.priority == a.threads[a.cur].priority
    requires Descending(a.threads, ready)
    ensures Descending(b.threads, b.ready) && NoneAbove(b.threads, b.ready, b.cur)
  {
    assert SamePriorities(a.threads, b.threads);
    FrontIsHighest(a.threads, ready, b.threads);
    assert forall t :: t in b.ready ==> t in ready;
  }

  lemma UpOrder(idle: Tid, a: State, s: Sema, b: State)
    requires CanStep(idle, a, Up(s)) && Stepped(idle, a, Up(s), b) && Descending(a.threads, a.ready)
    ensures Descending(b.threads, b.ready) && b.cur == a.cur
  {
    hide FirstHighest, Readied, Descending;
    assert SamePriorities(a.threads, b.threads);
    if a.semas[s].waiters == [] {
      SameOrder(a.threads, b.threads, a.ready);
    } else {
      var k: nat :| k < |a.semas[s].waiters| && GaveValueTo(a, s, k, b);
      ReadiedOrder(a.threads, a.ready, a.semas[s].waiters[k], b.ready);
      SameOrder(a.threads, b.threads, b.ready);
    }
  }

  lemma PreemptOrder(idle: Tid, a: State, b: State)
    requires CanStep(idle, a, Preempt) && Stepped(idle, a, Preempt, b) && Descending(a.threads, a.ready)
    ensures Descending(b.threads, b.ready) && NoneAbove(b.threads, b.ready, b.cur)
  {
    var me := a.threads[a.cur].(status := Ready);
    var i: nat :| BehindEquals(a.threads, a.ready, i, a.cur) && HandsOver(idle, a, me, Aside(a.ready, a.cur, idle, i), b);
    AsideDescending(a.threads, a.ready, a.cur, idle, i, me);
    hide InsertAt, Descending, NoneAbove;
    SameOrder(a.threads[a.cur := me], a.threads, Aside(a.ready, a.cur, idle, i));
    HandsOverOrder(idle, a, me, Aside(a.ready, a.cur, idle, i), b);
  }

  lemma ArrivalOrder(a: State, t: Tid, thread: Thread, ready: seq<Tid>)
    requires Descending(a.threads, a.ready) && (t in a.threads ==> thread.priority == a.threads[t].priority)
    requires Readied(a.threads[t := thread], a.ready, t, ready)
    ensures Descending(a.threads[t := thread], ready)
  {
    hide Readied;
    SameOrder(a.threads, a.threads[t := thread], a.ready);
    ReadiedOrder(a.threads[t := thread], a.ready, t, ready);
  }

  /**
   * Every step keeps the ready list in order, but for a change of the priority of a thread on it; and from an ordered
   * list no thread gets the processor while one of higher priority is ready.
   */
  lemma OrderKept(idle: Tid, a: State, step: Step, b: State)
    requires CanStep(idle, a, step) && Stepped(idle, a, step, b) && Descending(a.threads, a.ready)
    requires step.Reprioritize? ==> step.t !in a.ready
    ensures Descending(b.threads, b.ready)
    ensures b.cur != a.cur || step.Preempt? ==> NoneAbove(b.threads, b.ready, b.cur)
  {
    hide Descending, NoneAbove, HandsOver, Readied, GaveValueTo, BehindEquals;
    var me := a.threads[a.cur];
    match step
    case DownAgain => DownOrder(idle, a, step, me.pc.sema, b);
    case Down(s) => DownOrder(idle, a, step, s, b);
    case TryDown(s) => DownOrder(idle, a, step, s, b);
    case Up(s) => UpOrder(idle, a, s, b);
    case Name => SameOrder(a.threads, b.threads, a.ready);
    case Clear(l) => SameOrder(a.threads, b.threads, a.ready);
    case Preempt => PreemptOrder(idle, a, b);
    case Sleep =>
      HandsOverOrder(idle, a, me.(status := Blocked, pc := if a.cur == idle then Outside else Asleep), a.ready, b);
    case Wake(t) => ArrivalOrder(a, t, a.threads[t].(status := Ready, pc := Outside), b.ready);
    case Spawn(t, p) => ArrivalOrder(a, t, Thread(Ready, Outside, p), b.ready);
    case Quit => HandsOverOrder(idle, a, me.(status := Dying), a.ready, b);
    case Reprioritize(t, p) => OthersOrder(a.threads, a.ready, t, a.threads[t].(priority := p));
    case NewSema(s, value) =>
    case NewLock(l) =>
  }

  lemma OthersOrder(threads: Threads, ready: seq<Tid>, t: Tid, thread: Thread)
    requires Descending(threads, ready) && t !in ready
    ensures Descending(threads[t := thread], ready)
  {
  }

  /** A new priority of a thread on the list, which keeps its place, leaves the list ordered if and only if it still
      lies between its neighbours'. */
  lemma ReorderedWhen(idle: Tid, a: State, i: nat, p: int, b: State)
    requires i < |a.ready| && Distinct(a.ready) && Descending(a.threads, a.ready)
    requires CanStep(idle, a, Reprioritize(a.ready[i], p)) && Stepped(idle, a, Reprioritize(a.ready[i], p), b)
    ensures Descending(b.threads, b.ready) <==>
              && (i > 0 ==> a.threads[a.ready[i - 1]].priority >= p)
              && (i + 1 < |a.ready| ==> p >= a.threads[a.ready[i + 1]].priority)
  {
    assert forall k :: 0 <= k < |a.ready| && k != i ==> b.threads[a.ready[k]] == a.threads[a.ready[k]];
    assert b.threads[a.ready[i]].priority == p;
  }

  /** A donation to the second of two ready threads: the first, of lower priority now, runs next. */
  lemma LowerRunsFirst(a: State, b: State, c: State)
    requires a == State(map[0 := Thread(Running, Outside, 31), 1 := Thread(Ready, Outside, 31),
                            2 := Thread(Ready, Outside, 31), 3 := Thread(Blocked, Outside, 0)], 0, [1, 2], map[], map[], {})
    requires CanStep(3, a, Reprioritize(2, 40)) && Stepped(3, a, Reprioritize(2, 40), b)
    requires CanStep(3, b, Preempt) && Stepped(3, b, Preempt, c)
    ensures Descending(a.threads, a.ready) && !Descending(b.threads, b.ready)
    ensures c.cur == 1 && 2 in c.ready && c.threads[2].priority == 40 > c.threads[c.cur].priority
  {
    assert b.ready == [1, 2] && b.threads[b.ready[0]].priority == 31 && b.threads[b.ready[1]].priority == 40;
    var me := b.threads[0].(status := Ready);
    var i: nat :| BehindEquals(b.threads, b.ready, i, 0) && HandsOver(3, b, me, Aside(b.ready, 0, 3, i), c);
    assert i == 2;
    assert Aside(b.ready, 0, 3, i) == [1, 2, 0];
    assert Rest([1, 2, 0]) == [2, 0] && c.ready[0] == 2;
  }

  lemma DownOrder(idle: Tid, a: State, step: Step, s: Sema, b: State)
    requires CanStep(idle, a, step) && Stepped(idle, a, step, b) && Descending(a.threads, a.ready)
    requires (step == DownAgain && a.threads[a.cur].pc == InDown(s)) || step == Down(s) || step == TryDown(s)
    ensures Descending(b.threads, b.ready) && (b.cur != a.cur ==> NoneAbove(b.threads, b.ready, b.cur))
  {
    hide Descending, NoneAbove, HandsOver;
    if a.semas[s].value > 0 {
      SameOrder(a.threads, b.threads, a.ready);
    } else if !step.TryDown? {
      HandsOverOrder(idle, a, a.threads[a.cur].(status := Blocked, pc := InDown(s)), a.ready, b);
    }
  }

  /** In every run that changes no priority, the ready list stays ordered and the highest thread is always chosen. */
  lemma {:induction false} RunOrder(idle: Tid, trace: seq<State>, steps: seq<Step>, i: nat)
    requires IsRun(idle, trace, steps) && i < |trace| && Descending(trace[0].threads, trace[0].ready)
    requires forall k :: 0 <= k < |steps| ==> !steps[k].Reprioritize?
    ensures Descending(trace[i].threads, trace[i].ready)
    ensures i > 0 && trace[i].cur != trace[i - 1].cur ==> NoneAbove(trace[i].threads, trace[i].ready, trace[i].cur)
  {
    hide Stepped, CanStep, Descending, NoneAbove;
    if i > 0 {
      RunOrder(idle, trace, steps, i - 1);
      assert Moves(idle, trace[i - 1], steps[i - 1], trace[i]);
      if CanStep(idle, trace[i - 1], steps[i - 1]) {
        OrderKept(idle, trace[i - 1], steps[i - 1], trace[i]);
      }
    }
  }

  class Kernel {
    var threads: Threads
    var cur: Tid
    const idle: Tid
    var ready: seq<Tid>
    var readyThreads: nat
    var semas: Semas
    /** The holder of each lock; a lock's semaphore has the lock's name. */
    var holder: Holders
    ghost var stranded: set<Tid>

    ghost function Snapshot(): State
      reads this
    {
      State(threads, cur, ready, semas, holder, stranded)
    }

    /** What holds whenever interrupts can be on. Good is compared with true so that proofs carry it as a whole. */
    ghost predicate Valid()
      reads this
    {
      Good(threads, cur, idle, ready, semas, holder) == true && readyThreads == |ready|
    }

    /** The first thread on the ready list whose priority is at most p. */
    method AtMost(p: int) returns (i: nat)
      requires forall t :: t in ready ==> t in threads
      ensures i <= |ready| && forall k :: 0 <= k < i ==> threads[ready[k]].priority > p
      ensures i < |ready| ==> threads[ready[i]].priority <= p
    {
      i := 0;
      while i < |ready| && !(threads[ready[i]].priority <= p)
        invariant i <= |ready|
        invariant forall k :: 0 <= k < i ==> threads[ready[k]].priority > p
      {
        i := i + 1;
      }
    }

    /** thread_unblock: a blocked thread joins the ready list before the first thread of no higher priority. */
    method Unblock(t: Tid) returns (i: nat)
      requires Valid() && t in threads && threads[t].status == Blocked && t != idle
      requires forall s :: s in semas ==> t !in semas[s].waiters
      modifies this`ready, this`readyThreads, this`threads
      ensures Valid() && threads == old(threads)[t := old(threads[t]).(status := Ready)]
      ensures i <= |old(ready)| && ready == InsertAt(old(ready), i, t) && BeforeEquals(old(threads), old(ready), i, t)
      ensures old(Descending(threads, ready)) ==> Descending(threads, ready)
    {
      i := AtMost(threads[t].priority);
      GoodUnblock(threads, cur, idle, ready, semas, holder, t, i);
      if Descending(threads, ready) {
        InsertDescending(threads, ready, i, t);
      }
      ready := InsertAt(ready, i, t);
      readyThreads := readyThreads + 1;
      threads := threads[t := threads[t].(status := Ready)];
    }

    /** schedule: the front of the ready list runs next, or the idle thread if the list is empty. */
    method Schedule()
      requires Between(threads, idle, ready, semas, holder) == true && readyThreads == |ready|
      modifies this`cur, this`threads, this`ready, this`readyThreads
      ensures Valid()
      ensures cur == Next(idle, old(ready))
      ensures ready == Rest(old(ready))
      ensures cur in old(threads) && threads == old(threads)[cur := old(threads)[cur].(status := Running)]
      ensures SameButStatus(old(threads), threads)
    {
      GoodSwitchIn(threads, idle, ready, semas, holder);
      if ready == [] {
        cur := idle;
      } else {
        readyThreads := readyThreads - 1;
        cur := ready[0];
        ready := ready[1..];
      }
      threads := threads[cur := threads[cur].(status := Running)];
    }

    /** The running thread blocks with its program counter at pc, and another takes over. */
    method Block(pc: Pc)
      requires Valid() && !Crossing(threads[cur].pc) && !Crossing(pc) && (pc.InDown? ==> pc.sema in semas)
      modifies this`cur, this`threads, this`ready, this`readyThreads
      ensures Valid() && cur == Next(idle, old(ready)) && ready == Rest(old(ready)) && cur in old(threads)
      ensures threads == HandOver(old(threads), old(cur), old(threads[cur]).(status := Blocked, pc := pc), cur)
    {
      var thread := threads[cur].(status := Blocked, pc := pc);
      GoodSwitchOut(threads, cur, idle, ready, semas, holder, thread, 0);
      threads := threads[cur := thread];
      Schedule();
    }

    /** The value is there: take it. */
    method TakeValue(s: Sema)
      requires Valid() && s in semas && semas[s].value > 0 && !Crossing(threads[cur].pc)
      modifies this`threads, this`semas
      ensures Valid() && semas == old(semas)[s := Semaphore(old(semas[s].value) - 1, old(semas[s].waiters))]
      ensures threads == old(threads)[cur := old(threads[cur]).(pc := AfterDown(holder, s))]
    {
      GoodDown(threads, cur, idle, ready, semas, holder, s);
      semas := semas[s := Semaphore(semas[s].value - 1, semas[s].waiters)];
      threads := threads[cur := threads[cur].(pc := AfterDown(holder, s))];
    }

    /** sema_down up to its first wait; on a lock's semaphore, the sema_down of lock_acquire. */
    method SemaDown(s: Sema)
      requires Valid() && cur != idle && threads[cur].pc == Outside && s in semas
      requires s in holder ==> holder[s] != Some(cur)
      modifies this`cur, this`threads, this`ready, this`readyThreads, this`semas
      ensures Valid()
      ensures old(semas[s].value) > 0 ==>
                && semas == old(semas)[s := Semaphore(old(semas[s].value) - 1, old(semas[s].waiters))]
                && threads == old(threads)[cur := old(threads[cur]).(pc := AfterDown(holder, s))]
                && cur == old(cur) && ready == old(ready)
      ensures old(semas[s].value) == 0 ==>
                && semas == old(semas)[s := Semaphore(0, old(semas[s].waiters) + [old(cur)])]
                && cur == Next(idle, old(ready)) && ready == Rest(old(ready)) && cur in old(threads)
                && threads == HandOver(old(threads), old(cur), old(threads[cur]).(status := Blocked, pc := InDown(s)), cur)
    {
      if semas[s].value == 0 {
        var t := cur;
        NotWaiting(threads, idle, semas, holder, t);
        Block(InDown(s));
        Enqueued(threads, idle, semas, holder, s, t);
        semas := semas[s := Semaphore(semas[s].value, semas[s].waiters + [t])];
      } else {
        TakeValue(s);
      }
    }

    /** The loop of sema_down after a wait: the thread looks again, and waits again without a place on the list. */
    method SemaDownAgain(s: Sema)
      requires Valid() && cur != idle && threads[cur].pc == InDown(s) && s in semas
      modifies this`cur, this`threads, this`ready, this`readyThreads, this`semas, this`stranded
      ensures Valid()
      ensures stranded == if old(semas[s].value) > 0 then old(stranded) else old(stranded) + {old(cur)}
      ensures old(semas[s].value) > 0 ==>
                && semas == old(semas)[s := Semaphore(old(semas[s].value) - 1, old(semas[s].waiters))]
                && threads == old(threads)[cur := old(threads[cur]).(pc := AfterDown(holder, s))]
                && cur == old(cur) && ready == old(ready)
      ensures old(semas[s].value) == 0 ==>
                && semas == old(semas)
                && cur == Next(idle, old(ready)) && ready == Rest(old(ready)) && cur in old(threads)
                && threads == HandOver(old(threads), old(cur), old(threads[cur]).(status := Blocked), cur)
    {
      if semas[s].value == 0 {
        stranded := stranded + {cur};
        Block(InDown(s));
      } else {
        TakeValue(s);
      }
    }

    /** sema_try_down; on a lock's semaphore, that of lock_try_acquire. */
    method SemaTryDown(s: Sema) returns (success: bool)
      requires Valid() && cur != idle && threads[cur].pc == Outside && s in semas
      requires s in holder ==> holder[s] != Some(cur)
      modifies this`threads, this`semas
      ensures Valid() && (success <==> old(semas[s].value) > 0)
      ensures success ==>
                && semas == old(semas)[s := Semaphore(old(semas[s].value) - 1, old(semas[s].waiters))]
                && threads == old(threads)[cur := old(threads[cur]).(pc := AfterDown(holder, s))]
      ensures !success ==> semas == old(semas) && threads == old(threads)
    {
      success := semas[s].value > 0;
      if success {
        TakeValue(s);
      }
    }

    /** The search in sema_up: the first of the waiters with the highest priority. */
    method HighestWaiter(waiters: seq<Tid>) returns (k: nat)
      requires waiters != [] && PrioritiesOk(threads) && forall t :: t in waiters ==> t in threads
      ensures k < |waiters| && FirstHighest(threads, waiters, k)
    {
      var highest := PRI_MIN - 1;
      k := 0;
      for e := 0 to |waiters|
        invariant e == 0 ==> highest == PRI_MIN - 1
        invariant e > 0 ==> k < e && highest == threads[waiters[k]].priority
        invariant forall j :: 0 <= j < e ==> threads[waiters[j]].priority <= highest
        invariant e > 0 ==> forall j :: 0 <= j < k ==> threads[waiters[j]].priority < highest
      {
        if threads[waiters[e]].priority > highest {
          k, highest := e, threads[waiters[e]].priority;
        }
      }
    }

    /** The waking half of sema_up: the first highest waiter moves from the wait list to the ready list. */
    method WakeOne(s: Sema) returns (woken: Option<Tid>)
      requires Valid() && s in semas
      modifies this`threads, this`ready, this`readyThreads, this`semas
      ensures Valid() && semas.Keys == old(semas.Keys) && semas[s].value == old(semas[s].value)
      ensures woken.None? <==> old(semas[s].waiters) == []
      ensures woken.None? ==> semas == old(semas) && threads == old(threads) && ready == old(ready)
      ensures woken.Some? ==>
                && woken.value in old(threads)
                && threads == old(threads)[woken.value := old(threads)[woken.value].(status := Ready)]
                && exists k: nat :: k < |old(semas[s].waiters)| && old(semas[s].waiters)[k] == woken.value
                                    && FirstHighest(old(threads), old(semas[s].waiters), k)
                                    && semas == old(semas)[s := Semaphore(old(semas[s].value), RemoveAt(old(semas[s].waiters), k))]
      ensures woken.Some? ==>
                && woken.value != cur
                && exists i: nat :: BeforeEquals(old(threads), old(ready), i, woken.value)
                                    && ready == InsertAt(old(ready), i, woken.value)
    {
      var waiters := semas[s].waiters;
      if waiters == [] {
        return None;
      }
      assert WaitersOk(threads, idle, s, waiters);
      assert forall t :: t in waiters ==> Waits(threads, idle, s, t);
      var k := HighestWaiter(waiters);
      Dequeued(threads, idle, semas, holder, s, k);
      semas := semas[s := Semaphore(semas[s].value, RemoveAt(waiters, k))];
      var i := Unblock(waiters[k]);
      woken := Some(waiters[k]);
    }

    /** The value goes up; for a lock's semaphore, the thread is then past it no more. */
    method GiveValue(s: Sema)
      requires Valid() && s in semas && (s in holder ==> threads[cur].pc == Given(s))
      modifies this`threads, this`semas
      ensures Valid() && semas == old(semas)[s := Raised(old(semas[s]))]
      ensures threads == old(threads)[cur := GaveValue(holder, s, old(threads[cur]))]
    {
      GoodUp(threads, cur, idle, ready, semas, holder, s);
      semas := semas[s := Raised(semas[s])];
      threads := threads[cur := GaveValue(holder, s, threads[cur])];
    }

    /**
     * sema_up before its final yield; on a lock's semaphore, that of lock_release. The value goes up by one and the
     * first of the highest waiters becomes ready.
     */
    method SemaUp(s: Sema) returns (woken: Option<Tid>)
      requires Valid() && s in semas
      requires s in holder ==> threads[cur].pc == Given(s)
      modifies this`threads, this`ready, this`readyThreads, this`semas
      ensures Valid() && (woken.None? <==> old(semas[s].waiters) == [])
      ensures woken.None? ==> semas == old(semas)[s := Raised(old(semas[s]))] && ready == old(ready)
      ensures woken.Some? ==>
                exists k: nat :: k < |old(semas[s].waiters)| && old(semas[s].waiters)[k] == woken.value
                                 && FirstHighest(old(threads), old(semas[s].waiters), k)
                                 && semas == old(semas)[s := Semaphore(old(semas[s].value) + 1, RemoveAt(old(semas[s].waiters), k))]
      ensures woken.Some? ==>
                exists i: nat :: BeforeEquals(old(threads), old(ready), i, woken.value)
                                 && ready == InsertAt(old(ready), i, woken.value)
      ensures threads == Awoken(old(threads), woken)[cur := GaveValue(holder, s, old(threads[cur]))]
    {
      hide Good;
      woken := WakeOne(s);
      GiveValue(s);
    }

    /** The second half of lock_acquire. */
    method NameHolder(l: Sema)
      requires Valid() && l in holder && threads[cur].pc == Taken(l)
      modifies this`threads, this`holder
      ensures Valid() && holder == old(holder)[l := Some(cur)]
      ensures threads == old(threads)[cur := old(threads[cur]).(pc := Outside)]
    {
      GoodHolder(threads, cur, idle, ready, semas, holder, l);
      holder := holder[l := Some(cur)];
      threads := threads[cur := threads[cur].(pc := Outside)];
    }

    /** The first half of lock_release, which the holder alone may call. */
    method ClearHolder(l: Sema)
      requires Valid() && l in holder && holder[l] == Some(cur) && threads[cur].pc == Outside
      modifies this`threads, this`holder
      ensures Valid() && holder == old(holder)[l := None]
      ensures threads == old(threads)[cur := old(threads[cur]).(pc := Given(l))]
    {
      GoodHolder(threads, cur, idle, ready, semas, holder, l);
      holder := holder[l := None];
      threads := threads[cur := threads[cur].(pc := Given(l))];
    }

    /** The first thread on the ready list of lower priority than p. */
    method Below(p: int) returns (i: nat)
      requires forall t :: t in ready ==> t in threads
      ensures i <= |ready| && forall k :: 0 <= k < i ==> threads[ready[k]].priority >= p
      ensures i < |ready| ==> threads[ready[i]].priority < p
    {
      i := 0;
      while i < |ready| && !(p > threads[ready[i]].priority)
        invariant i <= |ready|
        invariant forall k :: 0 <= k < i ==> threads[ready[k]].priority >= p
      {
        i := i + 1;
      }
    }

    /**
     * thread_yield: the running thread goes behind its equals on the ready list, unless it is the idle thread.
     * On an ordered list the next thread to run has at least its priority.
     */
    method Yield() returns (i: nat)
      requires Valid()
      modifies this`cur, this`threads, this`ready, this`readyThreads
      ensures Valid() && SameButStatus(old(threads), threads) && i <= |old(ready)| && cur in old(threads)
      ensures cur == Next(idle, Aside(old(ready), old(cur), idle, i)) && ready == Rest(Aside(old(ready), old(cur), idle, i))
      ensures threads == HandOver(old(threads), old(cur), old(threads[cur]).(status := Ready), cur)
      ensures BehindEquals(old(threads), old(ready), i, old(cur))
      ensures old(Descending(threads, ready)) ==> Descending(threads, ready)
      ensures old(Descending(threads, ready)) && old(cur) != idle ==>
                threads[cur].priority >= old(threads[cur]).priority
    {
      i := StepAside();
      ghost var queue, aside := ready, threads;
      Schedule();
      SameButStatusTwice(old(threads), aside, threads);
      if Descending(aside, queue) {
        FrontIsHighest(aside, queue, threads);
      }
    }

    /** The part of thread_yield before schedule. */
    method StepAside() returns (i: nat)
      requires Valid()
      modifies this`threads, this`ready, this`readyThreads
      ensures Between(threads, idle, ready, semas, holder) == true && readyThreads == |ready|
      ensures threads == old(threads)[cur := old(threads[cur]).(status := Ready)]
      ensures SameButStatus(old(threads), threads)
      ensures i <= |old(ready)| && ready == Aside(old(ready), cur, idle, i) && (cur != idle ==> cur in ready)
      ensures BehindEquals(old(threads), old(ready), i, old(cur))
      ensures old(Descending(threads, ready)) ==> Descending(threads, ready)
    {
      var thread := threads[cur].(status := Ready);
      i := Below(threads[cur].priority);
      GoodSwitchOut(threads, cur, idle, ready, semas, holder, thread, i);
      AsideDescending(threads, ready, cur, idle, i, thread);
      if cur != idle {
        readyThreads := readyThreads + 1;
      }
      ready, threads := Aside(ready, cur, idle, i), threads[cur := thread];
    }

    /** thread_exit. */
    method Exit()
      requires Valid() && cur != idle && threads[cur].pc == Outside
      modifies this`cur, this`threads, this`ready, this`readyThreads
      ensures Valid() && cur == Next(idle, old(ready)) && ready == Rest(old(ready)) && cur in old(threads)
      ensures threads == HandOver(old(threads), old(cur), old(threads[cur]).(status := Dying), cur)
    {
      var thread := threads[cur].(status := Dying);
      GoodSwitchOut(threads, cur, idle, ready, semas, holder, thread, 0);
      threads := threads[cur := thread];
      Schedule();
    }

    /** The end of a sleep, as the timer or another thread brings it about. */
    method WakeSleeper(t: Tid)
      requires Valid() && t in threads && t != idle && threads[t].status == Blocked && threads[t].pc == Asleep
      modifies this`threads, this`ready, this`readyThreads
      ensures Valid() && threads == old(threads)[t := old(threads[t]).(status := Ready, pc := Outside)]
      ensures exists i: nat :: BeforeEquals(threads, old(ready), i, t) && ready == InsertAt(old(ready), i, t)
    {
      hide ReadyOk, SyncOk, PcsOk, Descending;
      NotWaiting(threads, idle, semas, holder, t);
      var i := Unblock(t);
      assert BeforeEquals(threads, old(ready), i, t);
      GoodChange(threads, cur, idle, ready, semas, holder, t, threads[t].(pc := Outside));
      threads := threads[t := threads[t].(pc := Outside)];
    }

    /** thread_create: a blocked thread is made and unblocked. */
    method Create(t: Tid, priority: int)
      requires Valid() && t !in threads && priority >= PRI_MIN
      modifies this`threads, this`ready, this`readyThreads
      ensures Valid() && threads == old(threads)[t := Thread(Ready, Outside, priority)]
      ensures exists i: nat :: BeforeEquals(threads, old(ready), i, t) && ready == InsertAt(old(ready), i, t)
    {
      NewThread(threads, idle, semas, holder, t, Thread(Blocked, Outside, priority));
      NotWaiting(threads, idle, semas, holder, t);
      threads := threads[t := Thread(Blocked, Outside, priority)];
      var i := Unblock(t);
      assert BeforeEquals(threads, old(ready), i, t);
    }

    /** Any change of a thread's priority. */
    method SetPriority(t: Tid, priority: int)
      requires Valid() && t in threads && priority >= PRI_MIN
      modifies this`threads
      ensures Valid() && threads == old(threads)[t := old(threads[t]).(priority := priority)]
    {
      var thread := threads[t].(priority := priority);
      GoodChange(threads, cur, idle, ready, semas, holder, t, thread);
      threads := threads[t := thread];
    }

    /** sema_init of a new semaphore. */
    method SemaInit(s: Sema, value: nat)
      requires Valid() && s !in semas
      modifies this`semas
      ensures Valid() && semas == old(semas)[s := Semaphore(value, [])]
    {
      semas := semas[s := Semaphore(value, [])];
    }

    /** lock_init of a new lock. */
    method LockInit(l: Sema)
      requires Valid() && l !in semas
      modifies this`semas, this`holder
      ensures Valid() && semas == old(semas)[l := Semaphore(1, [])] && holder == old(holder)[l := None]
    {
      semas := semas[l := Semaphore(1, [])];
      holder := holder[l := None];
      assert Past(threads, None, l) == {};
    }

    /** thread_init and thread_start: the first thread runs and the idle thread waits for the processor. */
    constructor (first: Tid, idle: Tid, priority: int)
      requires first != idle && priority >= PRI_MIN
      ensures Valid() && cur == first && this.idle == idle && ready == []
      ensures threads == map[first := Thread(Running, Outside, priority), idle := Thread(Blocked, Outside, priority)]
      ensures semas == map[] && holder == map[] && stranded == {}
    {
      threads := map[first := Thread(Running, Outside, priority), idle := Thread(Blocked, Outside, priority)];
      cur, this.idle, ready, readyThreads := first, idle, [], 0;
      semas, holder, stranded := map[], map[], {};
    }

    method DoUp(s: Sema)
      requires Valid() && CanStep(idle, Snapshot(), Up(s))
      modifies this`threads, this`ready, this`readyThreads, this`semas
      ensures Valid() && Stepped(idle, old(Snapshot()), Up(s), Snapshot()) == true
    {
      hide Good;
      ghost var before := Snapshot();
      var woken := SemaUp(s);
      if woken.Some? {
        ghost var k: nat :|
          && k < |before.semas[s].waiters| && before.semas[s].waiters[k] == woken.value
          && FirstHighest(before.threads, before.semas[s].waiters, k)
          && semas == before.semas[s := Semaphore(before.semas[s].value + 1, RemoveAt(before.semas[s].waiters, k))];
        assert GaveValueTo(before, s, k, Snapshot());
      }
    }

    method DoYield()
      requires Valid() && CanStep(idle, Snapshot(), Preempt)
      modifies this`cur, this`threads, this`ready, this`readyThreads
      ensures Valid() && Stepped(idle, old(Snapshot()), Preempt, Snapshot()) == true
    {
      ghost var before := Snapshot();
      hide Good, Descending, BehindEquals;
      var i := Yield();
      assert BehindEquals(before.threads, before.ready, i, before.cur);
    }

    method Do(step: Step)
      requires Valid() && CanStep(idle, Snapshot(), step)
      modifies this
      ensures Valid() && Stepped(idle, old(Snapshot()), step, Snapshot()) == true
    {
      hide Good, BeforeEquals, BehindEquals;
      match step
      case DownAgain => SemaDownAgain(threads[cur].pc.sema);
      case Down(s) => SemaDown(s);
      case TryDown(s) => var _ := SemaTryDown(s);
      case Up(s) => DoUp(s);
      case Name => NameHolder(threads[cur].pc.lock);
      case Clear(l) => ClearHolder(l);
      case Preempt => DoYield();
      case Sleep => Block(if cur == idle then Outside else Asleep);
      case Wake(t) => WakeSleeper(t);
      case Spawn(t, p) => Create(t, p);
      case Quit => Exit();
      case Reprioritize(t, p) => SetPriority(t, p);
      case NewSema(s, value) => SemaInit(s, value);
      case NewLock(l) => LockInit(l);
    }

    /** The invariant of every run. */
    ghost predicate Sound()
      reads this
    {
      Valid() && StrandedOk(threads, idle, semas, stranded)
    }

    /**
     * In every interleaving: each step that can happen does exactly what it says, the others are passed over, and the
     * kernel stays safe throughout.
     */
    method Run(steps: seq<Step>) returns (ghost trace: seq<State>)
      requires Sound()
      modifies this
      ensures Sound() && Safe()
      ensures IsRun(idle, trace, steps) && AllGood(idle, trace)
      ensures trace[0] == old(Snapshot()) && trace[|steps|] == Snapshot()
    {
      trace := [Snapshot()];
      for i := 0 to |steps|
        invariant Sound() && IsRun(idle, trace, steps[..i]) && AllGood(idle, trace)
        invariant trace[0] == old(Snapshot()) && trace[i] == Snapshot()
      {
        ghost var before := Snapshot();
        if Enabled(threads, cur, idle, semas, holder, steps[i]) {
          Do(steps[i]);
          StrandedKept(idle, before, steps[i], Snapshot());
        }
        RunNext(idle, trace, steps, i, Snapshot());
        trace := trace + [Snapshot()];
      }
      assert steps[..|steps|] == steps;
      Safety();
    }

    /** Mutual exclusion, one list per thread, an exact count, and readiness that means being on the ready list. */
    ghost predicate Safe()
      reads this
    {
      && (forall l :: l in holder ==> l in semas && semas[l].value + |Past(threads, holder[l], l)| == 1)
      && (forall l, t, u :: l in holder && t in Past(threads, holder[l], l) && u in Past(threads, holder[l], l) ==> t == u)
      && Distinct(ready) && (forall s :: s in semas ==> Distinct(semas[s].waiters))
      && (forall s, t :: s in semas && t in ready ==> t !in semas[s].waiters)
      && (forall s, s', t :: s in semas && s' in semas && t in semas[s].waiters && t in semas[s'].waiters ==> s == s')
      && readyThreads == |ready|
      && (forall t :: t in threads && t != idle ==> (threads[t].status == Ready <==> t in ready))
      && (forall t, s :: t in threads && threads[t].status == Blocked && threads[t].pc == InDown(s) ==>
            s in semas && (t in semas[s].waiters <==> t !in stranded))
    }

    lemma Safety()
      requires Sound()
      ensures Safe()
    {
      forall l, t, u | l in holder && t in Past(threads, holder[l], l) && u in Past(threads, holder[l], l)
        ensures t == u
      {
        MutualExclusion(threads, holder[l], l, semas[l].value, t, u);
      }
      forall s, t | s in semas && t in semas[s].waiters
        ensures Waits(threads, idle, s, t)
      {
        assert WaitersOk(threads, idle, s, semas[s].waiters);
      }
      forall t, s | t in threads && threads[t].status == Blocked && threads[t].pc == InDown(s)
        ensures s in semas && (t in semas[s].waiters <==> t !in stranded)
      {
        assert InSemaDown(threads, t);
      }
    }
  }

  /** The idle thread 0, and threads 1 and 2, all of default priority. */
  ghost predicate Trio(threads: Threads, one: Status, pc: Pc, two: Status) {
    && threads.Keys == {0, 1, 2} && threads[0].pc == Outside
    && threads[1] == Thread(one, pc, 31) && threads[2] == Thread(two, Outside, 31)
  }

  ghost predicate Seven(semas: Semas, holder: Holders, value: nat, waiters: seq<Tid>) {
    7 in semas && 7 !in holder && semas[7] == Semaphore(value, waiters)
  }

  /** Thread 1 waits for semaphore 7 and thread 2 runs. */
  method OneWaits() returns (k: Kernel)
    ensures fresh(k) && k.Valid() && k.idle == 0 && k.cur == 2 && k.ready == [] && k.stranded == {}
    ensures Seven(k.semas, k.holder, 0, [1]) && Trio(k.threads, Blocked, InDown(7), Running)
  {
    hide Good;
    k := new Kernel(1, 0, 31);
    k.SemaInit(7, 0);
    k.Create(2, 31);
    assert k.ready == [2];
    k.SemaDown(7);
  }

  /** Thread 2 ups the semaphore and downs it again. */
  method UpAndDown(k: Kernel)
    requires k.Valid() && k.idle == 0 && k.cur == 2 && k.ready == []
    requires Seven(k.semas, k.holder, 0, [1]) && Trio(k.threads, Blocked, InDown(7), Running)
    modifies k
    ensures k.Valid() && k.cur == 2 && k.ready == [1] && k.stranded == old(k.stranded)
    ensures Seven(k.semas, k.holder, 0, []) && Trio(k.threads, Ready, InDown(7), Running)
  {
    hide Good;
    var woken := k.SemaUp(7);
    assert woken == Some(1) && k.ready == [1];
    assert k.semas[7].waiters == [];
    k.SemaDown(7);
  }

  /** Thread 2 yields, thread 1 looks and blocks again, and thread 2 ups the semaphore. */
  method BlockAgain(k: Kernel)
    requires k.Valid() && k.idle == 0 && k.cur == 2 && k.ready == [1]
    requires Seven(k.semas, k.holder, 0, []) && Trio(k.threads, Ready, InDown(7), Running)
    modifies k
    ensures k.Valid() && k.cur == 2 && k.ready == [] && k.stranded == old(k.stranded) + {1}
    ensures Seven(k.semas, k.holder, 1, []) && Trio(k.threads, Blocked, InDown(7), Running)
  {
    hide Good;
    var i := k.Yield();
    assert i == 1;
    k.SemaDownAgain(7);
    var _ := k.SemaUp(7);
  }

  /**
   * A wakeup that is lost: thread 1 waits, thread 2 ups and downs the semaphore before thread 1 runs, and thread 1
   * goes back to sleep without a place on the wait list. The next up raises the value and wakes no one.
   */
  method LostWakeup() returns (k: Kernel)
    ensures k.Sound() && 7 in k.semas && k.semas[7] == Semaphore(1, [])
    ensures 1 in k.threads && k.threads[1].status == Blocked && k.threads[1].pc == InDown(7) && 1 !in k.ready
    ensures k.stranded == {1}
  {
    k := OneWaits();
    UpAndDown(k);
    BlockAgain(k);
  }
}
