/** Priority donation (updateActivePriority in threads/thread.c; lock_acquire and lock_release in threads/synch.c). */
module Donation {

  import opened Definitions

  const PRI_DEPTH: nat := 8

  /** struct priority_lock: who donates, and over which lock. */
  datatype PriorityLock = PriorityLock(lock: nat, thread: Thread?)

  /** The part of struct thread that donation works on. Locks are named by numbers. */
  class Thread {
    var nativePriority: int
    var priority: int
    var numDonors: nat
    var donors: seq<PriorityLock>
    var donee: Thread?
    var doneeLock: nat

    constructor (priority: int)
      ensures nativePriority == priority && this.priority == priority && numDonors == 0
      ensures |donors| == PRI_DEPTH && donee == null
    {
      nativePriority, this.priority, numDonors := priority, priority, 0;
      donors := seq(PRI_DEPTH, _ => PriorityLock(0, null));
      donee, doneeLock := null, 0;
    }
  }

  /** Entry e of t's donors is matched by the donor's own link to t over the same lock. */
  ghost predicate Matched(t: Thread, e: PriorityLock)
    reads e.thread
  {
    e.thread != null ==> e.thread.donee == t && e.thread.doneeLock == e.lock
  }

  ghost predicate WellLinked(all: set<Thread>, t: Thread)
    reads all, t
  {
    && |t.donors| == PRI_DEPTH && t.numDonors <= PRI_DEPTH
    && (t.donee != null ==> t.donee in all)
    && (forall i :: 0 <= i < t.numDonors && t.donors[i].thread != null ==>
          t.donors[i].thread in all && Matched(t, t.donors[i]))
  }

  /** Every donor entry has a matching donee link. */
  ghost predicate World(all: set<Thread>)
    reads all
  {
    forall t {:trigger WellLinked(all, t)} :: t in all ==> WellLinked(all, t)
  }

  /** t's priority is the highest of its own and its donors'. */
  ghost predicate Settled(all: set<Thread>, t: Thread)
    requires WellLinked(all, t)
    reads all, t
  {
    && t.nativePriority <= t.priority && PRI_MIN <= t.priority
    && (forall i :: 0 <= i < t.numDonors && t.donors[i].thread != null ==> t.donors[i].thread.priority <= t.priority)
    && (|| t.priority == t.nativePriority
        || t.priority == PRI_MIN
        || exists i :: 0 <= i < t.numDonors && t.donors[i].thread != null && t.donors[i].thread.priority == t.priority)
  }

  ghost predicate AllSettledBut(all: set<Thread>, but: set<Thread>)
    requires World(all)
    reads all
  {
    forall t {:trigger Settled(all, t)} :: t in all && t !in but ==> WellLinked(all, t) && Settled(all, t)
  }

  /** The donees from t on, up to a thread that donates to no one. */
  ghost predicate Chain(all: set<Thread>, t: Thread, c: seq<Thread>)
    reads all
  {
    && |c| >= 1 && c[0] == t
    && (forall i :: 0 <= i < |c| ==> c[i] in all)
    && (forall i :: 0 <= i < |c| - 1 ==> c[i].donee == c[i + 1])
    && c[|c| - 1].donee == null
  }

  /** A chain that ends has no thread donating to itself. */
  lemma {:induction false} NoSelfDonation(all: set<Thread>, t: Thread, c: seq<Thread>)
    requires Chain(all, t, c)
    ensures t.donee != t
  {
    if |c| >= 2 && t.donee == t {
      NoSelfDonation(all, t, c[1..]);
    }
  }

  /** The loop of updateActivePriority. */
  method HighestDonated(all: set<Thread>, t: Thread) returns (highest: int)
    requires WellLinked(all, t)
    ensures PRI_MIN <= highest
    ensures forall i :: 0 <= i < t.numDonors && t.donors[i].thread != null ==> t.donors[i].thread.priority <= highest
    ensures || highest == PRI_MIN
            || exists i :: 0 <= i < t.numDonors && t.donors[i].thread != null && t.donors[i].thread.priority == highest
  {
    highest := PRI_MIN;
    for i := 0 to t.numDonors
      invariant PRI_MIN <= highest
      invariant forall k :: 0 <= k < i && t.donors[k].thread != null ==> t.donors[k].thread.priority <= highest
      invariant || highest == PRI_MIN
                || exists k :: 0 <= k < i && t.donors[k].thread != null && t.donors[k].thread.priority == highest
    {
      var d := t.donors[i].thread;
      if d != null {
        if highest < d.priority {
          highest := d.priority;
        }
      }
    }
  }

  /**
   * updateActivePriority. If donor entries match donee links, the donees from t on end somewhere, and every
   * thread but t has the priority it should have, then it ends and every thread has.
   */
  method UpdateActivePriority(all: set<Thread>, t: Thread, ghost c: seq<Thread>)
    requires World(all) && t in all && Chain(all, t, c)
    requires AllSettledBut(all, {t})
    modifies all`priority
    ensures World(all) && AllSettledBut(all, {})
    ensures forall s :: s in all && s !in c ==> s.priority == old(s.priority)
    decreases |c|
  {
    SetPriority(all, t, c);
    if t.donee != null {
      assert t.donee == c[1];
      UpdateActivePriority(all, t.donee, c[1..]);
    }
  }

  /** The part of updateActivePriority before it moves on: it settles t and unsettles at most t's donee. */
  method SetPriority(all: set<Thread>, t: Thread, ghost c: seq<Thread>)
    requires World(all) && t in all && Chain(all, t, c)
    requires AllSettledBut(all, {t})
    modifies t`priority
    ensures World(all) && AllSettledBut(all, if t.donee == null then {} else {t.donee})
  {
    assert WellLinked(all, t);
    NoSelfDonation(all, t, c);
    var highest := HighestDonated(all, t);
    t.priority := if highest > t.nativePriority then highest else t.nativePriority;
    forall s | s in all
      ensures WellLinked(all, s)
    {
      assert old(WellLinked(all, s));
    }
    assert Settled(all, t);
    forall s | s in all && s != t && s != t.donee
      ensures Settled(all, s)
    {
      assert old(WellLinked(all, s)) && old(Settled(all, s));
      forall i | 0 <= i < s.numDonors && s.donors[i].thread != null
        ensures s.donors[i].thread.priority == old(s.donors[i].thread.priority)
      {
        assert Matched(s, s.donors[i]);
      }
    }
  }

  /** The donor entries of t that are in use. */
  ghost function Listed(t: Thread): seq<PriorityLock>
    reads t
  {
    if t.numDonors <= |t.donors| then t.donors[..t.numDonors] else []
  }

  /** b lists a as a donor. */
  ghost predicate Registered(a: Thread, b: Thread)
    reads b
  {
    exists e :: e in Listed(b) && e.thread == a
  }

  /** A donation reaches every thread down a chain of registered donations. */
  lemma {:induction false} DonationReaches(all: set<Thread>, c: seq<Thread>, k: nat)
    requires World(all) && AllSettledBut(all, {}) && k < |c|
    requires forall i :: 0 <= i < |c| ==> c[i] in all
    requires forall i :: 0 <= i < k ==> Registered(c[i], c[i + 1])
    ensures c[0].priority <= c[k].priority
  {
    if k > 0 {
      DonationReaches(all, c, k - 1);
      assert Settled(all, c[k]) && Registered(c[k - 1], c[k - 1 + 1]);
    }
  }

  /**
   * The donation of lock_acquire. `cur` donates to the lock's holder exactly when the holder's own priority is
   * lower and it has room for a donor; afterwards every thread again has the priority it should have.
   */
  method Donate(all: set<Thread>, cur: Thread, lock: nat, holder: Thread, ghost c: seq<Thread>) returns (registered: bool)
    requires World(all) && AllSettledBut(all, {})
    requires cur in all && holder in all && cur.donee == null
    requires Chain(all, holder, c) && cur !in c
    modifies holder`donors, holder`numDonors, cur`donee, cur`doneeLock, all`priority
    ensures World(all) && AllSettledBut(all, {})
    ensures registered <==> old(holder.nativePriority) < old(cur.priority) && old(holder.numDonors) < PRI_DEPTH
    ensures registered ==>
              && Listed(holder) == old(Listed(holder)) + [PriorityLock(lock, cur)]
              && cur.donee == holder && cur.doneeLock == lock && cur.priority <= holder.priority
    ensures !registered ==> cur.donee == null && Listed(holder) == old(Listed(holder))
    ensures forall s :: s in all && (!registered || s !in c) ==> s.priority == old(s.priority)
  {
    assert WellLinked(all, holder);
    registered := holder.nativePriority < cur.priority && holder.numDonors < PRI_DEPTH;
    if registered {
      Register(all, cur, lock, holder);
      UpdateActivePriority(all, holder, c);
      assert Settled(all, holder);
      assert holder.donors[holder.numDonors - 1].thread == cur;
    }
  }

  /** Enters cur among the donors of holder and holder as the donee of cur. */
  method Register(all: set<Thread>, cur: Thread, lock: nat, holder: Thread)
    requires World(all) && AllSettledBut(all, {}) && cur in all && holder in all && cur.donee == null
    requires holder.numDonors < PRI_DEPTH == |holder.donors|
    modifies holder`donors, holder`numDonors, cur`donee, cur`doneeLock
    ensures World(all) && AllSettledBut(all, {holder})
    ensures holder.numDonors <= |holder.donors| && Listed(holder) == old(Listed(holder)) + [PriorityLock(lock, cur)]
    ensures cur.donee == holder && cur.doneeLock == lock
  {
    holder.donors := holder.donors[holder.numDonors := PriorityLock(lock, cur)];
    holder.numDonors := holder.numDonors + 1;
    cur.donee, cur.doneeLock := holder, lock;
    forall s | s in all
      ensures WellLinked(all, s)
      ensures s != holder ==> Settled(all, s)
    {
      assert old(WellLinked(all, s)) && old(Settled(all, s));
      forall i | 0 <= i < old(s.numDonors) && s.donors[i].thread != null
        ensures s.donors[i].thread in all && s.donors[i].thread != cur && Matched(s, s.donors[i])
      {
        assert old(Matched(s, s.donors[i]));
      }
    }
  }

  /**
   * The end of lock_acquire: cur's donee link goes, whether its donation has been returned or not. Donor entries go on
   * matching donee links if and only if the donee no longer lists cur.
   */
  method Recall(all: set<Thread>, cur: Thread, ghost but: set<Thread>)
    requires World(all) && AllSettledBut(all, but) && cur in all
    modifies cur`donee, cur`doneeLock
    ensures cur.donee == null && forall s :: s in all && s != cur ==> s.donee == old(s.donee)
    ensures World(all) <==> old(cur.donee == null || !Registered(cur, cur.donee))
    ensures World(all) ==> AllSettledBut(all, but)
  {
    assert WellLinked(all, cur);
    ghost var donee := cur.donee;
    cur.donee, cur.doneeLock := null, 0;
    if donee != null && Registered(cur, donee) {
      StaleEntry(all, cur, donee);
    } else {
      forall s | s in all
        ensures WellLinked(all, s) && (old(Settled(all, s)) ==> Settled(all, s))
      {
        assert old(WellLinked(all, s));
        forall i | 0 <= i < s.numDonors && s.donors[i].thread != null
          ensures s.donors[i].thread in all && s.donors[i].thread != cur && Matched(s, s.donors[i])
        {
          assert s.donors[i] in Listed(s) && old(Matched(s, s.donors[i]));
        }
      }
    }
  }

  /** A donor entry for a thread that donates to no one. */
  lemma StaleEntry(all: set<Thread>, cur: Thread, donee: Thread)
    requires Registered(cur, donee) && cur.donee == null && donee in all
    ensures !World(all)
  {
    var e :| e in Listed(donee) && e.thread == cur;
    var i :| 0 <= i < |Listed(donee)| && Listed(donee)[i] == e;
    assert donee.donors[i] == e && !Matched(donee, e);
    assert !WellLinked(all, donee);
  }

  /** thread_set_priority: the native priority changes, and every thread has the priority it should have. */
  method SetNativePriority(all: set<Thread>, t: Thread, p: int, ghost c: seq<Thread>)
    requires World(all) && AllSettledBut(all, {}) && t in all && Chain(all, t, c)
    modifies t`nativePriority, all`priority
    ensures t.nativePriority == Clamp(p, PRI_MIN, PRI_MAX) && World(all) && AllSettledBut(all, {})
    ensures forall s :: s in all && s !in c ==> s.priority == old(s.priority)
  {
    t.nativePriority := Clamp(p, PRI_MIN, PRI_MAX);
    forall s | s in all
      ensures WellLinked(all, s) && (s != t ==> Settled(all, s))
    {
      assert old(WellLinked(all, s)) && old(Settled(all, s));
    }
    UpdateActivePriority(all, t, c);
  }

  /**
   * A release by the holder and the end of the waiter's acquire. The links survive if and only if the holder's priority
   * was above its native one, for only then are donations given back.
   */
  method Pass(all: set<Thread>, holder: Thread, waiter: Thread, lock: nat) returns (hasWaiter: bool)
    requires World(all) && AllSettledBut(all, {}) && holder in all && waiter in all && holder.donee == null
    requires waiter.donee == holder && waiter.doneeLock == lock && Registered(waiter, holder)
    modifies holder`donors, holder`numDonors, waiter`donee, waiter`doneeLock, all`priority
    ensures waiter.donee == null && (World(all) <==> old(holder.priority) > holder.nativePriority)
  {
    assert WellLinked(all, holder);
    hasWaiter := ReleaseDonors(all, holder, lock);
    if old(holder.priority) > holder.nativePriority {
      NoLongerListed(all, holder, waiter, lock);
    }
    Recall(all, waiter, {holder});
  }

  lemma NoLongerListed(all: set<Thread>, holder: Thread, waiter: Thread, lock: nat)
    requires World(all) && holder in all && waiter.doneeLock == lock && Returned(holder, lock)
    ensures !Registered(waiter, holder)
  {
    assert WellLinked(all, holder);
    forall e | e in Listed(holder)
      ensures e.thread != waiter
    {
      var i :| 0 <= i < |Listed(holder)| && Listed(holder)[i] == e;
      assert Matched(holder, holder.donors[i]);
    }
  }

  /** No donor of t donates over this lock. */
  ghost predicate Returned(t: Thread, lock: nat)
    reads t
  {
    forall e :: e in Listed(t) ==> e.lock != lock
  }

  /**
   * The compaction loop of lock_release over the first n entries. The entries it keeps are, as a set, those of
   * other locks; it shortens the list exactly when the last entry was over this lock.
   */
  method Compact(donors: seq<PriorityLock>, n: nat, lock: nat) returns (r: seq<PriorityLock>, m: nat)
    requires n <= |donors|
    ensures |r| == |donors| && m <= n && r[n..] == donors[n..]
    ensures forall e :: e in r[..m] <==> e in donors[..n] && e.lock != lock
    ensures m < n <==> n > 0 && donors[n - 1].lock == lock
  {
    r := donors;
    var i, j := 0, n - 1;
    while i <= j
      invariant 0 <= i <= n && i - 1 <= j < n && |r| == |donors|
      invariant forall k :: i <= k < |r| ==> r[k] == donors[k]
      invariant forall k :: 0 <= k < i ==> r[k].lock != lock && r[k] in donors[..n]
      invariant forall k :: 0 <= k < i && donors[k].lock != lock ==> r[k] == donors[k]
      invariant forall k :: j < k < n ==> donors[k].lock == lock
      invariant i == n > 0 ==> donors[n - 1].lock != lock
      decreases n - i
    {
      if r[i].lock == lock {
        while r[j].lock == lock && j > i
          invariant i <= j < n
          invariant forall k :: j < k < n ==> donors[k].lock == lock
        {
          j := j - 1;
        }
        if r[j].lock != lock {
          r := r[i := r[j]];
        }
      }
      if r[i].lock == lock {
        break;
      } else {
        i := i + 1;
      }
    }
    m := i;
    forall e | e in donors[..n] && e.lock != lock ensures e in r[..m] {
      var k :| 0 <= k < n && donors[k] == e;
      assert r[..m][k] == e;
    }
  }

  /** Whether t would keep its priority without the donors over `lock`. */
  ghost predicate KeepsPriority(t: Thread, lock: nat)
    reads t, set e | e in Listed(t) && e.thread != null :: e.thread
  {
    || t.priority <= t.nativePriority
    || t.priority == PRI_MIN
    || exists e :: e in Listed(t) && e.lock != lock && e.thread != null && e.thread.priority == t.priority
  }

  /**
   * The donation part of lock_release. A thread whose priority is raised gives back every donation over the lock.
   * It recomputes its priority only if the last donor listed waits for this lock, so its priority is right
   * afterwards exactly in that case or when the donations given back did not decide it.
   */
  method ReleaseDonors(all: set<Thread>, cur: Thread, lock: nat) returns (hasWaiter: bool)
    requires World(all) && AllSettledBut(all, {})
    requires cur in all && cur.donee == null
    modifies cur`donors, cur`numDonors, all`priority
    ensures World(all) && AllSettledBut(all, {cur})
    ensures forall s :: s in all && (s != cur || !hasWaiter) ==> s.priority == old(s.priority)
    ensures old(cur.priority) > cur.nativePriority ==>
              Returned(cur, lock) && forall e :: e in Listed(cur) <==> e in old(Listed(cur)) && e.lock != lock
    ensures old(cur.priority) <= cur.nativePriority ==> Listed(cur) == old(Listed(cur))
    ensures hasWaiter <==>
              old(cur.priority) > cur.nativePriority && old(Listed(cur)) != [] &&
              old(Listed(cur))[|old(Listed(cur))| - 1].lock == lock
    ensures AllSettledBut(all, {}) <==> hasWaiter || old(KeepsPriority(cur, lock))
  {
    hasWaiter := false;
    assert WellLinked(all, cur) && Settled(all, cur);
    if cur.priority > cur.nativePriority {
      hasWaiter := DropDonors(all, cur, lock);
      if hasWaiter {
        UpdateActivePriority(all, cur, [cur]);
      } else {
        SettledByKept(all, cur);
      }
    }
  }

  method DropDonors(all: set<Thread>, cur: Thread, lock: nat) returns (trimmed: bool)
    requires World(all) && AllSettledBut(all, {}) && cur in all
    modifies cur`donors, cur`numDonors
    ensures World(all) && AllSettledBut(all, {cur})
    ensures forall e :: e in Listed(cur) <==> e in old(Listed(cur)) && e.lock != lock
    ensures trimmed <==> old(Listed(cur)) != [] && old(Listed(cur))[|old(Listed(cur))| - 1].lock == lock
    ensures forall e :: e in Listed(cur) && e.thread != null ==> e.thread.priority <= cur.priority
  {
    assert WellLinked(all, cur) && Settled(all, cur);
    var donors, m := Compact(cur.donors, cur.numDonors, lock);
    trimmed := m < cur.numDonors;
    forall e | e in donors[..m] && e.thread != null
      ensures e.thread in all && Matched(cur, e) && e.thread.priority <= cur.priority
    {
      assert e in cur.donors[..cur.numDonors];
    }
    Install(all, cur, donors, m);
  }

  /** Exchanging cur's donor list for one with matching links leaves every other thread settled. */
  method Install(all: set<Thread>, cur: Thread, donors: seq<PriorityLock>, m: nat)
    requires World(all) && AllSettledBut(all, {}) && cur in all && |donors| == PRI_DEPTH && m <= PRI_DEPTH
    requires forall e :: e in donors[..m] && e.thread != null ==> e.thread in all && Matched(cur, e)
    modifies cur`donors, cur`numDonors
    ensures cur.donors == donors && cur.numDonors == m
    ensures World(all) && AllSettledBut(all, {cur})
  {
    assert WellLinked(all, cur);
    cur.donors := donors;
    cur.numDonors := m;
    assert forall i :: 0 <= i < m ==> donors[i] in donors[..m];
    assert WellLinked(all, cur);
    forall s | s in all && s != cur
      ensures WellLinked(all, s) && Settled(all, s)
    {
      assert old(WellLinked(all, s)) && old(Settled(all, s));
    }
  }

  /** Over a donor's priority, a thread is settled exactly when some donor attains its priority. */
  lemma SettledByKept(all: set<Thread>, t: Thread)
    requires WellLinked(all, t) && t.nativePriority < t.priority && PRI_MIN <= t.priority
    requires forall e :: e in Listed(t) && e.thread != null ==> e.thread.priority <= t.priority
    ensures Settled(all, t) <==>
              t.priority == PRI_MIN || exists e :: e in Listed(t) && e.thread != null && e.thread.priority == t.priority
  {
    assert forall i :: 0 <= i < t.numDonors ==> t.donors[i] in Listed(t);
  }

  /** A thread with two donors, over locks 1 and 2. */
  method TwoDonors() returns (t: Thread, donor: Thread, other: Thread)
    ensures fresh({t, donor, other}) && World({t, donor, other}) && AllSettledBut({t, donor, other}, {})
    ensures donor.priority == 30 && other.priority == 20 && t.nativePriority == 10 && t.priority == 30
    ensures t.donee == null && Listed(t) == [PriorityLock(1, donor), PriorityLock(2, other)]
  {
    t := new Thread(10);
    donor := new Thread(30);
    other := new Thread(20);
    t.donors := t.donors[0 := PriorityLock(1, donor)][1 := PriorityLock(2, other)];
    t.numDonors, t.priority := 2, 30;
    donor.donee, donor.doneeLock := t, 1;
    other.donee, other.doneeLock := t, 2;
    var all := {t, donor, other};
    assert WellLinked(all, t) && WellLinked(all, donor) && WellLinked(all, other);
    assert t.donors[0].thread == donor;
    assert Settled(all, t);
  }

  /** A release that leaves the releaser with a donated priority although the donor is gone. */
  method StaleAfterRelease() returns (t: Thread, donor: Thread, other: Thread)
    ensures World({t, donor, other}) && Returned(t, 1)
    ensures donor.priority == 30 && other.priority == 20 && t.nativePriority == 10
    ensures forall e :: e in Listed(t) ==> e.thread == other
    ensures t.priority == 30 && WellLinked({t, donor, other}, t) && !Settled({t, donor, other}, t)
  {
    t, donor, other := TwoDonors();
    var _ := ReleaseDonors({t, donor, other}, t, 1);
  }

  /** A waiter of priority 30 donates to the holder of lock 1, and the holder then sets its own priority to 40. */
  method DonateAndRaise() returns (holder: Thread, waiter: Thread)
    ensures fresh({holder, waiter}) && World({holder, waiter}) && AllSettledBut({holder, waiter}, {})
    ensures holder.nativePriority == 40 && holder.priority == 40 && holder.donee == null
    ensures waiter.donee == holder && waiter.doneeLock == 1 && Listed(holder) == [PriorityLock(1, waiter)]
  {
    holder := new Thread(10);
    waiter := new Thread(30);
    var all := {holder, waiter};
    assert WellLinked(all, holder) && WellLinked(all, waiter);
    var registered := Donate(all, waiter, 1, holder, [holder]);
    assert Listed(holder) == [PriorityLock(1, waiter)];
    SetNativePriority(all, holder, 40, [holder]);
    assert Settled(all, holder) && holder.donors[0] == Listed(holder)[0];
  }

  /**
   * A run that breaks the links: after a donation and a raise the holder releases the lock, and the waiter acquires it.
   * The holder goes on listing a donor that donates to no one.
   */
  method BrokenByRaise() returns (holder: Thread, waiter: Thread)
    ensures waiter.donee == null && !World({holder, waiter})
  {
    holder, waiter := DonateAndRaise();
    assert PriorityLock(1, waiter) in Listed(holder);
    var _ := Pass({holder, waiter}, holder, waiter, 1);
  }
}
