/** The alarm clock (timer_sleep and timer_wake in devices/timer.c): a sleep queue with lazy deletion. */
module Alarm {
  import opened Definitions
  import opened Sequences

  type Tid = nat

  /** struct sleep_elem. The flag marks an entry whose thread has been woken but that is still on the queue. */
  datatype SleepElem = SleepElem(wakeTicks: int, thread: Tid, removeFlag: bool)

  /** A sleep: whose it is, when it is to end, and the tick at which it began. */
  datatype Sleeper = Sleeper(thread: Tid, wake: int, since: int)

  /** A sleep that ended at tick `at`. */
  datatype Woken = Woken(sleeper: Sleeper, at: int)

  // ---- the reference: sleepers in line, without marks ----

  /** The clock as its users see it. */
  datatype Model = Model(now: int, line: seq<Sleeper>, log: seq<Woken>)

  datatype Event = Sleeps(thread: Tid, duration: int) | Ticks

  ghost predicate Asleep(line: seq<Sleeper>, t: Tid) {
    exists i :: 0 <= i < |line| && line[i].thread == t
  }

  /** A new sleeper stands before the first that wakes later. */
  function Enter(line: seq<Sleeper>, s: Sleeper): seq<Sleeper> {
    if line == [] then [s]
    else if line[0].wake > s.wake then [s] + line
    else [line[0]] + Enter(line[1..], s)
  }

  /** The sleepers that are due, in order. */
  function Due(line: seq<Sleeper>, now: int): seq<Sleeper> {
    if line == [] then [] else (if line[0].wake <= now then [line[0]] else []) + Due(line[1..], now)
  }

  /** The others, in order. */
  function Later(line: seq<Sleeper>, now: int): seq<Sleeper> {
    if line == [] then [] else (if line[0].wake > now then [line[0]] else []) + Later(line[1..], now)
  }

  function Logged(sleepers: seq<Sleeper>, now: int): (r: seq<Woken>)
    ensures |r| == |sleepers|
  {
    seq(|sleepers|, i requires 0 <= i < |sleepers| => Woken(sleepers[i], now))
  }

  /** A thread that is awake may begin a sleep; a tick ends exactly the sleeps that are due. */
  ghost function Step(m: Model, e: Event): Model {
    match e
    case Sleeps(t, duration) =>
      if Asleep(m.line, t) then m else m.(line := Enter(m.line, Sleeper(t, m.now + duration, m.now)))
    case Ticks =>
      Model(m.now + 1, Later(m.line, m.now + 1), m.log + Logged(Due(m.line, m.now + 1), m.now + 1))
  }

  ghost function Steps(m: Model, events: seq<Event>): Model {
    if events == [] then m else Step(Steps(m, events[..|events| - 1]), events[|events| - 1])
  }

  // ---- the queue ----

  ghost predicate Ascending(queue: seq<SleepElem>) {
    forall i, j :: 0 <= i < j < |queue| ==> queue[i].wakeTicks <= queue[j].wakeTicks
  }

  /** What the queue says about the line: its unmarked entries. */
  ghost function Unmarked(queue: seq<SleepElem>): seq<SleepElem> {
    if queue == [] then [] else (if queue[0].removeFlag then [] else [queue[0]]) + Unmarked(queue[1..])
  }

  function Entries(line: seq<Sleeper>): (r: seq<SleepElem>)
    ensures |r| == |line|
  {
    seq(|line|, i requires 0 <= i < |line| => SleepElem(line[i].wake, line[i].thread, false))
  }

  lemma {:induction false} UnmarkedConcat(a: seq<SleepElem>, b: seq<SleepElem>)
    ensures Unmarked(a + b) == Unmarked(a) + Unmarked(b)
  {
    if a == [] {
      assert a + b == b;
    } else {
      assert (a + b)[1..] == a[1..] + b;
      UnmarkedConcat(a[1..], b);
    }
  }

  lemma UnmarkedOne(e: SleepElem)
    ensures Unmarked([e]) == if e.removeFlag then [] else [e]
  {
    assert Unmarked([e][1..]) == [];
  }

  lemma UnmarkedAround(a: seq<SleepElem>, e: SleepElem, b: seq<SleepElem>)
    ensures Unmarked(a + [e] + b) == Unmarked(a) + (if e.removeFlag then [] else [e]) + Unmarked(b)
  {
    UnmarkedConcat(a + [e], b);
    UnmarkedConcat(a, [e]);
    UnmarkedOne(e);
  }

  lemma {:induction false} UnmarkedAll(a: seq<SleepElem>)
    ensures (forall i :: 0 <= i < |a| ==> !a[i].removeFlag) ==> Unmarked(a) == a
    ensures (forall i :: 0 <= i < |a| ==> a[i].removeFlag) ==> Unmarked(a) == []
  {
    if a != [] {
      UnmarkedAll(a[1..]);
    }
  }

  /** Taking a marked entry off the queue changes nothing about the line. */
  lemma UnmarkedRemove(queue: seq<SleepElem>, i: nat)
    requires i < |queue| && queue[i].removeFlag
    ensures Unmarked(RemoveAt(queue, i)) == Unmarked(queue)
  {
    hide Unmarked;
    assert queue == queue[..i] + [queue[i]] + queue[i + 1..];
    assert RemoveAt(queue, i) == queue[..i] + queue[i + 1..];
    UnmarkedAround(queue[..i], queue[i], queue[i + 1..]);
    UnmarkedConcat(queue[..i], queue[i + 1..]);
  }

  /** An entry put in behind i unmarked ones stands at place i of the line. */
  lemma UnmarkedInsert(queue: seq<SleepElem>, i: nat, e: SleepElem)
    requires i <= |queue| && !e.removeFlag && forall k :: 0 <= k < i ==> !queue[k].removeFlag
    ensures i <= |Unmarked(queue)| && Unmarked(queue)[..i] == queue[..i]
    ensures Unmarked(InsertAt(queue, i, e)) == InsertAt(Unmarked(queue), i, e)
  {
    var a, b := queue[..i], queue[i..];
    assert queue == a + b;
    InsertBetween(a, e, b);
    UnmarkedAll(a);
    UnmarkedConcat(a, b);
    UnmarkedAround(a, e, b);
    InsertBetween(a, e, Unmarked(b));
  }

  /** Marking the first unmarked entry takes the head off the line. */
  lemma UnmarkedMark(queue: seq<SleepElem>, i: nat)
    requires i < |queue| && !queue[i].removeFlag && forall k :: 0 <= k < i ==> queue[k].removeFlag
    ensures Unmarked(queue) == [queue[i]] + Unmarked(queue[i := queue[i].(removeFlag := true)])
  {
    var a, b, e := queue[..i], queue[i + 1..], queue[i].(removeFlag := true);
    assert queue == a + [queue[i]] + b && queue[i := e] == a + [e] + b;
    UnmarkedAll(a);
    UnmarkedAround(a, queue[i], b);
    UnmarkedAround(a, e, b);
  }

  lemma {:induction false} UnmarkedFrom(queue: seq<SleepElem>, e: SleepElem)
    requires e in Unmarked(queue)
    ensures e in queue && !e.removeFlag
  {
    if e !in Unmarked(queue[1..]) {
      assert e == queue[0];
    } else {
      UnmarkedFrom(queue[1..], e);
    }
  }

  // ---- the line ----

  ghost predicate OneEach(line: seq<Sleeper>) {
    forall i, j :: 0 <= i < j < |line| ==> line[i].thread != line[j].thread
  }

  /** Whoever is still asleep wakes later, or has gone to sleep since the last tick. */
  ghost predicate NoneOverdue(line: seq<Sleeper>, now: int) {
    forall i :: 0 <= i < |line| ==> line[i].since <= now && (line[i].wake > now || line[i].since == now)
  }

  /** Every sleep ended at its wake time, or at the tick after it began if that is later. */
  ghost predicate Punctual(log: seq<Woken>) {
    forall i :: 0 <= i < |log| ==> log[i].at == Max(log[i].sleeper.wake, log[i].sleeper.since + 1)
  }

  /** Entering is putting in at the place behind all that wake no later. */
  lemma {:induction false} EnterAt(line: seq<Sleeper>, s: Sleeper, i: nat)
    requires i <= |line| && (forall k :: 0 <= k < i ==> line[k].wake <= s.wake) && (i < |line| ==> line[i].wake > s.wake)
    ensures Enter(line, s) == InsertAt(line, i, s)
  {
    if i == 0 {
      InsertBetween([], s, line);
      assert [] + line == line && [] + [s] + line == [s] + line;
    } else {
      EnterAt(line[1..], s, i - 1);
      InsertAfterHead(line, i, s);
    }
  }

  lemma {:induction false} NoneDue(line: seq<Sleeper>, now: int)
    requires forall i :: 0 <= i < |line| ==> line[i].wake > now
    ensures Due(line, now) == [] && Later(line, now) == line
  {
    if line != [] {
      NoneDue(line[1..], now);
    }
  }

  /** On a line that is cut between the due and the others, the tick takes the first part. */
  lemma {:induction false} DueSplits(a: seq<Sleeper>, b: seq<Sleeper>, now: int)
    requires (forall i :: 0 <= i < |a| ==> a[i].wake <= now) && (forall i :: 0 <= i < |b| ==> b[i].wake > now)
    ensures Due(a + b, now) == a && Later(a + b, now) == b
  {
    if a != [] {
      assert (a + b)[1..] == a[1..] + b;
      DueSplits(a[1..], b, now);
    } else {
      assert a + b == b;
      NoneDue(b, now);
    }
  }

  /** Whoever goes to sleep now is not overdue. */
  lemma EnteredInTime(line: seq<Sleeper>, s: Sleeper, e: nat)
    requires NoneOverdue(line, s.since) && e <= |line| && Enter(line, s) == InsertAt(line, e, s)
    ensures NoneOverdue(Enter(line, s), s.since)
  {
    hide Enter;
  }

  /** A sleeper's entry put into the queue at its place puts the sleeper into the line at its place. */
  lemma Placed(queue: seq<SleepElem>, line: seq<Sleeper>, e: nat, s: Sleeper)
    requires Ascending(queue) && Unmarked(queue) == Entries(line) && OneEach(line) && e <= |queue|
    requires forall k :: 0 <= k < e ==> !queue[k].removeFlag && queue[k].wakeTicks <= s.wake
    requires e < |queue| ==> !queue[e].removeFlag && queue[e].wakeTicks > s.wake
    requires !Asleep(line, s.thread)
    ensures e <= |line| && Enter(line, s) == InsertAt(line, e, s)
    ensures Ascending(InsertAt(queue, e, SleepElem(s.wake, s.thread, false)))
    ensures Unmarked(InsertAt(queue, e, SleepElem(s.wake, s.thread, false))) == Entries(Enter(line, s))
    ensures OneEach(Enter(line, s)) && forall t :: Asleep(Enter(line, s), t) <==> Asleep(line, t) || t == s.thread
  {
    var entry := SleepElem(s.wake, s.thread, false);
    UnmarkedInsert(queue, e, entry);
    PlaceInLine(queue, line, e, s.wake);
    EnterAt(line, s, e);
    EntriesInsert(line, e, s);
    InsertedAscending(queue, e, entry);
    EnteredLine(line, e, s);
  }

  /** The place in the queue is the place in the line. */
  lemma {:induction false} PlaceInLine(queue: seq<SleepElem>, line: seq<Sleeper>, e: nat, wake: int)
    requires Unmarked(queue) == Entries(line) && e <= |queue|
    requires forall k :: 0 <= k < e ==> !queue[k].removeFlag && queue[k].wakeTicks <= wake
    requires e < |queue| ==> !queue[e].removeFlag && queue[e].wakeTicks > wake
    ensures e <= |line| && (forall k :: 0 <= k < e ==> line[k].wake <= wake) && (e < |line| ==> line[e].wake > wake)
  {
    UnmarkedPrefix(queue, e);
    forall k | 0 <= k < e ensures line[k].wake <= wake {
      assert Unmarked(queue)[..e][k] == queue[..e][k];
      assert Entries(line)[k] == queue[k];
    }
    if e < |queue| {
      UnmarkedPrefix(queue, e + 1);
      assert Unmarked(queue)[..e + 1][e] == queue[..e + 1][e];
      assert e < |line| && Entries(line)[e] == queue[e];
    } else {
      UnmarkedAll(queue);
    }
  }

  lemma UnmarkedPrefix(queue: seq<SleepElem>, i: nat)
    requires i <= |queue| && forall k :: 0 <= k < i ==> !queue[k].removeFlag
    ensures i <= |Unmarked(queue)| && Unmarked(queue)[..i] == queue[..i]
  {
    assert queue == queue[..i] + queue[i..];
    UnmarkedAll(queue[..i]);
    UnmarkedConcat(queue[..i], queue[i..]);
  }

  lemma EntriesInsert(line: seq<Sleeper>, i: nat, s: Sleeper)
    requires i <= |line|
    ensures Entries(InsertAt(line, i, s)) == InsertAt(Entries(line), i, SleepElem(s.wake, s.thread, false))
  {
  }

  lemma InsertedAscending(queue: seq<SleepElem>, i: nat, e: SleepElem)
    requires Ascending(queue) && i <= |queue| && forall k :: 0 <= k < i ==> queue[k].wakeTicks <= e.wakeTicks
    requires i < |queue| ==> queue[i].wakeTicks > e.wakeTicks
    ensures Ascending(InsertAt(queue, i, e))
  {
  }

  lemma EnteredLine(line: seq<Sleeper>, i: nat, s: Sleeper)
    requires OneEach(line) && !Asleep(line, s.thread) && i <= |line|
    ensures OneEach(InsertAt(line, i, s))
    ensures forall t :: Asleep(InsertAt(line, i, s), t) <==> Asleep(line, t) || t == s.thread
  {
    var r := InsertAt(line, i, s);
    forall j, k | 0 <= j < k < |r| ensures r[j].thread != r[k].thread {
      assert j == i ==> r[k] == line[k - 1];
      assert k == i ==> r[j] == line[j];
    }
    forall t ensures Asleep(r, t) <==> Asleep(line, t) || t == s.thread {
      if Asleep(line, t) {
        var k :| 0 <= k < |line| && line[k].thread == t;
        assert r[if k < i then k else k + 1].thread == t;
      }
      assert r[i].thread == s.thread;
    }
  }

  /** Marking the first unmarked entry takes the first sleeper out of the line. */
  lemma Taken(queue: seq<SleepElem>, line: seq<Sleeper>, e: nat)
    requires Ascending(queue) && Unmarked(queue) == Entries(line) && OneEach(line)
    requires e < |queue| && !queue[e].removeFlag && forall k :: 0 <= k < e ==> queue[k].removeFlag
    ensures line != [] && line[0].wake == queue[e].wakeTicks && line[0].thread == queue[e].thread
    ensures var q := queue[e := queue[e].(removeFlag := true)]; Ascending(q) && Unmarked(q) == Entries(line[1..])
    ensures OneEach(line[1..]) && forall t :: Asleep(line[1..], t) <==> Asleep(line, t) && t != line[0].thread
  {
    UnmarkedMark(queue, e);
    var q := queue[e := queue[e].(removeFlag := true)];
    assert Entries(line)[0] == queue[e];
    assert Unmarked(q) == Entries(line)[1..] == Entries(line[1..]);
    forall t ensures Asleep(line[1..], t) <==> Asleep(line, t) && t != line[0].thread {
      if Asleep(line, t) && t != line[0].thread {
        var k :| 0 <= k < |line| && line[k].thread == t;
        assert line[1..][k - 1].thread == t;
      }
    }
  }

  class AlarmClock {
    var ticks: int
    var queue: seq<SleepElem>
    /** The threads that timer_sleep has blocked. */
    var blocked: set<Tid>
    /** The sleepers in line, and the sleeps that have ended, oldest first. */
    ghost var line: seq<Sleeper>
    ghost var log: seq<Woken>

    /** The queue is sorted and its unmarked entries are the line, which holds each blocked thread once. */
    ghost predicate Queued()
      reads this
    {
      && Ascending(queue) && Unmarked(queue) == Entries(line) && OneEach(line)
      && forall t :: t in blocked <==> Asleep(line, t)
    }

    /** No one is overdue, and no one was woken early or late. */
    ghost predicate Valid()
      reads this
    {
      Queued() && NoneOverdue(line, ticks) && Punctual(log)
    }

    ghost function State(): Model
      reads this
    {
      Model(ticks, line, log)
    }

    constructor ()
      ensures Valid() && State() == Model(0, [], []) && queue == [] && blocked == {}
    {
      ticks, queue, blocked := 0, [], {};
      line, log := [], [];
    }

    /** The scan of timer_sleep: it drops marked entries up to the first entry that wakes later. */
    method FindPlace(wake: int) returns (e: nat)
      requires Queued()
      modifies this`queue
      ensures Queued() && e <= |queue|
      ensures forall k :: 0 <= k < e ==> !queue[k].removeFlag && queue[k].wakeTicks <= wake
      ensures e < |queue| ==> !queue[e].removeFlag && queue[e].wakeTicks > wake
    {
      e := 0;
      while e < |queue|
        invariant e <= |queue| && Queued()
        invariant forall k :: 0 <= k < e ==> !queue[k].removeFlag && queue[k].wakeTicks <= wake
        decreases |queue| - e
      {
        if queue[e].removeFlag {
          UnmarkedRemove(queue, e);
          queue := RemoveAt(queue, e);
        } else if queue[e].wakeTicks > wake {
          return;
        } else {
          e := e + 1;
        }
      }
    }

    /** timer_sleep by a running thread, taken as one step: the thread enters the line at its place. */
    method TimerSleep(t: Tid, duration: int)
      requires Valid() && t !in blocked
      modifies this`queue, this`blocked, this`line
      ensures Valid() && State() == Step(old(State()), Sleeps(t, duration)) && blocked == old(blocked) + {t}
    {
      hide Enter, Unmarked, Entries, Ascending, OneEach, NoneOverdue, Punctual;
      var wake := ticks + duration;
      var e := FindPlace(wake);
      Placed(queue, line, e, Sleeper(t, wake, ticks));
      EnteredInTime(line, Sleeper(t, wake, ticks), e);
      queue := InsertAt(queue, e, SleepElem(wake, t, false));
      line := Enter(line, Sleeper(t, wake, ticks));
      blocked := blocked + {t};
    }

    /** Marks the first unmarked entry, at e, and unblocks its thread. */
    method Wake(e: nat)
      requires Queued() && e < |queue| && !queue[e].removeFlag && forall k :: 0 <= k < e ==> queue[k].removeFlag
      modifies this`queue, this`blocked, this`line, this`log
      ensures Queued() && queue == old(queue)[e := old(queue[e]).(removeFlag := true)]
      ensures old(line) != [] && old(line)[0].wake == old(queue[e]).wakeTicks
      ensures line == old(line)[1..] && log == old(log) + [Woken(old(line)[0], ticks)]
    {
      Taken(queue, line, e);
      blocked := blocked - {queue[e].thread};
      queue := queue[e := queue[e].(removeFlag := true)];
      log := log + [Woken(line[0], ticks)];
      line := line[1..];
    }

    /** timer_wake: it wakes exactly the sleepers that are due, in the order of the line. */
    method TimerWake()
      requires Queued() && Punctual(log) && NoneOverdue(line, ticks - 1)
      modifies this`queue, this`blocked, this`line, this`log
      ensures Valid()
      ensures line == Later(old(line), ticks) && log == old(log) + Logged(Due(old(line), ticks), ticks)
    {
      var e: nat := 0;
      ghost var woken: seq<Sleeper> := [];
      while e < |queue|
        invariant e <= |queue| && Queued() && forall k :: 0 <= k < e ==> queue[k].removeFlag
        invariant old(line) == woken + line && log == old(log) + Logged(woken, ticks)
        invariant forall i :: 0 <= i < |woken| ==> woken[i].wake <= ticks
        decreases |queue| - e
      {
        if queue[e].wakeTicks <= ticks {
          if !queue[e].removeFlag {
            ghost var next := line;
            Wake(e);
            OneMoreWoken(woken, next, ticks);
            woken := woken + [next[0]];
          }
        } else {
          break;
        }
        e := e + 1;
      }
      AllLater(queue, line, e, ticks);
      DueSplits(woken, line, ticks);
      WokenOnTime(old(line), woken, line, old(log), ticks);
    }

    /** One timer tick: the tick count goes up and timer_wake runs. */
    method Tick()
      requires Valid()
      modifies this
      ensures Valid() && State() == Step(old(State()), Ticks)
    {
      ticks := ticks + 1;
      TimerWake();
    }

    /** Over any run of sleeps and ticks the clock does what the line does. */
    method Run(events: seq<Event>)
      requires Valid()
      modifies this
      ensures Valid() && State() == Steps(old(State()), events)
    {
      for i := 0 to |events|
        invariant Valid() && State() == Steps(old(State()), events[..i])
      {
        assert events[..i + 1][..i] == events[..i];
        match events[i] {
          case Sleeps(t, duration) =>
            if t !in blocked {
              TimerSleep(t, duration);
            }
          case Ticks =>
            Tick();
        }
      }
      assert events[..|events|] == events;
    }
  }

  lemma OneMoreWoken(woken: seq<Sleeper>, line: seq<Sleeper>, now: int)
    requires line != []
    ensures woken + line == (woken + [line[0]]) + line[1..]
    ensures Logged(woken + [line[0]], now) == Logged(woken, now) + [Woken(line[0], now)]
  {
  }

  /** Once every entry up to e is marked and the next is later, everyone in line is later. */
  lemma AllLater(queue: seq<SleepElem>, line: seq<Sleeper>, e: nat, now: int)
    requires Ascending(queue) && Unmarked(queue) == Entries(line) && e <= |queue|
    requires forall k :: 0 <= k < e ==> queue[k].removeFlag
    requires e < |queue| ==> queue[e].wakeTicks > now
    ensures forall i :: 0 <= i < |line| ==> line[i].wake > now
  {
    hide Unmarked;
    forall i | 0 <= i < |line| ensures line[i].wake > now {
      assert Entries(line)[i] in Unmarked(queue);
      UnmarkedFrom(queue, Entries(line)[i]);
      var k :| 0 <= k < |queue| && queue[k] == Entries(line)[i];
    }
  }

  /** What was due was due at this very tick, or was not yet asleep at the last. */
  lemma WokenOnTime(before: seq<Sleeper>, woken: seq<Sleeper>, line: seq<Sleeper>, log: seq<Woken>, now: int)
    requires before == woken + line && NoneOverdue(before, now - 1) && Punctual(log)
    requires (forall i :: 0 <= i < |woken| ==> woken[i].wake <= now) && (forall i :: 0 <= i < |line| ==> line[i].wake > now)
    ensures NoneOverdue(line, now) && Punctual(log + Logged(woken, now))
  {
    forall i | 0 <= i < |woken| ensures woken[i].since <= now - 1 && (woken[i].wake > now - 1 || woken[i].since == now - 1) {
      assert woken[i] == before[i];
    }
    forall i | 0 <= i < |line| ensures line[i].since <= now - 1 {
      assert line[i] == before[|woken| + i];
    }
  }

  // ---- exactly once, on time ----

  /** The sleeps that the events begin. */
  ghost function Begun(m: Model, events: seq<Event>): seq<Sleeper> {
    if events == [] then [] else
      var init := events[..|events| - 1];
      var (before, e) := (Steps(m, init), events[|events| - 1]);
      Begun(m, init) + Beginning(before, e)
  }

  function Sleepers(log: seq<Woken>): (r: seq<Sleeper>)
    ensures |r| == |log|
  {
    seq(|log|, i requires 0 <= i < |log| => log[i].sleeper)
  }

  /** All sleeps of a state, ended or under way. */
  ghost function AllSleeps(m: Model): multiset<Sleeper> {
    multiset(Sleepers(m.log)) + multiset(m.line)
  }

  lemma {:induction false} EnterAdds(line: seq<Sleeper>, s: Sleeper)
    ensures multiset(Enter(line, s)) == multiset(line) + multiset{s}
  {
    if line != [] {
      assert line == [line[0]] + line[1..];
      if line[0].wake <= s.wake {
        EnterAdds(line[1..], s);
      }
    }
  }

  lemma {:induction false} TickSplits(line: seq<Sleeper>, now: int)
    ensures multiset(Due(line, now)) + multiset(Later(line, now)) == multiset(line)
  {
    if line != [] {
      TickSplits(line[1..], now);
      assert line == [line[0]] + line[1..];
    }
  }

  lemma {:induction false} TickParts(line: seq<Sleeper>, now: int)
    ensures forall i :: 0 <= i < |Due(line, now)| ==> Due(line, now)[i] in line && Due(line, now)[i].wake <= now
    ensures forall i :: 0 <= i < |Later(line, now)| ==> Later(line, now)[i] in line && Later(line, now)[i].wake > now
  {
    if line != [] {
      TickParts(line[1..], now);
    }
  }

  lemma SleepersOfMore(log: seq<Woken>, due: seq<Sleeper>, now: int)
    ensures Sleepers(log + Logged(due, now)) == Sleepers(log) + due
  {
  }

  /** No one in line is overdue, and whoever was woken was woken on time and not in the future. */
  ghost predicate OnTime(m: Model) {
    NoneOverdue(m.line, m.now) && Punctual(m.log) && Past(m.log, m.now)
  }

  /** The sleep that an event begins, if it begins one. */
  ghost function Beginning(m: Model, e: Event): seq<Sleeper> {
    if e.Sleeps? && !Asleep(m.line, e.thread) then [Sleeper(e.thread, m.now + e.duration, m.now)] else []
  }

  lemma SleepKeeps(m: Model, s: Sleeper)
    requires OnTime(m) && s.since == m.now
    ensures OnTime(m.(line := Enter(m.line, s)))
    ensures AllSleeps(m.(line := Enter(m.line, s))) == AllSleeps(m) + multiset{s}
  {
    EnterAdds(m.line, s);
    EnterKeeps(m.line, s, m.now);
  }

  lemma TickKeepsAll(m: Model)
    requires OnTime(m)
    ensures OnTime(Step(m, Ticks)) && AllSleeps(Step(m, Ticks)) == AllSleeps(m)
  {
    hide Due, Later, Logged, Sleepers, NoneOverdue, Punctual, Past;
    var due := Due(m.line, m.now + 1);
    TickSplits(m.line, m.now + 1);
    SleepersOfMore(m.log, due, m.now + 1);
    TickKeeps(m.line, m.log, m.now + 1);
    assert multiset(Sleepers(m.log) + due) == multiset(Sleepers(m.log)) + multiset(due);
  }

  /** One event keeps every sleep, adds the one it begins, and ends sleeps only on time. */
  lemma StepKeeps(m: Model, e: Event)
    requires OnTime(m)
    ensures OnTime(Step(m, e)) && AllSleeps(Step(m, e)) == AllSleeps(m) + multiset(Beginning(m, e))
  {
    match e
    case Sleeps(t, duration) =>
      if !Asleep(m.line, t) {
        SleepKeeps(m, Sleeper(t, m.now + duration, m.now));
      }
    case Ticks =>
      TickKeepsAll(m);
  }

  /** Nothing in the log lies in the future. */
  ghost predicate Past(log: seq<Woken>, now: int) {
    forall i :: 0 <= i < |log| ==> log[i].at <= now
  }

  lemma {:induction false} EnterKeeps(line: seq<Sleeper>, s: Sleeper, now: int)
    requires NoneOverdue(line, now) && s.since == now
    ensures NoneOverdue(Enter(line, s), now)
  {
    if line != [] && line[0].wake <= s.wake {
      EnterKeeps(line[1..], s, now);
    }
  }

  lemma TickKeeps(line: seq<Sleeper>, log: seq<Woken>, now: int)
    requires NoneOverdue(line, now - 1) && Punctual(log) && Past(log, now - 1)
    ensures NoneOverdue(Later(line, now), now)
    ensures Punctual(log + Logged(Due(line, now), now)) && Past(log + Logged(Due(line, now), now), now)
  {
    TickParts(line, now);
    var due, later := Due(line, now), Later(line, now);
    forall s | s in line ensures s.since <= now - 1 && (s.wake > now - 1 || s.since == now - 1) {
      var i :| 0 <= i < |line| && line[i] == s;
    }
    assert forall i :: 0 <= i < |due| ==> due[i] in line;
    assert forall i :: 0 <= i < |later| ==> later[i] in line;
  }

  /** From an empty clock: every sleep begun is ended or under way, and those that ended did so on time. */
  lemma {:induction false} RunKeeps(m: Model, events: seq<Event>)
    requires m.line == [] && m.log == []
    ensures OnTime(Steps(m, events)) && AllSleeps(Steps(m, events)) == multiset(Begun(m, events))
  {
    if events != [] {
      var n := |events| - 1;
      RunKeeps(m, events[..n]);
      StepKeeps(Steps(m, events[..n]), events[n]);
    }
  }

  /** s is to wake before t, or at the same tick and began no later. */
  ghost predicate Precedes(s: Sleeper, t: Sleeper) {
    s.wake < t.wake || (s.wake == t.wake && s.since <= t.since)
  }

  ghost predicate InOrder(line: seq<Sleeper>) {
    forall i, j :: 0 <= i < j < |line| ==> Precedes(line[i], line[j])
  }

  /** Whoever was woken at the same tick was woken in order. */
  ghost predicate LogInOrder(log: seq<Woken>) {
    forall i, j :: 0 <= i < j < |log| ==>
      log[i].at < log[j].at || (log[i].at == log[j].at && Precedes(log[i].sleeper, log[j].sleeper))
  }

  lemma {:induction false} EnterInOrder(line: seq<Sleeper>, s: Sleeper)
    requires InOrder(line) && forall i :: 0 <= i < |line| ==> line[i].since <= s.since
    ensures InOrder(Enter(line, s))
  {
    if line != [] {
      var rest := Enter(line[1..], s);
      if line[0].wake <= s.wake {
        EnterInOrder(line[1..], s);
        EnterAdds(line[1..], s);
        forall j | 0 <= j < |rest|
          ensures Precedes(line[0], rest[j])
        {
          assert rest[j] in multiset(rest);
          assert rest[j] == s || rest[j] in line[1..];
        }
      }
    }
  }

  lemma {:induction false} TickInOrder(line: seq<Sleeper>, now: int)
    requires InOrder(line)
    ensures InOrder(Due(line, now)) && InOrder(Later(line, now))
  {
    if line != [] {
      TickInOrder(line[1..], now);
      TickParts(line[1..], now);
      var due, later := Due(line[1..], now), Later(line[1..], now);
      assert forall i :: 0 <= i < |due| ==> due[i] in line[1..] && Precedes(line[0], due[i]);
      assert forall i :: 0 <= i < |later| ==> later[i] in line[1..] && Precedes(line[0], later[i]);
    }
  }

  lemma StepInOrder(m: Model, e: Event)
    requires OnTime(m) && InOrder(m.line) && LogInOrder(m.log)
    ensures InOrder(Step(m, e).line) && LogInOrder(Step(m, e).log)
  {
    match e
    case Sleeps(t, duration) =>
      if !Asleep(m.line, t) {
        EnterInOrder(m.line, Sleeper(t, m.now + duration, m.now));
      }
    case Ticks =>
      TickInOrder(m.line, m.now + 1);
  }

  /** Sleeps end in the order of their ticks; those of one tick in the order of their wake times; and those of one wake
      time in the order in which they began. */
  lemma {:induction false} RunInOrder(m: Model, events: seq<Event>)
    requires m.line == [] && m.log == []
    ensures InOrder(Steps(m, events).line) && LogInOrder(Steps(m, events).log)
  {
    if events != [] {
      var n := |events| - 1;
      RunInOrder(m, events[..n]);
      RunKeeps(m, events[..n]);
      StepInOrder(Steps(m, events[..n]), events[n]);
    }
  }

  /** No two sleeps begun are the same, so each is ended at most once. */
  lemma {:induction false} BegunOnce(m: Model, events: seq<Event>)
    requires m.line == [] && m.log == []
    ensures Distinct(Begun(m, events))
  {
    if events != [] {
      var n := |events| - 1;
      BegunOnce(m, events[..n]);
      RunKeeps(m, events[..n]);
      BeginsAnew(Steps(m, events[..n]), events[n], Begun(m, events[..n]));
    }
  }

  lemma BeginsAnew(m: Model, e: Event, begun: seq<Sleeper>)
    requires OnTime(m) && AllSleeps(m) == multiset(begun) && Distinct(begun)
    ensures Distinct(begun + Beginning(m, e))
  {
    if Beginning(m, e) != [] {
      var s := Beginning(m, e)[0];
      NotBegunYet(m, s);
      assert s in begun ==> s in multiset(begun);
    }
  }

  lemma NotBegunYet(m: Model, s: Sleeper)
    requires Punctual(m.log) && Past(m.log, m.now) && s.since == m.now && !Asleep(m.line, s.thread)
    ensures s !in AllSleeps(m)
  {
    forall i | 0 <= i < |m.line| ensures m.line[i] != s {
      assert m.line[i].thread != s.thread;
    }
    forall i | 0 <= i < |m.log| ensures Sleepers(m.log)[i] != s {
      assert m.log[i].at >= m.log[i].sleeper.since + 1;
    }
  }

  /**
   * The promise of timer_sleep: of the sleeps that any run begins, all different, each has ended exactly once or is
   * still in line; each that has ended did so at its wake time, or at the tick after it began if that is later; and no
   * one in line is overdue.
   */
  lemma ExactlyOnce(events: seq<Event>, s: Sleeper)
    ensures var m, r, begun := Model(0, [], []), Steps(Model(0, [], []), events), Begun(Model(0, [], []), events);
            && Distinct(begun) && Punctual(r.log) && NoneOverdue(r.line, r.now)
            && multiset(Sleepers(r.log) + r.line) == multiset(begun)
            && (s in begun ==> multiset(Sleepers(r.log) + r.line)[s] == 1)
  {
    var m := Model(0, [], []);
    RunKeeps(m, events);
    BegunOnce(m, events);
    var begun := Begun(m, events);
    if s in begun {
      CountedOnce(begun, s);
    }
  }

  lemma CountedOnce(b: seq<Sleeper>, s: Sleeper)
    requires Distinct(b) && s in b
    ensures multiset(b)[s] == 1
  {
    var i :| 0 <= i < |b| && b[i] == s;
    assert b == b[..i] + [s] + b[i + 1..];
    assert s !in b[..i] && s !in b[i + 1..];
  }
}
