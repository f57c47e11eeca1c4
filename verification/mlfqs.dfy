/**
 * The multi-level feedback queue arithmetic (threads/fixedpoint.h; thread_tick, thread_create and thread_set_nice in
 * threads/thread.c). Every value is a 32-bit integer: that no step leaves the type is that no step overflows.
 */
module Mlfqs {
  import opened Definitions
  import opened Division
  import opened Wrappers

  const INT_MAX: int := 0x7FFF_FFFF
  type Int32 = x: int | -INT_MAX - 1 <= x <= INT_MAX

  predicate Fits(x: int) {
    -INT_MAX - 1 <= x <= INT_MAX
  }

  // ---- 20.12 fixed point ----

  const F: int := 4096
  const HF: int := 2048

  function Float(i: Int32): Int32
    requires Fits(i * F)
  {
    i * F
  }

  function Round0(f: Int32): Int32 {
    TruncDiv(f, F)
  }

  function Round(f: Int32): Int32
    requires Fits(f + HF) && Fits(f - HF)
  {
    if f > 0 then Round0(f + HF) else Round0(f - HF)
  }

  function AddF(f1: Int32, f2: Int32): Int32
    requires Fits(f1 + f2)
  {
    f1 + f2
  }

  function SubF(f1: Int32, f2: Int32): Int32
    requires Fits(f1 - f2)
  {
    f1 - f2
  }

  lemma ProductFits(a: Int32, b: Int32)
    ensures -B63 <= a * b < B63
  {
    ProductBound(Abs(a), Abs(b), INT_MAX + 1);
    assert Abs(a) * Abs(b) == a * b || Abs(a) * Abs(b) == -(a * b);
  }

  lemma ProductBound(a: int, b: int, m: int)
    requires 0 <= a <= m && 0 <= b <= m
    ensures 0 <= a * b <= m * m
  {
    assert a * b <= m * b <= m * m;
  }

  /** The product is formed in 64 bits. */
  function Product(a: Int32, b: Int32): Int64 {
    ProductFits(a, b);
    a * b
  }

  function MulF(f1: Int32, f2: Int32): Int32
    requires Fits(TruncDiv(Product(f1, f2), F))
  {
    TruncDiv(Product(f1, f2), F)
  }

  function DivF(f1: Int32, f2: Int32): Int32
    requires f2 != 0 && Fits(TruncDiv(Product(f1, F), f2))
  {
    TruncDiv(Product(f1, F), f2)
  }

  function AddI(f: Int32, i: Int32): Int32
    requires Fits(i * F) && Fits(f + i * F)
  {
    AddF(f, Float(i))
  }

  function MulI(f: Int32, i: Int32): Int32
    requires Fits(f * i)
  {
    f * i
  }

  function DivI(f: Int32, i: Int32): Int32
    requires i != 0 && Fits(TruncDiv(f, i))
  {
    TruncDiv(f, i)
  }

  // ---- bounds ----

  /** The largest number of threads considered. */
  const MAX_THREADS: nat := 2000

  /** The bounds on recent_cpu right after an update, for n threads. */
  function Low(n: nat): int { -20 * F * (2 * n + 1) }
  function High(n: nat): int { 120 * F * (2 * n + 1) }

  const FRAC59: Int32 := 4027
  const FRAC01: Int32 := 68

  /** What thread_init computes for the two constants. */
  lemma Fractions()
    ensures DivI(Float(59), 60) == FRAC59 && DivI(Float(1), 60) == FRAC01
  {
  }

  /** Division by F rounds toward zero and keeps signs. */
  lemma DivideByF(x: int)
    ensures x >= 0 ==> 0 <= TruncDiv(x, F) && TruncDiv(x, F) * F <= x < (TruncDiv(x, F) + 1) * F
    ensures x <= 0 ==> TruncDiv(x, F) <= 0 && x <= TruncDiv(x, F) * F < x + F
  {
  }

  /** Rounding gives the nearest integer. */
  lemma RoundIs(f: Int32)
    requires Fits(f + HF) && Fits(f - HF)
    ensures -HF <= F * Round(f) - f <= HF
  {
    DivideByF(f + HF);
    DivideByF(f - HF);
  }

  lemma RoundMonotone(f: Int32, g: Int32)
    requires f <= g && Fits(f + HF) && Fits(f - HF) && Fits(g + HF) && Fits(g - HF)
    ensures Round(f) <= Round(g)
  {
    DivideByF(f + HF);
    DivideByF(f - HF);
    DivideByF(g + HF);
    DivideByF(g - HF);
  }

  predicate LoadOk(load: int, n: nat) {
    0 <= load <= F * n
  }

  /** The load average stays within the number of threads. */
  lemma LoadStep(load: Int32, busy: nat, n: nat)
    requires n <= MAX_THREADS && LoadOk(load, n) && busy <= n
    ensures Fits(TruncDiv(Product(FRAC59, load), F)) && Fits(FRAC01 * busy)
    ensures Fits(MulF(FRAC59, load) + FRAC01 * busy) && LoadOk(MulF(FRAC59, load) + FRAC01 * busy, n)
  {
    DivideByF(FRAC59 * load);
  }

  /** The decay factor is at most 2n / (2n + 1). */
  lemma Decay(load: Int32, n: nat)
    requires n <= MAX_THREADS && LoadOk(load, n)
    ensures Fits(load * 2) && Fits(load * 2 + F)
    ensures Fits(TruncDiv(Product(load * 2, F), load * 2 + F))
    ensures 0 <= DivF(load * 2, load * 2 + F) <= F && DivF(load * 2, load * 2 + F) * (2 * n + 1) <= 2 * n * F
  {
    var d := 2 * load + F;
    var c := (2 * load * F) / d;
    assert c * d <= 2 * load * F;
    DecayBound(load, n, c);
    DivideOut(c, F, 2 * n + 1);
  }

  lemma DecayBound(load: int, n: nat, c: int)
    requires LoadOk(load, n) && c >= 0 && c * (2 * load + F) <= 2 * load * F
    ensures c * (2 * n + 1) <= 2 * n * F
  {
    // (F - c)(2 load + F) >= F * F, and 2 load + F <= F (2n + 1).
    var gap := F - c;
    assert gap * (2 * load + F) >= F * F;
    assert gap > 0;
    assert gap * (2 * load + F) <= gap * (F * (2 * n + 1));
    assert F * (gap * (2 * n + 1)) >= F * F;
  }

  predicate RecentOk(recent: int, n: nat, since: nat) {
    Low(n) <= recent <= High(n) + F * since
  }

  /** One update of recent_cpu brings it back within the bounds, however it was raised by up to 100 ticks. */
  lemma RecentStep(c: int, recent: Int32, nice: int, n: nat)
    requires n <= MAX_THREADS && 0 <= c <= F && c * (2 * n + 1) <= 2 * n * F
    requires RecentOk(recent, n, 100) && -20 <= nice <= 20
    ensures Fits(TruncDiv(Product(c, recent), F))
    ensures Fits(MulF(c, recent) + nice * F) && RecentOk(MulF(c, recent) + nice * F, n, 0)
  {
    var q := TruncDiv(Product(c, recent), F);
    DivideByF(c * recent);
    QuotientBounds(c, recent, q, n);
    Monotone(n, MAX_THREADS, 240 * F);
  }

  lemma QuotientBounds(c: int, recent: int, q: int, n: nat)
    requires 0 <= c && c * (2 * n + 1) <= 2 * n * F && RecentOk(recent, n, 100)
    requires c * recent >= 0 ==> 0 <= q && q * F <= c * recent
    requires c * recent <= 0 ==> q <= 0 && c * recent <= q * F
    ensures Low(n) + 20 * F <= q <= High(n) - 20 * F
  {
    if recent >= 0 {
      Monotone(0, c, recent);
      UpperQuotient(c, recent, q, n);
      UpperArithmetic(q, n);
    } else {
      Monotone(0, c, -recent);
      LowerQuotient(c, recent, q, n);
      LowerArithmetic(q, n);
    }
  }

  lemma Monotone(a: int, b: int, k: int)
    requires a <= b && k >= 0
    ensures a * k <= b * k
  {
  }

  lemma UpperQuotient(c: int, recent: int, q: int, n: nat)
    requires 0 <= recent <= High(n) + 100 * F && c * (2 * n + 1) <= 2 * n * F && q * F <= c * recent
    ensures q * (2 * n + 1) <= 2 * n * (High(n) + 100 * F)
  {
    var m := 2 * n + 1;
    Monotone(q * F, c * recent, m);
    Monotone(c * m, 2 * n * F, recent);
    Exchange(q, m, F);
    Exchange(c, recent, m);
    Exchange(2 * n, F, recent);
    Scale(q * m, 2 * n * recent);
    Monotone(recent, High(n) + 100 * F, 2 * n);
  }

  lemma LowerQuotient(c: int, recent: int, q: int, n: nat)
    requires Low(n) <= recent <= 0 && c * (2 * n + 1) <= 2 * n * F && c * recent <= q * F
    ensures 2 * n * Low(n) <= q * (2 * n + 1)
  {
    var m := 2 * n + 1;
    Monotone(c * recent, q * F, m);
    Monotone(c * m, 2 * n * F, -recent);
    Exchange(q, m, F);
    Exchange(c, recent, m);
    Exchange(2 * n, F, recent);
    assert (c * m) * -recent == -((c * m) * recent) && (2 * n * F) * -recent == -((2 * n * F) * recent);
    Scale(2 * n * recent, q * m);
    Monotone(Low(n), recent, 2 * n);
  }

  lemma Exchange(a: int, b: int, c: int)
    ensures (a * b) * c == (a * c) * b
  {
  }

  lemma Scale(a: int, b: int)
    requires a * F <= b * F
    ensures a <= b
  {
  }

  lemma UpperArithmetic(q: int, n: nat)
    requires q * (2 * n + 1) <= 2 * n * (High(n) + 100 * F)
    ensures q + 20 * F <= High(n)
  {
    var m := 2 * n + 1;
    assert 2 * n * (High(n) + 100 * F) == m * (240 * n * F) + 200 * n * F;
    assert m * (High(n) - 20 * F) == m * (240 * n * F) + m * (100 * F);
    assert q * m <= m * (High(n) - 20 * F);
    DivideOut(q, High(n) - 20 * F, m);
  }

  lemma LowerArithmetic(q: int, n: nat)
    requires 2 * n * Low(n) <= q * (2 * n + 1)
    ensures Low(n) + 20 * F <= q
  {
    var m := 2 * n + 1;
    assert 2 * n * Low(n) == m * (-40 * n * F);
    DivideOut(-40 * n * F, q, m);
  }

  lemma DivideOut(a: int, b: int, m: int)
    requires m > 0 && a * m <= b * m
    ensures a <= b
  {
    if b < a {
      MulLt(b, a, m);
    }
  }

  // ---- the update ----

  const TIMER_FREQ: nat := 100

  datatype Thread = Thread(nice: Int32, recentCpu: Int32, nativePriority: Int32)

  ghost predicate ThreadOk(t: Thread, n: nat, since: nat) {
    RecentOk(t.recentCpu, n, since) && -20 <= t.nice <= 20 && PRI_MIN <= t.nativePriority <= PRI_MAX
  }

  ghost predicate AllOk(threads: seq<Thread>, n: nat, since: nat) {
    forall i :: 0 <= i < |threads| ==> ThreadOk(threads[i], n, since)
  }

  lemma QuarterFits(recent: Int32, n: nat)
    requires n <= MAX_THREADS && RecentOk(recent, n, 100)
    ensures -82_000_000 <= TruncDiv(recent, 4) <= 492_000_000
  {
    Monotone(n, MAX_THREADS, 240 * F);
    Monotone(n, MAX_THREADS, 40 * F);
  }

  /** p is PRI_MAX - recent_cpu / 4 - 2 * nice rounded, 4 F times all of it, kept between PRI_MIN and PRI_MAX. */
  ghost predicate PriorityIs(recent: int, nice: int, p: int) {
    var x := 4 * F * (PRI_MAX - 2 * nice) - recent;
    && PRI_MIN <= p <= PRI_MAX
    && (PRI_MIN < p ==> 4 * F * p <= x + 2 * F + 3)
    && (p < PRI_MAX ==> x - 2 * F - 3 <= 4 * F * p)
  }

  /** r is 59/60 of the load and 1/60 of the busy threads, 60 F times all of it, less what the fractions cut off. */
  ghost predicate LoadIs(load: int, busy: int, r: int) {
    0 <= F * (59 * load + F * busy - 60 * r) < 44 * load + 16 * F * busy + 60 * F
  }

  /** r is recent_cpu times 2 load / (2 load + 1), plus nice; what is cut off is less than recent_cpu / F and 1. */
  ghost predicate RecentIs(load: int, recent: int, nice: int, r: int) {
    var d := 2 * load + F;
    var lost := 2 * load * recent - d * (r - F * nice);
    && (recent >= 0 ==> 0 <= F * lost <= d * recent + d * F)
    && (recent <= 0 ==> 0 <= -(F * lost) <= d * -recent + d * F)
  }

  lemma LoadFollows(load: Int32, busy: nat, n: nat)
    requires n <= MAX_THREADS && LoadOk(load, n) && busy <= n
    ensures Fits(TruncDiv(Product(FRAC59, load), F)) && LoadIs(load, busy, MulF(FRAC59, load) + FRAC01 * busy)
  {
    LoadStep(load, busy, n);
    DivideByF(FRAC59 * load);
  }

  /** c falls short of 2 load F / d by less than one, and q of c recent / F by less than one. */
  lemma RecentFollows(load: Int32, c: int, recent: int, q: int, nice: int)
    requires load >= 0 && 0 <= c && c * (2 * load + F) <= 2 * load * F <= c * (2 * load + F) + 2 * load + F
    requires recent >= 0 ==> q * F <= c * recent <= q * F + F
    requires recent <= 0 ==> c * recent <= q * F <= c * recent + F
    ensures RecentIs(load, recent, nice, q + F * nice)
  {
    var d := 2 * load + F;
    var a := if recent >= 0 then recent else -recent;
    var b := if recent >= 0 then q else -q;
    assert c * a == if recent >= 0 then c * recent else -(c * recent);
    ShortBy(d, c, a, b, 2 * load);
    assert d * b == if recent >= 0 then d * q else -(d * q);
    assert 2 * load * a == if recent >= 0 then 2 * load * recent else -(2 * load * recent);
  }

  lemma ShortBy(d: int, c: int, a: int, b: int, twice: int)
    requires d > 0 && a >= 0 && c * d <= twice * F <= c * d + d && b * F <= c * a <= b * F + F
    ensures 0 <= F * (twice * a - d * b) <= d * a + d * F
  {
    Monotone(c * d, twice * F, a);
    Monotone(twice * F, c * d + d, a);
    Monotone(b * F, c * a, d);
    Monotone(c * a, b * F + F, d);
    Exchange(c, d, a);
    Exchange(twice, F, a);
    Exchange(b, F, d);
    assert (c * d + d) * a == (c * d) * a + d * a;
    assert (b * F + F) * d == (b * F) * d + F * d;
    assert F * (twice * a - d * b) == (twice * a) * F - (b * d) * F;
  }

  /** The priority formula before clamping. */
  function RawPriority(recent: Int32, nice: Int32, ghost n: nat): Int32
    requires n <= MAX_THREADS && RecentOk(recent, n, 100) && -20 <= nice <= 20
  {
    QuarterFits(recent, n);
    Round(SubF(Float(PRI_MAX), AddF(DivI(recent, 4), MulI(Float(nice), 2))))
  }

  function Priority(recent: Int32, nice: Int32, ghost n: nat): (p: Int32)
    requires n <= MAX_THREADS && RecentOk(recent, n, 100) && -20 <= nice <= 20
    ensures PriorityIs(recent, nice, p)
  {
    RawPriorityIs(recent, nice, n);
    Clamp(RawPriority(recent, nice, n), PRI_MIN, PRI_MAX)
  }

  lemma RawPriorityIs(recent: Int32, nice: Int32, n: nat)
    requires n <= MAX_THREADS && RecentOk(recent, n, 100) && -20 <= nice <= 20
    ensures -2 * F - 3 <= 4 * F * RawPriority(recent, nice, n) - (4 * F * (PRI_MAX - 2 * nice) - recent) <= 2 * F + 3
  {
    QuarterFits(recent, n);
    RoundIs(SubF(Float(PRI_MAX), AddF(DivI(recent, 4), MulI(Float(nice), 2))));
  }

  /** Using more of the processor, or being nicer, never raises a priority. */
  lemma PriorityMonotone(recent: Int32, nice: Int32, recent': Int32, nice': Int32, n: nat)
    requires n <= MAX_THREADS && RecentOk(recent, n, 100) && RecentOk(recent', n, 100)
    requires -20 <= nice <= nice' <= 20 && recent <= recent'
    ensures Priority(recent', nice', n) <= Priority(recent, nice, n)
  {
    QuarterFits(recent, n);
    QuarterFits(recent', n);
    RoundMonotone(SubF(Float(PRI_MAX), AddF(DivI(recent', 4), MulI(Float(nice'), 2))),
                  SubF(Float(PRI_MAX), AddF(DivI(recent, 4), MulI(Float(nice), 2))));
  }

  /** The per-second update of recent_cpu. */
  function Recent(load: Int32, t: Thread, ghost n: nat): (r: Int32)
    requires n <= MAX_THREADS && LoadOk(load, n) && ThreadOk(t, n, 100)
    ensures RecentOk(r, n, 0) && RecentIs(load, t.recentCpu, t.nice, r)
  {
    Decay(load, n);
    var c := DivF(MulI(load, 2), AddI(MulI(load, 2), 1));
    RecentStep(c, t.recentCpu, t.nice, n);
    CutOff(load, c, t.recentCpu);
    RecentFollows(load, c, t.recentCpu, MulF(c, t.recentCpu), t.nice);
    AddI(MulF(c, t.recentCpu), t.nice)
  }

  lemma CutOff(load: Int32, c: int, recent: int)
    requires 0 <= load && c == TruncDiv(2 * load * F, 2 * load + F)
    ensures 0 <= c && c * (2 * load + F) <= 2 * load * F <= c * (2 * load + F) + 2 * load + F
    ensures var q := TruncDiv(c * recent, F);
            (recent >= 0 ==> q * F <= c * recent <= q * F + F) && (recent <= 0 ==> c * recent <= q * F <= c * recent + F)
  {
    DivideByF(c * recent);
    if recent >= 0 {
      Monotone(0, c, recent);
    } else {
      Monotone(0, c, -recent);
    }
  }

  function AfterSecond(load: Int32, t: Thread, ghost n: nat): (r: Thread)
    requires n <= MAX_THREADS && LoadOk(load, n) && ThreadOk(t, n, 100)
    ensures ThreadOk(r, n, 0)
  {
    t.(recentCpu := Recent(load, t, n))
  }

  ghost predicate Decayed(load: Int32, before: seq<Thread>, after: seq<Thread>, n: nat)
    requires n <= MAX_THREADS && LoadOk(load, n) && AllOk(before, n, 100)
  {
    |after| == |before| && forall i :: 0 <= i < |after| ==> after[i] == AfterSecond(load, before[i], n)
  }

  /** recent_cpu after a tick: decayed if a second is up, then charged if the thread was running. */
  function RecentAfter(load: Int32, t: Thread, second: bool, running: bool, ghost n: nat): int
    requires n <= MAX_THREADS && LoadOk(load, n) && ThreadOk(t, n, 100)
  {
    (if second then Recent(load, t, n) else t.recentCpu) + (if running then F else 0)
  }

  /** One thread across one tick: the priority follows the new recent_cpu on every fourth. */
  ghost predicate AcrossTick(load: Int32, before: Thread, after: Thread, tick: nat, running: bool, n: nat)
    requires n <= MAX_THREADS && LoadOk(load, n) && ThreadOk(before, n, 100)
  {
    && ThreadOk(after, n, 100) && after.nice == before.nice
    && after.recentCpu == RecentAfter(load, before, tick % TIMER_FREQ == 0, running, n)
    && after.nativePriority == if tick % 4 == 0 then Priority(after.recentCpu, after.nice, n) else before.nativePriority
  }

  /** The per-second update of the load average, with `busy` threads ready or running. */
  function Load(load: Int32, busy: nat, ghost n: nat): (r: Int32)
    requires n <= MAX_THREADS && LoadOk(load, n) && busy <= n
    ensures LoadOk(r, n) && LoadIs(load, busy, r)
  {
    LoadStep(load, busy, n);
    LoadFollows(load, busy, n);
    AddF(MulF(FRAC59, load), MulI(FRAC01, busy))
  }

  /** load_avg, the threads of all_list, and the timer tick. At most n threads ever exist at once. */
  class FeedbackQueue {
    const n: nat
    var loadAvg: Int32
    var threads: seq<Thread>
    var tick: nat

    ghost predicate Valid()
      reads this
    {
      && |threads| <= n <= MAX_THREADS && LoadOk(loadAvg, n)
      && AllOk(threads, n, tick % TIMER_FREQ + 1)
    }

    /** thread_init with only the first thread. */
    constructor (n: nat)
      requires 1 <= n <= MAX_THREADS
      ensures Valid() && this.n == n && loadAvg == 0 && tick == 0 && threads == [Thread(0, 0, 31)]
    {
      this.n := n;
      loadAvg, tick := 0, 0;
      threads := [Thread(0, 0, 31)];
    }

    /** The once-a-second part of thread_tick: afterwards every recent_cpu is back within its bounds. */
    method EverySecond(busy: nat)
      requires |threads| <= n <= MAX_THREADS && LoadOk(loadAvg, n) && busy <= n
      requires AllOk(threads, n, 100)
      modifies this`loadAvg, this`threads
      ensures loadAvg == Load(old(loadAvg), busy, n)
      ensures AllOk(threads, n, 0) && Decayed(loadAvg, old(threads), threads, n)
      ensures LoadIs(old(loadAvg), busy, loadAvg)
      ensures forall i :: 0 <= i < |threads| ==>
                RecentIs(loadAvg, old(threads)[i].recentCpu, old(threads)[i].nice, threads[i].recentCpu)
    {
      loadAvg := Load(loadAvg, busy, n);
      DecayAll();
    }

    method DecayAll()
      requires n <= MAX_THREADS && LoadOk(loadAvg, n) && AllOk(threads, n, 100)
      modifies this`threads
      ensures AllOk(threads, n, 0) && Decayed(loadAvg, old(threads), threads, n)
    {
      for i := 0 to |threads|
        invariant |threads| == |old(threads)|
        invariant forall k :: 0 <= k < i ==> threads[k] == AfterSecond(loadAvg, old(threads)[k], n)
        invariant forall k :: i <= k < |threads| ==> threads[k] == old(threads)[k]
      {
        threads := threads[i := threads[i].(recentCpu := Recent(loadAvg, threads[i], n))];
      }
    }

    /** The every-fourth-tick part of thread_tick. */
    method EveryFourth()
      requires n <= MAX_THREADS && AllOk(threads, n, 100)
      modifies this`threads
      ensures |threads| == |old(threads)|
      ensures forall i :: 0 <= i < |threads| ==>
                threads[i] == old(threads)[i].(nativePriority := Priority(old(threads)[i].recentCpu, old(threads)[i].nice, n))
      ensures forall i :: 0 <= i < |threads| ==>
                PriorityIs(threads[i].recentCpu, threads[i].nice, threads[i].nativePriority)
    {
      for i := 0 to |threads|
        invariant |threads| == |old(threads)|
        invariant forall k :: 0 <= k < i ==>
                    threads[k] == old(threads)[k].(nativePriority := Priority(old(threads)[k].recentCpu, old(threads)[k].nice, n))
        invariant forall k :: i <= k < |threads| ==> threads[k] == old(threads)[k]
      {
        threads := threads[i := threads[i].(nativePriority := Priority(threads[i].recentCpu, threads[i].nice, n))];
      }
    }

    /** The running thread is charged one tick, unless it is the idle thread. */
    method Charge(cur: Option<nat>, ghost since: nat)
      requires n <= MAX_THREADS && since < 100 && (cur.Some? ==> cur.value < |threads|)
      requires AllOk(threads, n, since)
      modifies this`threads
      ensures AllOk(threads, n, since + 1)
      ensures cur.None? ==> threads == old(threads)
      ensures cur.Some? ==>
                threads == old(threads)[cur.value := old(threads[cur.value]).(recentCpu := old(threads[cur.value]).recentCpu + F)]
    {
      if cur.Some? {
        ChargeFits(threads[cur.value].recentCpu, n, since);
        threads := threads[cur.value := threads[cur.value].(recentCpu := AddI(threads[cur.value].recentCpu, 1))];
      }
    }

    /**
     * thread_tick under mlfqs, at the next timer tick; `cur` is the running thread, or none for the idle one.
     * No step of it overflows, and everything stays within its bounds.
     */
    method Tick(cur: Option<nat>, ready: nat)
      requires Valid() && (cur.Some? ==> cur.value < |threads|)
      requires ready + (if cur.Some? then 1 else 0) <= |threads|
      modifies this
      ensures Valid() && tick == old(tick) + 1 && |threads| == |old(threads)|
      ensures loadAvg == if tick % TIMER_FREQ == 0 then Load(old(loadAvg), ready + (if cur.Some? then 1 else 0), n) else old(loadAvg)
      ensures forall i :: 0 <= i < |threads| ==> AcrossTick(loadAvg, old(threads)[i], threads[i], tick, cur == Some(i), n)
    {
      tick := tick + 1;
      Account(cur, ready);
      if tick % 4 == 0 {
        EveryFourth();
      }
    }

    /** The part of thread_tick that updates load_avg and recent_cpu. */
    method Account(cur: Option<nat>, ready: nat)
      requires |threads| <= n <= MAX_THREADS && LoadOk(loadAvg, n) && (cur.Some? ==> cur.value < |threads|)
      requires ready + (if cur.Some? then 1 else 0) <= |threads|
      requires AllOk(threads, n, if tick % TIMER_FREQ == 0 then 100 else tick % TIMER_FREQ)
      modifies this`loadAvg, this`threads
      ensures |threads| == |old(threads)| && LoadOk(loadAvg, n) && AllOk(threads, n, tick % TIMER_FREQ + 1)
      ensures loadAvg == if tick % TIMER_FREQ == 0 then Load(old(loadAvg), ready + (if cur.Some? then 1 else 0), n) else old(loadAvg)
      ensures forall i :: 0 <= i < |threads| ==>
                && threads[i].recentCpu == RecentAfter(loadAvg, old(threads)[i], tick % TIMER_FREQ == 0, cur == Some(i), n)
                && threads[i].nice == old(threads)[i].nice && threads[i].nativePriority == old(threads)[i].nativePriority
    {
      if tick % TIMER_FREQ == 0 {
        EverySecond(if cur.None? then ready else ready + 1);
      }
      Charge(cur, tick % TIMER_FREQ);
    }

    /** thread_create: the child inherits its parent's niceness and recent_cpu. */
    method Create(parent: nat)
      requires Valid() && parent < |threads| < n
      modifies this`threads
      ensures Valid()
      ensures var p := old(threads)[parent];
              threads == old(threads) + [Thread(p.nice, p.recentCpu, Priority(p.recentCpu, p.nice, n))]
      ensures var t := threads[|old(threads)|]; PriorityIs(t.recentCpu, t.nice, t.nativePriority)
    {
      var p := threads[parent];
      threads := threads + [Thread(p.nice, p.recentCpu, Priority(p.recentCpu, p.nice, n))];
    }

    /** thread_set_nice. */
    method SetNice(i: nat, nice: Int32)
      requires Valid() && i < |threads|
      modifies this`threads
      ensures Valid()
      ensures var t, v := old(threads)[i], Clamp(nice, -20, 20);
              threads == old(threads)[i := Thread(v, t.recentCpu, Priority(t.recentCpu, v, n))]
      ensures PriorityIs(threads[i].recentCpu, threads[i].nice, threads[i].nativePriority)
    {
      var v := Clamp(nice, -20, 20);
      threads := threads[i := Thread(v, threads[i].recentCpu, Priority(threads[i].recentCpu, v, n))];
    }

    /** thread_exit takes the thread off all_list. */
    method Exit(i: nat)
      requires Valid() && i < |threads|
      modifies this`threads
      ensures Valid() && threads == old(threads)[..i] + old(threads)[i + 1..]
    {
      threads := threads[..i] + threads[i + 1..];
    }

    ghost function Snapshot(): Queue
      reads this
    {
      Queue(loadAvg, threads, tick)
    }

    /** One event, passed over if it cannot happen. */
    method Do(event: Event)
      requires Valid()
      modifies this
      ensures Valid() && Happened(n, old(Snapshot()), event, Snapshot()) == true
    {
      if !Possible(n, |threads|, event) {
        return;
      }
      match event
      case Ticked(cur, ready) => Tick(cur, ready);
      case Created(parent) => Create(parent);
      case Niced(i, nice) => SetNice(i, nice);
      case Exited(i) => Exit(i);
    }

    /**
     * Over any run of events each one updates the load average, recent_cpu and the priorities exactly as specified, and
     * all of them stay bounded throughout.
     */
    method Run(events: seq<Event>) returns (ghost trace: seq<Queue>)
      requires Valid()
      modifies this
      ensures Valid() && IsRun(n, trace, events)
      ensures trace[0] == old(Snapshot()) && trace[|events|] == Snapshot()
    {
      hide QueueOk, Happened, AllOk, LoadOk;
      trace := [Snapshot()];
      SnapshotOk();
      for k := 0 to |events|
        invariant Valid() && IsRun(n, trace, events[..k])
        invariant trace[0] == old(Snapshot()) && trace[k] == Snapshot()
      {
        Do(events[k]);
        SnapshotOk();
        trace := trace + [Snapshot()];
        assert events[..k + 1] == events[..k] + [events[k]];
      }
      assert events[..|events|] == events;
    }

    lemma SnapshotOk()
      requires Valid()
      ensures QueueOk(n, Snapshot())
    {
    }
  }

  datatype Event = Ticked(cur: Option<nat>, ready: nat) | Created(parent: nat) | Niced(i: nat, nice: Int32) | Exited(i: nat)

  datatype Queue = Queue(load: Int32, threads: seq<Thread>, tick: nat)

  ghost predicate QueueOk(n: nat, q: Queue) {
    |q.threads| <= n <= MAX_THREADS && LoadOk(q.load, n) && AllOk(q.threads, n, q.tick % TIMER_FREQ + 1)
  }

  /** Events are about threads that exist, with room for one more if one is created. */
  predicate Possible(n: nat, count: nat, event: Event) {
    match event
    case Ticked(cur, ready) => (cur.Some? ==> cur.value < count) && ready + (if cur.Some? then 1 else 0) <= count
    case Created(parent) => parent < count < n
    case Niced(i, nice) => i < count
    case Exited(i) => i < count
  }

  /** What one event does, exactly. */
  ghost predicate Happened(n: nat, a: Queue, event: Event, b: Queue)
    requires QueueOk(n, a)
  {
    if !Possible(n, |a.threads|, event) then b == a else
    match event
    case Ticked(cur, ready) =>
      && b.tick == a.tick + 1 && |b.threads| == |a.threads|
      && b.load == (if b.tick % TIMER_FREQ == 0 then Load(a.load, ready + (if cur.Some? then 1 else 0), n) else a.load)
      && forall i :: 0 <= i < |b.threads| ==> AcrossTick(b.load, a.threads[i], b.threads[i], b.tick, cur == Some(i), n)
    case Created(parent) =>
      var p := a.threads[parent];
      b == a.(threads := a.threads + [Thread(p.nice, p.recentCpu, Priority(p.recentCpu, p.nice, n))])
    case Niced(i, nice) =>
      var t, v := a.threads[i], Clamp(nice, -20, 20);
      b == a.(threads := a.threads[i := Thread(v, t.recentCpu, Priority(t.recentCpu, v, n))])
    case Exited(i) => b == a.(threads := a.threads[..i] + a.threads[i + 1..])
  }

  /** A run in which every state is within the bounds. */
  ghost predicate IsRun(n: nat, trace: seq<Queue>, events: seq<Event>) {
    && |trace| == |events| + 1
    && (forall i :: 0 <= i < |trace| ==> QueueOk(n, trace[i]))
    && forall i :: 0 <= i < |events| ==> Happened(n, trace[i], events[i], trace[i + 1])
  }

  /** The bounds, in numbers. */
  lemma RunBounded(n: nat, trace: seq<Queue>, events: seq<Event>, k: nat, i: nat)
    requires IsRun(n, trace, events) && k < |trace| && i < |trace[k].threads|
    ensures 0 <= trace[k].load <= F * n
    ensures Low(n) <= trace[k].threads[i].recentCpu <= High(n) + 100 * F
    ensures PRI_MIN <= trace[k].threads[i].nativePriority <= PRI_MAX && -20 <= trace[k].threads[i].nice <= 20
  {
    assert QueueOk(n, trace[k]);
    assert ThreadOk(trace[k].threads[i], n, trace[k].tick % TIMER_FREQ + 1);
  }

  /** Over a run, each tick follows the formulas that the documentation gives. */
  lemma RunFollows(n: nat, trace: seq<Queue>, events: seq<Event>, k: nat, i: nat)
    requires IsRun(n, trace, events) && k < |events| && events[k].Ticked? && Possible(n, |trace[k].threads|, events[k])
    requires i < |trace[k].threads|
    ensures var (a, b, cur) := (trace[k], trace[k + 1], events[k].cur);
            |b.threads| == |a.threads| && b.tick == a.tick + 1 &&
            var (t, u, charged) := (a.threads[i], b.threads[i], if cur == Some(i) then F else 0);
            && (if b.tick % 100 == 0
                then && LoadIs(a.load, events[k].ready + (if cur.Some? then 1 else 0), b.load)
                     && RecentIs(b.load, t.recentCpu, t.nice, u.recentCpu - charged)
                else b.load == a.load && u.recentCpu == t.recentCpu + charged)
            && if b.tick % 4 == 0 then PriorityIs(u.recentCpu, u.nice, u.nativePriority)
               else u.nativePriority == t.nativePriority
  {
    hide LoadIs, RecentIs, PriorityIs;
    assert QueueOk(n, trace[k]) && QueueOk(n, trace[k + 1]) && Happened(n, trace[k], events[k], trace[k + 1]);
  }

  lemma ChargeFits(recent: Int32, n: nat, since: nat)
    requires n <= MAX_THREADS && since < 100 && RecentOk(recent, n, since)
    ensures Fits(recent + F) && RecentOk(recent + F, n, since + 1)
  {
    Monotone(n, MAX_THREADS, 240 * F);
  }
}
