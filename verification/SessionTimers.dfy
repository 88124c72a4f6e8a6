/** Sessions on the wheel: start mounts, the KCP driver asks to be called again, close removes. */
module SessionTimers {
  import opened Sequences
  import opened WheelSpec
  import opened WheelTime

  const TWO31 := 0x8000_0000
  const TWO32 := 0x1_0000_0000

  /** `driveSessionTimeClock`: the delay until `next`, by a signed 32-bit difference. */
  function Drive(now: uint32, next: uint32): uint32 {
    var wrapped := (next - now) % TWO32;
    var diff := if wrapped < TWO31 then wrapped else wrapped - TWO32;
    if diff <= 0 then 1 else diff
  }

  /** Across any wrap of the 32-bit clock the driver asks for the true delay, and never for 0. */
  lemma DriveExact(now: uint32, delay: int)
    requires -TWO31 <= delay < TWO31
    ensures Drive(now, (now + delay) % TWO32) == if delay < 1 then 1 else delay
  {
    assert ((now + delay) % TWO32 - now) % TWO32 == delay % TWO32 by {
      var q := (now + delay) / TWO32;
      assert (now + delay) % TWO32 - now == delay - q * TWO32;
    }
  }

  datatype Timers<!T> = Timers(timed: Timed<T>, started: set<T>, closed: set<T>)

  datatype Event<!T> =
    | Start(x: T, next: uint32)
    | Tick(clock: T -> uint32, check: T -> uint32)
    | Close(x: T)

  /** Handlers, and so closes, exist only for sessions that were started. */
  predicate Enabled<T(==)>(s: Timers<T>, e: Event<T>) {
    match e
    case Start(x, _) => x !in s.started
    case Tick(_, _) => true
    case Close(x) => x in s.started
  }

  /** A session is on the wheel, exactly once, iff it is started and not closed. */
  predicate Inv<T(==)>(s: Timers<T>) {
    WheelTime.Inv(s.timed) && s.timed.due.Keys == s.started - s.closed && s.closed <= s.started
  }

  function Answer<T>(clock: T -> uint32, check: T -> uint32): T -> uint32 {
    x => Drive(clock(x), check(x))
  }

  /** `closeSession` unmounts under its guard; the precondition of `removeTask` is the membership. */
  function Next<T(==)>(s: Timers<T>, e: Event<T>): Timers<T>
    requires Inv(s) && Enabled(s, e)
  {
    match e
    case Start(x, next) => s.(timed := Step(s.timed, MountOp(x, next)), started := s.started + {x})
    case Tick(clock, check) => s.(timed := Step(s.timed, TickOp(Answer(clock, check))))
    case Close(x) =>
      if x in s.closed then s
      else s.(timed := Step(s.timed, RemoveOp(x)), closed := s.closed + {x})
  }

  /** A tick keeps every task on the wheel if and only if no fired callback answers 0. */
  lemma TickKeepsMembers<T>(t: Timed<T>, answer: T -> uint32)
    requires WheelTime.Inv(t)
    ensures Step(t, TickOp(answer)).due.Keys == t.due.Keys <==>
            forall x | x in t.due && t.due[x] == t.now :: answer(x) > 0
  {
    TickFiresDue(t);
    var after := Step(t, TickOp(answer)).due;
    assert forall x | x in t.due && t.due[x] == t.now :: x in after <==> answer(x) > 0;
    assert forall x | x in t.due && t.due[x] != t.now :: x in after;
    assert after.Keys <= t.due.Keys;
  }

  lemma NextKeepsInv<T>(s: Timers<T>, e: Event<T>)
    requires Inv(s) && Enabled(s, e)
    ensures Inv(Next(s, e))
  {
    match e
    case Start(x, next) => StepKeepsInv(s.timed, MountOp(x, next));
    case Tick(clock, check) =>
      StepKeepsInv(s.timed, TickOp(Answer(clock, check)));
      TickKeepsMembers(s.timed, Answer(clock, check));
    case Close(x) =>
      if x !in s.closed {
        StepKeepsInv(s.timed, RemoveOp(x));
      }
  }

  /** KCP's next update at `next` is `d` ms after the clock value `now`, whatever wraps in between. */
  predicate After(now: uint32, next: uint32, d: int) {
    -TWO31 <= d < TWO31 && next == (now + d) % TWO32
  }

  /** When a tick lets a session be driven again: `max(1, d)` ms later, where `d` is the time from its
      clock to its KCP's next update; and a start mounts by the number it is given. */
  lemma DueAgain<T>(s: Timers<T>, clock: T -> uint32, check: T -> uint32, x: T, d: int)
    requires Inv(s) && x in s.timed.due && s.timed.due[x] == s.timed.now && After(clock(x), check(x), d)
    ensures var due := Next(s, Tick(clock, check)).timed.due;
      x in due && due[x] == DueInside(s.timed.now, if d < 1 then 1 else d)
  {
    TickFiresDue(s.timed);
    DriveExact(clock(x), d);
  }

  lemma DueFirst<T>(s: Timers<T>, x: T, next: uint32)
    requires Inv(s) && x !in s.started
    ensures var due := Next(s, Start(x, next)).timed.due;
      x in due && due[x] == DueBetween(s.timed.now, next)
  {
  }

  predicate Legal<T(==)>(s: Timers<T>, es: seq<Event<T>>)
    requires Inv(s)
    decreases |es|
  {
    es == [] || (Enabled(s, es[0]) && (NextKeepsInv(s, es[0]); Legal(Next(s, es[0]), es[1..])))
  }

  function Run<T(==)>(s: Timers<T>, es: seq<Event<T>>): Timers<T>
    requires Inv(s) && Legal(s, es)
    decreases |es|
  {
    if es == [] then s else NextKeepsInv(s, es[0]); Run(Next(s, es[0]), es[1..])
  }

  function Empty<T(==)>(): Timers<T> {
    Timers(Timed(Idle(), 0, map[]), {}, {})
  }

  lemma EmptyInv<T>()
    ensures Inv(Empty<T>())
  {
  }

  /** How often a session occurs in the wheel. */
  function Occurrences<T(==)>(slots: seq<seq<T>>, x: T): nat {
    if slots == [] then 0 else multiset(slots[0])[x] + Occurrences(slots[1..], x)
  }

  /** What a run starts and closes. */
  lemma {:induction false} RunStartsCloses<T>(s: Timers<T>, es: seq<Event<T>>, x: T)
    requires Inv(s) && Legal(s, es)
    ensures x in Run(s, es).started <==> x in s.started || exists i | 0 <= i < |es| :: es[i].Start? && es[i].x == x
    ensures x in Run(s, es).closed <==> x in s.closed || Close(x) in es
    decreases |es|
  {
    if es == [] {
      assert Run(s, es) == s;
    } else {
      NextKeepsInv(s, es[0]);
      RunStartsCloses(Next(s, es[0]), es[1..], x);
      assert forall i | 1 <= i < |es| :: es[i] == es[1..][i - 1];
      assert forall i | 0 <= i < |es| - 1 :: es[1..][i] == es[i + 1];
    }
  }

  /** From the start: a session is on the wheel exactly once if the run started it and did not close it,
      and not at all otherwise. */
  lemma OnWheelExactly<T>(es: seq<Event<T>>, x: T)
    requires Inv(Empty<T>()) && Legal(Empty<T>(), es)
    ensures Occurrences(Run(Empty<T>(), es).timed.wheel.slots, x) ==
            if (exists i | 0 <= i < |es| :: es[i].Start? && es[i].x == x) && Close(x) !in es then 1 else 0
  {
    MembershipAlways(Empty<T>(), es, x);
    RunStartsCloses(Empty<T>(), es, x);
  }

  /** Over every run of starts, ticks and closes, a session is in the wheel exactly once while
      it is started and open, and not at all otherwise. */
  lemma {:induction false} MembershipAlways<T>(s: Timers<T>, es: seq<Event<T>>, x: T)
    requires Inv(s) && Legal(s, es)
    ensures var r := Run(s, es);
      && Inv(r)
      && Occurrences(r.timed.wheel.slots, x) == (if x in r.started && x !in r.closed then 1 else 0)
    decreases |es|
  {
    if es != [] {
      NextKeepsInv(s, es[0]);
      MembershipAlways(Next(s, es[0]), es[1..], x);
    } else if x in s.timed.due {
      OccursOnce(s.timed.wheel.slots, x, s.timed.due[x] % LENGTH);
    } else {
      OccursNever(s.timed.wheel.slots, x);
    }
  }

  lemma {:induction false} OccursNever<T>(slots: seq<seq<T>>, x: T)
    requires forall s | 0 <= s < |slots| :: x !in slots[s]
    ensures Occurrences(slots, x) == 0
  {
    if slots == [] {
    } else {
      OccursNever(slots[1..], x);
    }
  }

  lemma {:induction false} CountNoDup<T>(xs: seq<T>, x: T)
    requires NoDup(xs)
    ensures multiset(xs)[x] == if x in xs then 1 else 0
  {
    if xs == [] {
    } else {
      CountNoDup(xs[1..], x);
      assert xs == [xs[0]] + xs[1..];
    }
  }

  lemma {:induction false} OccursOnce<T>(slots: seq<seq<T>>, x: T, s: nat)
    requires s < |slots| && x in slots[s] && NoDup(slots[s])
    requires forall t | 0 <= t < |slots| && t != s :: x !in slots[t]
    ensures Occurrences(slots, x) == 1
  {
    if s == 0 {
      CountNoDup(slots[0], x);
      OccursNever(slots[1..], x);
    } else {
      assert x !in slots[0];
      OccursOnce(slots[1..], x, s - 1);
    }
  }

  // ---------- when a session is driven ----------

  function TickCount<T>(es: seq<Event<T>>): nat {
    if es == [] then 0 else (if es[0].Tick? then 1 else 0) + TickCount(es[1..])
  }

  /** The number of the tick at which a run first drives `x`, read off the slots alone. */
  function FirstDriven<T(==)>(s: Timers<T>, es: seq<Event<T>>, x: T): int
    requires Inv(s) && Legal(s, es)
    decreases |es|
  {
    if es == [] then -1
    else if es[0].Tick? && x in s.timed.wheel.slots[s.timed.wheel.cursor] then s.timed.now
    else
      NextKeepsInv(s, es[0]);
      FirstDriven(Next(s, es[0]), es[1..], x)
  }

  lemma {:induction false} DrivenAtDue<T>(s: Timers<T>, es: seq<Event<T>>, x: T)
    requires Inv(s) && Legal(s, es) && x in s.timed.due
    requires forall i | 0 <= i < |es| :: es[i] != Close(x)
    ensures FirstDriven(s, es, x) == if s.timed.due[x] - s.timed.now < TickCount(es) then s.timed.due[x] else -1
    decreases |es|
  {
    if es == [] {
      DueSoon(s, x);
    } else {
      TickFiresDue(s.timed);
      NextKeepsInv(s, es[0]);
      DueSoon(s, x);
      if !(es[0].Tick? && x in s.timed.wheel.slots[s.timed.wheel.cursor]) {
        StaysDue(s, es[0], x);
        DrivenAtDue(Next(s, es[0]), es[1..], x);
      }
    }
  }

  lemma DueSoon<T>(s: Timers<T>, x: T)
    requires Inv(s) && x in s.timed.due
    ensures s.timed.now <= s.timed.due[x] < s.timed.now + LENGTH
  {
  }

  /** A session waits for its due tick, whatever happens to the others. */
  lemma StaysDue<T>(s: Timers<T>, e: Event<T>, x: T)
    requires Inv(s) && Enabled(s, e) && x in s.timed.due && e != Close(x)
    requires e.Tick? ==> s.timed.due[x] != s.timed.now
    ensures x in Next(s, e).timed.due && Next(s, e).timed.due[x] == s.timed.due[x]
    ensures Next(s, e).timed.now == s.timed.now + if e.Tick? then 1 else 0
  {
    TickFiresDue(s.timed);
  }

  /** KCP is driven on time: over every run, a session driven at tick `n`, whose KCP wants to be updated
      `d` ms later, is driven again exactly `max(1, d / 3)` ticks after that (unless it is closed
      first), when `d` is at most a revolution of the wheel. */
  lemma DrivenOnTime<T>(s: Timers<T>, clock: T -> uint32, check: T -> uint32, es: seq<Event<T>>, x: T, d: int)
    requires Inv(s) && x in s.timed.due && s.timed.due[x] == s.timed.now && After(clock(x), check(x), d)
    requires Inv(Next(s, Tick(clock, check))) && Legal(Next(s, Tick(clock, check)), es)
    requires forall i | 0 <= i < |es| :: es[i] != Close(x)
    requires d <= 3000 && TickCount(es) >= LENGTH
    ensures FirstDriven(Next(s, Tick(clock, check)), es, x) == s.timed.now + if d < 3 then 1 else d / 3
  {
    DueAgain(s, clock, check, x, d);
    DelayInMillis(s.timed.now, if d < 1 then 1 else d);
    var t := Next(s, Tick(clock, check));
    DueSoon(t, x);
    DrivenAtDue(t, es, x);
  }
}
