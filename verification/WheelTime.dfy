/** When the wheel fires: every mounted task has a due tick, fixed when it is mounted. */
module WheelTime {
  import opened Sequences
  import opened WheelSpec

  /** A wheel with the number of ticks completed and, as history, the due tick of each task. */
  datatype Timed<!T> = Timed(wheel: Wheel<T>, now: nat, due: map<T, nat>)

  /** The slots hold exactly the entries of `due`, each once, in the slot of its due tick,
      and every due tick is within one revolution from `lo`. */
  predicate Holds<T(==)>(slots: seq<seq<T>>, due: map<T, nat>, lo: nat) {
    && |slots| == LENGTH
    && (forall s, i | 0 <= s < LENGTH && 0 <= i < |slots[s]| ::
          slots[s][i] in due && due[slots[s][i]] % LENGTH == s)
    && (forall x | x in due :: lo <= due[x] < lo + LENGTH && x in slots[due[x] % LENGTH])
    && (forall s | 0 <= s < LENGTH :: NoDup(slots[s]))
  }

  predicate Inv<T(==)>(t: Timed<T>) {
    t.wheel.cursor == t.now % LENGTH && Holds(t.wheel.slots, t.due, t.now)
  }

  /** Due tick of a mount made between ticks, and of a remount made by tick `now` itself. */
  function DueBetween(now: nat, next: uint32): nat {
    now + Ticks(next) % LENGTH
  }

  function DueInside(now: nat, next: uint32): nat {
    now + 1 + (Ticks(next) - 1) % LENGTH
  }

  /** The delay asked for is the delay given exactly when it fits one revolution; a longer one
      is cut short by whole revolutions, and no task ever waits more than one. */
  lemma DelayExact(now: nat, next: uint32)
    ensures DueInside(now, next) == now + Ticks(next) <==> Ticks(next) <= LENGTH
    ensures DueBetween(now, next) == now + Ticks(next) <==> Ticks(next) < LENGTH
    ensures now < DueInside(now, next) <= now + LENGTH && now <= DueBetween(now, next) < now + LENGTH
  {
  }

  /** In milliseconds: a tick is 3 ms, and a delay of `ms`, up to the 3000 of a revolution, is `ms / 3`
      ticks; one below 3 ms is one tick. */
  lemma DelayInMillis(now: nat, ms: uint32)
    ensures ms < 3 ==> DueInside(now, ms) == now + 1 == DueBetween(now, ms)
    ensures 3 <= ms <= 3002 ==> DueInside(now, ms) == now + ms / 3
    ensures 3 <= ms < 3000 ==> DueBetween(now, ms) == now + ms / 3
    ensures DueInside(now, ms) <= now + 1000 && DueBetween(now, ms) < now + 1000
  {
  }

  lemma ModAdd(a: nat, b: nat)
    ensures (a + b % LENGTH) % LENGTH == (a + b) % LENGTH == (a % LENGTH + b) % LENGTH
  {
    assert a + b == a + b % LENGTH + b / LENGTH * LENGTH;
    assert a + b == a % LENGTH + b + a / LENGTH * LENGTH;
  }

  /** A task's due tick agrees with the slot `mountTask` puts it in. */
  lemma DueSlot(now: nat, next: uint32)
    ensures DueInside(now, next) % LENGTH == Target(now % LENGTH, next) == DueBetween(now, next) % LENGTH
  {
    ModAdd(now, Ticks(next));
    ModAdd(now + 1, Ticks(next) - 1);
  }

  /** The cursor sum and the tick count fit the source's 32-bit int. */
  lemma NoOverflow(cursor: nat, next: uint32)
    requires cursor < LENGTH
    ensures cursor + Ticks(next) < 0x8000_0000
  {
  }

  datatype Op<!T> = MountOp(x: T, next: uint32) | RemoveOp(x: T) | TickOp(answer: T -> uint32)

  predicate Legal<T(==)>(t: Timed<T>, op: Op<T>) {
    match op
    case MountOp(x, _) => x !in t.due
    case RemoveOp(x) => x in t.due
    case TickOp(_) => true
  }

  /** The due ticks given to what a tick fires. */
  function Renewed<T(==)>(xs: seq<T>, answer: T -> uint32, now: nat): map<T, nat> {
    map x | x in xs && answer(x) > 0 :: DueInside(now, answer(x))
  }

  function Waiting<T(==)>(due: map<T, nat>, now: nat): map<T, nat> {
    map x | x in due && due[x] != now :: due[x]
  }

  function Step<T(==)>(t: Timed<T>, op: Op<T>): Timed<T>
    requires Inv(t) && Legal(t, op)
  {
    match op
    case MountOp(x, next) =>
      t.(wheel := Mount(t.wheel, x, next), due := t.due[x := DueBetween(t.now, next)])
    case RemoveOp(x) =>
      t.(wheel := Remove(t.wheel, t.due[x] % LENGTH, x), due := t.due - {x})
    case TickOp(answer) =>
      t.(wheel := Tick(t.wheel, answer), now := t.now + 1,
         due := Waiting(t.due, t.now) + Renewed(t.wheel.slots[t.wheel.cursor], answer, t.now))
  }

  // ---------- the invariant ----------

  lemma InsertHolds<T>(slots: seq<seq<T>>, due: map<T, nat>, lo: nat, x: T, d: nat)
    requires Holds(slots, due, lo) && x !in due && lo <= d < lo + LENGTH
    ensures Holds(slots[d % LENGTH := [x] + slots[d % LENGTH]], due[x := d], lo)
  {
    var s := d % LENGTH;
    var after := slots[s := [x] + slots[s]];
    assert after[s][0] == x;
    forall y | y in due ensures y in after[due[y] % LENGTH] {
      var i :| 0 <= i < |slots[due[y] % LENGTH]| && slots[due[y] % LENGTH][i] == y;
      if due[y] % LENGTH == s {
        assert after[s][i + 1] == y;
      }
    }
  }

  lemma {:induction false} WithoutExact<T>(xs: seq<T>, x: T)
    requires NoDup(xs)
    ensures NoDup(Without(xs, x))
    ensures forall i | 0 <= i < |Without(xs, x)| :: Without(xs, x)[i] in xs && Without(xs, x)[i] != x
    ensures forall y | y in xs && y != x :: y in Without(xs, x)
  {
    if xs == [] {
    } else {
      WithoutExact(xs[1..], x);
      assert xs == [xs[0]] + xs[1..];
      var rest := Without(xs[1..], x);
      if xs[0] != x {
        assert forall i | 0 <= i < |rest| :: rest[i] in rest;
      } else {
        assert forall i | 0 <= i < |xs[1..]| :: xs[1..][i] == xs[i + 1];
      }
    }
  }

  lemma RemoveHolds<T>(slots: seq<seq<T>>, due: map<T, nat>, lo: nat, x: T)
    requires Holds(slots, due, lo) && x in due
    ensures var s := due[x] % LENGTH; Holds(slots[s := Without(slots[s], x)], due - {x}, lo)
  {
    var s := due[x] % LENGTH;
    WithoutExact(slots[s], x);
    var after := slots[s := Without(slots[s], x)];
    forall t, i | 0 <= t < LENGTH && 0 <= i < |after[t]|
      ensures after[t][i] in due - {x} && due[after[t][i]] % LENGTH == t
    {
      var y := after[t][i];
      if t == s {
        assert y == Without(slots[s], x)[i];
        var k :| 0 <= k < |slots[s]| && slots[s][k] == y;
        assert slots[s][k] in due;
      } else {
        assert y == slots[t][i];
        assert slots[t][i] in due;
      }
    }
  }

  lemma OncePerRevolution(due: nat, now: nat)
    requires now <= due < now + LENGTH && due % LENGTH == now % LENGTH
    ensures due == now
  {
  }

  /** The slot under the cursor holds exactly what is due now, each once. */
  lemma TickFiresDue<T>(t: Timed<T>)
    requires Inv(t)
    ensures forall x :: x in t.wheel.slots[t.wheel.cursor] <==> x in t.due && t.due[x] == t.now
    ensures NoDup(t.wheel.slots[t.wheel.cursor])
  {
    var slot := t.wheel.slots[t.wheel.cursor];
    forall x ensures x in slot <==> x in t.due && t.due[x] == t.now {
      if x in slot {
        var i :| 0 <= i < |slot| && slot[i] == x;
        assert t.wheel.slots[t.wheel.cursor][i] in t.due;
        OncePerRevolution(t.due[x], t.now);
      }
    }
  }

  lemma DetachHolds<T>(t: Timed<T>)
    requires Inv(t)
    ensures Holds(Detach(t.wheel).slots, Waiting(t.due, t.now), t.now + 1)
  {
    TickFiresDue(t);
  }

  /** Who is due when, after the entries `xs` have fired. */
  predicate DueAfter<T(==)>(due: map<T, nat>, xs: seq<T>, answer: T -> uint32, now: nat, after: map<T, nat>, y: T) {
    if y in xs && answer(y) > 0 then y in after && after[y] == DueInside(now, answer(y))
    else (y in after <==> y in due) && (y in due ==> after[y] == due[y])
  }

  lemma RenewedAt<T>(due: map<T, nat>, xs: seq<T>, answer: T -> uint32, now: nat, y: T)
    ensures DueAfter(due, xs, answer, now, due + Renewed(xs, answer, now), y)
  {
  }

  lemma MapsEqual<T>(a: map<T, nat>, b: map<T, nat>)
    requires forall y :: (y in a <==> y in b) && (y in a && y in b ==> a[y] == b[y])
    ensures a == b
  {
    assert a.Keys == b.Keys;
  }

  /** Firing the first task renews its due tick before those of the others. */
  lemma RenewedCons<T>(xs: seq<T>, answer: T -> uint32, due: map<T, nat>, now: nat)
    requires xs != [] && NoDup(xs)
    ensures var first := if answer(xs[0]) > 0 then due[xs[0] := DueInside(now, answer(xs[0]))] else due;
      due + Renewed(xs, answer, now) == first + Renewed(xs[1..], answer, now)
  {
    var first := if answer(xs[0]) > 0 then due[xs[0] := DueInside(now, answer(xs[0]))] else due;
    var a, b := due + Renewed(xs, answer, now), first + Renewed(xs[1..], answer, now);
    forall y ensures (y in a <==> y in b) && (y in a && y in b ==> a[y] == b[y]) {
      RenewedAt(due, xs, answer, now, y);
      RenewedAt(first, xs[1..], answer, now, y);
      ConsMember(xs, y);
    }
    MapsEqual(a, b);
  }

  lemma ConsMember<T>(xs: seq<T>, y: T)
    requires xs != []
    ensures y in xs <==> y == xs[0] || y in xs[1..]
  {
    assert xs == [xs[0]] + xs[1..];
  }

  lemma {:induction false} FireHolds<T>(w: Wheel<T>, xs: seq<T>, answer: T -> uint32, due: map<T, nat>, now: nat)
    requires Holds(w.slots, due, now + 1) && w.cursor == now % LENGTH
    requires NoDup(xs) && forall x | x in xs :: x !in due
    ensures Holds(Fire(w, xs, answer).slots, due + Renewed(xs, answer, now), now + 1)
    ensures Fire(w, xs, answer).cursor == w.cursor
    decreases |xs|
  {
    if xs == [] {
      assert due + Renewed(xs, answer, now) == due;
    } else {
      var x, a := xs[0], answer(xs[0]);
      RenewedCons(xs, answer, due, now);
      assert x !in xs[1..];
      if a > 0 {
        DueSlot(now, a);
        DelayExact(now, a);
        InsertHolds(w.slots, due, now + 1, x, DueInside(now, a));
        FireHolds(Remount(w, x, answer), xs[1..], answer, due[x := DueInside(now, a)], now);
      } else {
        FireHolds(w, xs[1..], answer, due, now);
      }
    }
  }

  lemma TickHolds<T>(t: Timed<T>, answer: T -> uint32)
    requires Inv(t)
    ensures var fired := t.wheel.slots[t.wheel.cursor];
      var w := Fire(Detach(t.wheel), fired, answer);
      Holds(w.slots, Waiting(t.due, t.now) + Renewed(fired, answer, t.now), t.now + 1) && w.cursor == t.wheel.cursor
  {
    TickFiresDue(t);
    DetachHolds(t);
    FireHolds(Detach(t.wheel), t.wheel.slots[t.wheel.cursor], answer, Waiting(t.due, t.now), t.now);
  }

  lemma TickKeepsInv<T>(t: Timed<T>, answer: T -> uint32)
    requires Inv(t)
    ensures Inv(Step(t, TickOp(answer)))
  {
    TickHolds(t, answer);
    ModAdd(1, t.now);
  }

  lemma StepKeepsInv<T>(t: Timed<T>, op: Op<T>)
    requires Inv(t) && Legal(t, op)
    ensures Inv(Step(t, op))
  {
    match op
    case MountOp(x, next) =>
      DueSlot(t.now, next);
      DelayExact(t.now, next);
      InsertHolds(t.wheel.slots, t.due, t.now, x, DueBetween(t.now, next));
    case RemoveOp(x) =>
      RemoveHolds(t.wheel.slots, t.due, t.now, x);
    case TickOp(answer) => TickKeepsInv(t, answer);
  }

  // ---------- whole runs ----------

  predicate LegalRun<T(==)>(t: Timed<T>, ops: seq<Op<T>>)
    requires Inv(t)
    decreases |ops|
  {
    ops == [] || (Legal(t, ops[0]) && (StepKeepsInv(t, ops[0]); LegalRun(Step(t, ops[0]), ops[1..])))
  }

  function TickCount<T>(ops: seq<Op<T>>): nat {
    if ops == [] then 0 else (if ops[0].TickOp? then 1 else 0) + TickCount(ops[1..])
  }

  /** The number of the tick at which a run first fires `x`, read off the slots alone. */
  function FirstFiring<T(==)>(t: Timed<T>, ops: seq<Op<T>>, x: T): (r: int)
    requires Inv(t) && LegalRun(t, ops)
    decreases |ops|
  {
    if ops == [] then -1
    else if ops[0].TickOp? && x in t.wheel.slots[t.wheel.cursor] then t.now
    else
      StepKeepsInv(t, ops[0]);
      FirstFiring(Step(t, ops[0]), ops[1..], x)
  }

  /** Whatever else is mounted, removed and fired meanwhile, a task that is not removed first
      fires at exactly its due tick, as soon as the run is long enough. */
  lemma {:induction false} FiresAtDue<T>(t: Timed<T>, ops: seq<Op<T>>, x: T)
    requires Inv(t) && LegalRun(t, ops) && x in t.due
    requires forall i | 0 <= i < |ops| :: ops[i] != RemoveOp(x)
    ensures FirstFiring(t, ops, x) == if t.due[x] - t.now < TickCount(ops) then t.due[x] else -1
    decreases |ops|
  {
    if ops == [] {
    } else {
      TickFiresDue(t);
      StepKeepsInv(t, ops[0]);
      if !(ops[0].TickOp? && x in t.wheel.slots[t.wheel.cursor]) {
        FiresAtDue(Step(t, ops[0]), ops[1..], x);
      }
    }
  }

  /** A task that is not mounted does not fire, however long the run, until it is mounted again. */
  lemma {:induction false} NotMountedNeverFires<T>(t: Timed<T>, ops: seq<Op<T>>, x: T)
    requires Inv(t) && LegalRun(t, ops) && x !in t.due
    requires forall i | 0 <= i < |ops| :: !(ops[i].MountOp? && ops[i].x == x)
    ensures FirstFiring(t, ops, x) == -1
    decreases |ops|
  {
    if ops == [] {
    } else {
      TickFiresDue(t);
      StepKeepsInv(t, ops[0]);
      NotMountedNeverFires(Step(t, ops[0]), ops[1..], x);
    }
  }

  /** In particular one that was removed. */
  lemma RemovedNeverFires<T>(t: Timed<T>, x: T, ops: seq<Op<T>>)
    requires Inv(t) && x in t.due
    requires Inv(Step(t, RemoveOp(x))) && LegalRun(Step(t, RemoveOp(x)), ops)
    requires forall i | 0 <= i < |ops| :: !(ops[i].MountOp? && ops[i].x == x)
    ensures FirstFiring(Step(t, RemoveOp(x)), ops, x) == -1
  {
    NotMountedNeverFires(Step(t, RemoveOp(x)), ops, x);
  }

  /** A remounted task fires next exactly `Ticks(answer)` ticks after it fired, provided that
      is at most a revolution (and a revolution or less in any case). */
  lemma RemountPeriod<T>(t: Timed<T>, answer: T -> uint32, ops: seq<Op<T>>, x: T)
    requires Inv(t) && x in t.due && t.due[x] == t.now && answer(x) > 0
    requires Inv(Step(t, TickOp(answer))) && LegalRun(Step(t, TickOp(answer)), ops)
    requires forall i | 0 <= i < |ops| :: ops[i] != RemoveOp(x)
    requires TickCount(ops) >= LENGTH
    ensures var next := FirstFiring(Step(t, TickOp(answer)), ops, x);
      && t.now < next <= t.now + LENGTH
      && (next == t.now + Ticks(answer(x)) <==> Ticks(answer(x)) <= LENGTH)
  {
    TickFiresDue(t);
    DelayExact(t.now, answer(x));
    FiresAtDue(Step(t, TickOp(answer)), ops, x);
  }

  /** A first mount fires within one revolution whatever number is passed as its delay: `start`
      passes the absolute clock value `ikcp_check` returns, not a delay. */
  lemma FirstMountWithinRevolution<T>(t: Timed<T>, x: T, next: uint32, ops: seq<Op<T>>)
    requires Inv(t) && x !in t.due
    requires Inv(Step(t, MountOp(x, next))) && LegalRun(Step(t, MountOp(x, next)), ops)
    requires forall i | 0 <= i < |ops| :: ops[i] != RemoveOp(x)
    requires TickCount(ops) >= LENGTH
    ensures t.now <= FirstFiring(Step(t, MountOp(x, next)), ops, x) < t.now + LENGTH
  {
    DelayExact(t.now, next);
    FiresAtDue(Step(t, MountOp(x, next)), ops, x);
  }
}
