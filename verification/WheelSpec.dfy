/** The timing wheel as 1000 sequences of tasks (timeWheel/timeWheel.hpp). */
module WheelSpec {
  const LENGTH := 1000     // timeWheelLength_
  const DELTA := 3         // deltaTime_, in ms

  type uint32 = x: int | 0 <= x < 0x1_0000_0000

  datatype Wheel<!T> = Wheel(slots: seq<seq<T>>, cursor: nat)

  predicate Shape<T>(w: Wheel<T>) {
    |w.slots| == LENGTH && w.cursor < LENGTH
  }

  function Idle<T>(): Wheel<T> {
    Wheel(seq(LENGTH, _ => []), 0)
  }

  /** How many ticks `mountTask` makes of a delay. */
  function Ticks(next: uint32): nat {
    if next / DELTA < 1 then 1 else next / DELTA
  }

  function Target(cursor: nat, next: uint32): nat {
    (cursor + Ticks(next)) % LENGTH
  }

  function Mount<T>(w: Wheel<T>, x: T, next: uint32): Wheel<T>
    requires Shape(w)
  {
    var s := Target(w.cursor, next);
    w.(slots := w.slots[s := [x] + w.slots[s]])
  }

  function Without<T(==)>(xs: seq<T>, x: T): seq<T> {
    if xs == [] then [] else if xs[0] == x then xs[1..] else [xs[0]] + Without(xs[1..], x)
  }

  function Remove<T(==)>(w: Wheel<T>, s: nat, x: T): Wheel<T>
    requires Shape(w) && s < LENGTH
  {
    w.(slots := w.slots[s := Without(w.slots[s], x)])
  }

  /** Remount a fired task by the callback's answer; 0 means no more. */
  function Remount<T>(w: Wheel<T>, x: T, answer: T -> uint32): Wheel<T>
    requires Shape(w)
  {
    if answer(x) > 0 then Mount(w, x, answer(x)) else w
  }

  /** Fire the detached tasks in order. */
  function Fire<T>(w: Wheel<T>, xs: seq<T>, answer: T -> uint32): Wheel<T>
    requires Shape(w)
    decreases |xs|
  {
    if xs == [] then w
    else Fire(Remount(w, xs[0], answer), xs[1..], answer)
  }

  function Detach<T>(w: Wheel<T>): Wheel<T>
    requires Shape(w)
  {
    w.(slots := w.slots[w.cursor := []])
  }

  function Advance<T>(w: Wheel<T>): Wheel<T> {
    w.(cursor := if w.cursor + 1 >= LENGTH then 0 else w.cursor + 1)
  }

  function Tick<T>(w: Wheel<T>, answer: T -> uint32): Wheel<T>
    requires Shape(w)
  {
    Advance(Fire(Detach(w), w.slots[w.cursor], answer))
  }

  // ---------- exact meaning of a tick ----------

  /** The fired tasks remounted into slot `s`, in firing order. */
  function Landing<T>(xs: seq<T>, answer: T -> uint32, cursor: nat, s: nat): seq<T> {
    if xs == [] then []
    else if answer(xs[0]) > 0 && Target(cursor, answer(xs[0])) == s
      then [xs[0]] + Landing(xs[1..], answer, cursor, s)
    else Landing(xs[1..], answer, cursor, s)
  }

  function Reverse<T>(xs: seq<T>): seq<T> {
    if xs == [] then [] else Reverse(xs[1..]) + [xs[0]]
  }

  lemma {:induction false} FireExact<T>(w: Wheel<T>, xs: seq<T>, answer: T -> uint32, s: nat)
    requires Shape(w) && s < LENGTH
    ensures Shape(Fire(w, xs, answer)) && Fire(w, xs, answer).cursor == w.cursor
    ensures Fire(w, xs, answer).slots[s] == Reverse(Landing(xs, answer, w.cursor, s)) + w.slots[s]
    decreases |xs|
  {
    if xs == [] {
    } else {
      FireExact(Remount(w, xs[0], answer), xs[1..], answer, s);
      if answer(xs[0]) > 0 && Target(w.cursor, answer(xs[0])) == s {
        var tail := Landing(xs[1..], answer, w.cursor, s);
        assert ([xs[0]] + tail)[1..] == tail;
        assert (Reverse(tail) + [xs[0]]) + w.slots[s] == Reverse(tail) + ([xs[0]] + w.slots[s]);
      }
    }
  }

  /** After a tick every slot holds the entries that landed there, last fired first, in front of
      what it held before; the slot that fired held nothing, even if tasks landed in it again. */
  lemma TickExact<T>(w: Wheel<T>, answer: T -> uint32, s: nat)
    requires Shape(w) && s < LENGTH
    ensures var v := Tick(w, answer);
      && Shape(v) && v.cursor == (w.cursor + 1) % LENGTH
      && v.slots[s] == Reverse(Landing(w.slots[w.cursor], answer, w.cursor, s))
                       + (if s == w.cursor then [] else w.slots[s])
  {
    FireExact(Detach(w), w.slots[w.cursor], answer, s);
  }
}
