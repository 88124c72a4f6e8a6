/** Sessions on the real wheel: what a worker's sessions do to it, against the run-level model. */
module TimerHosts {
  import opened WheelSpec
  import WheelTime
  import opened SessionTimers
  import opened TimeWheels

  class TimerHost {
    const wheel: TimeWheel
    var closed: set<Node>              // sessions whose sessionClose_ is set
    ghost var state: Timers<Node>

    ghost predicate Valid()
      reads this, wheel, wheel.heads, wheel.Repr
    {
      && wheel.Valid()
      && Inv(state)
      && state.timed.wheel == wheel.View()
      && state.closed == closed
    }

    constructor ()
      ensures Valid() && fresh(wheel) && fresh(wheel.heads) && wheel.Repr == {} && state == Empty()
    {
      wheel := new TimeWheel();
      closed := {};
      state := Empty();
      new;
      EmptyInv<Node>();
    }

    /** The nodes linked into the wheel are the sessions started and not closed. */
    lemma OnWheelIffOpen(node: Node)
      requires Valid()
      ensures node in wheel.Repr <==> node in state.started && node !in state.closed
      ensures node in wheel.Repr ==> node.slot == state.timed.due[node] % LENGTH
    {
      var due := state.timed.due;
      if node in wheel.Repr {
        var i :| 0 <= i < |wheel.slots[node.slot]| && wheel.slots[node.slot][i] == node;
        assert state.timed.wheel.slots[node.slot][i] in due;
      }
      if node in due {
        assert node in wheel.slots[due[node] % LENGTH];
      }
    }

    /** `start`: mount by the clock value `ikcp_check` returned. */
    method Start(node: Node, next: uint32)
      requires Valid() && node !in state.started && node !in wheel.heads
      modifies this, wheel, wheel.heads`next, wheel.Repr, node
      ensures Valid() && state == Next(old(state), Event.Start(node, next))
    {
      OnWheelIffOpen(node);
      NextKeepsInv(state, Event.Start(node, next));
      wheel.MountTask(node, next);
      state := Next(state, Event.Start(node, next));
    }

    /** The 3 ms timer: every due session is driven and remounted by its KCP clock. */
    method OnTimer(clock: Node -> uint32, check: Node -> uint32) returns (fired: seq<Node>)
      requires Valid()
      modifies this, wheel, wheel.heads`next, wheel.Repr
      ensures Valid() && state == Next(old(state), Tick(clock, check))
      ensures forall n :: n in fired <==> n in old(state.timed.due) && old(state.timed.due)[n] == old(state.timed.now)
      ensures forall n, d | n in fired && After(clock(n), check(n), d) ::
                && n in wheel.Repr
                && state.timed.due[n] == WheelTime.DueInside(old(state.timed.now), if d < 1 then 1 else d)
    {
      NextKeepsInv(state, Tick(clock, check));
      WheelTime.TickFiresDue(state.timed);
      fired := wheel.DoCurrentTimeWheel(Answer(clock, check));
      ghost var before := state;
      state := Next(state, Tick(clock, check));
      forall n, d | n in fired && After(clock(n), check(n), d)
        ensures n in wheel.Repr
        ensures state.timed.due[n] == WheelTime.DueInside(before.timed.now, if d < 1 then 1 else d)
      {
        DueAgain(before, clock, check, n, d);
        OnWheelIffOpen(n);
      }
    }

    /** `closeSession`: unmount once; a session on the wheel is what `removeTask` is given. */
    method Close(node: Node)
      requires Valid() && node in state.started
      modifies this, wheel, wheel.heads`next, wheel.Repr
      ensures Valid() && state == Next(old(state), Event.Close(node)) && node in closed
    {
      NextKeepsInv(state, Event.Close(node));
      if node !in closed {
        OnWheelIffOpen(node);
        closed := closed + {node};
        wheel.RemoveTask(node);
        state := Next(state, Event.Close(node));
      }
    }
  }
}
