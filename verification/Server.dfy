/**
 Server shutdown: the native accept loop (src/server.rs:509-572) and the Python coroutine that waits
 for it and keeps cancellations away from it (pywire/server.py:87-135).

 A schedule lists, in any order and number, what happens while `serve` is pending: wake-ups of the
 native future, ends of connection tasks, and cancellations of the Python task.  Connections share no
 state, so the whole life of one is run where its task ends.  Tasks are taken not to panic: the loop
 would collect one that did like any other.
 */
module Server {
  import opened Wrappers
  import opened Ledger
  import Extended

  type Id = nat

  datatype Phase = Accepting | Joining | Succeeded | Failed

  /** `Shutdown(ok)` is the wait for the event returning, `Accept(ok, built)` a connection coming in,
      `Finish` a connection task ending after its cleanup, `Reap` the loop collecting such an end. */
  datatype Tick = Cancel | Shutdown(ok: bool) | Accept(ok: bool, built: bool) | Finish(id: Id) | Reap(id: Id)

  datatype Exit = Returned | RaisedCancelled | RaisedNative | Pending

  /** The state of the native loop, without what its connections did. */
  datatype Loop = Loop(
    phase: Phase, event: bool, running: set<Id>, unreaped: set<Id>, next: Id,
    accepted: set<Id>, cleaned: set<Id>, aborted: set<Id>)

  const LISTENING := Loop(Accepting, false, {}, {}, 0, {}, {}, {})

  predicate Over(l: Loop) {
    l.phase.Succeeded? || l.phase.Failed?
  }

  function Joined(l: Loop): Loop {
    l.(phase := if l.running + l.unreaped == {} then Phase.Succeeded else Joining)
  }

  function Aborted(l: Loop): Loop {
    l.(phase := Failed, running := {}, unreaped := {}, aborted := l.running)
  }

  /** What becomes of the loop at one wake-up; what its state does not allow is no step. */
  function Stepped(l: Loop, t: Tick): (m: Loop)
    requires !t.Cancel?
    ensures m.event == l.event
  {
    match t
    case Shutdown(ok) =>
      if !l.phase.Accepting? || (ok && !l.event) then l else if ok then Joined(l) else Aborted(l)
    case Accept(ok, built) =>
      if !l.phase.Accepting? then l
      else if ok && built then
        l.(running := l.running + {l.next}, accepted := l.accepted + {l.next}, next := l.next + 1)
      else Aborted(l)
    case Finish(id) =>
      if id !in l.running then l
      else l.(running := l.running - {id}, unreaped := l.unreaped + {id}, cleaned := l.cleaned + {id})
    case Reap(id) =>
      if id !in l.unreaped || !(l.phase.Accepting? || l.phase.Joining?) then l
      else
        var m := l.(unreaped := l.unreaped - {id});
        if l.phase.Joining? then Joined(m) else m
  }

  /** The loop after its own wake-ups among the ticks; cancellations of the Python task pass it by. */
  function Natively(l: Loop, ticks: seq<Tick>): Loop
    decreases |ticks|, 1
  {
    if ticks == [] then l else NativelyLast(l, ticks)
  }

  function NativelyLast(l: Loop, ticks: seq<Tick>): Loop
    requires ticks != []
    decreases |ticks|, 0
  {
    var before, last := Natively(l, ticks[..|ticks| - 1]), ticks[|ticks| - 1];
    if last.Cancel? then before else Stepped(before, last)
  }

  /** The loop after a schedule of `serve`, whose first cancellation sets the event. */
  function Served(schedule: seq<Tick>): Loop
    decreases |schedule|, 1
  {
    if schedule == [] then LISTENING else ServedLast(schedule)
  }

  function ServedLast(schedule: seq<Tick>): Loop
    requires schedule != []
    decreases |schedule|, 0
  {
    var before, last := Served(schedule[..|schedule| - 1]), schedule[|schedule| - 1];
    if last.Cancel? then before.(event := true) else Stepped(before, last)
  }

  lemma NativelyOne(l: Loop, schedule: seq<Tick>, from: nat, i: nat)
    requires from <= i < |schedule|
    ensures var before := Natively(l, schedule[from..i]);
      Natively(l, schedule[from..i + 1]) == if schedule[i].Cancel? then before else Stepped(before, schedule[i])
  {
    assert schedule[from..i + 1] == schedule[from..i] + [schedule[i]];
  }

  lemma ServedOne(schedule: seq<Tick>, i: nat)
    requires i < |schedule|
    ensures var before := Served(schedule[..i]);
      Served(schedule[..i + 1]) ==
      if schedule[i].Cancel? then before.(event := true) else Stepped(before, schedule[i])
  {
    assert schedule[..i + 1] == schedule[..i] + [schedule[i]];
  }

  /** Ticks without effect on the event are the native loop's own. */
  lemma {:induction false} ServedNatively(schedule: seq<Tick>, from: nat, i: nat)
    requires from <= i <= |schedule|
    requires Served(schedule[..from]).event || forall k | from <= k < i :: !schedule[k].Cancel?
    ensures Served(schedule[..i]) == Natively(Served(schedule[..from]), schedule[from..i])
    ensures Served(schedule[..i]).event == Served(schedule[..from]).event
    decreases i - from
  {
    if from < i {
      ServedNatively(schedule, from, i - 1);
      ServedNativelyOne(schedule, from, i - 1);
    }
  }

  lemma ServedNativelyOne(schedule: seq<Tick>, from: nat, i: nat)
    requires from <= i < |schedule|
    requires Served(schedule[..i]) == Natively(Served(schedule[..from]), schedule[from..i])
    requires Served(schedule[..i]).event || !schedule[i].Cancel?
    ensures Served(schedule[..i + 1]) == Natively(Served(schedule[..from]), schedule[from..i + 1])
    ensures Served(schedule[..i + 1]).event == Served(schedule[..i]).event
  {
    ServedOne(schedule, i);
    NativelyOne(Served(schedule[..from]), schedule, from, i);
  }

  /** However often `serve` is cancelled again, the loop comes to the same. */
  lemma {:induction false} OnlyTheFirstCancelCounts(a: seq<Tick>, b: seq<Tick>)
    requires Cancel in a
    ensures Served(a + [Cancel] + b) == Served(a + b)
  {
    if b == [] {
      CancelSetsEvent(a);
      assert (a + [Cancel] + b)[..|a|] == a && a + b == a && |a + [Cancel] + b| == |a| + 1;
    } else {
      var n := |b| - 1;
      OnlyTheFirstCancelCounts(a, b[..n]);
      assert (a + [Cancel] + b)[..|a| + 1 + n] == a + [Cancel] + b[..n];
      assert (a + b)[..|a| + n] == a + b[..n];
    }
  }

  lemma {:induction false} CancelSetsEvent(a: seq<Tick>)
    ensures Served(a).event <==> Cancel in a
  {
    if a != [] {
      var n := |a| - 1;
      CancelSetsEvent(a[..n]);
      assert a == a[..n] + [a[n]];
    }
  }

  /** Connection `i` has closed all that it had acquired in Python, and no close was cut short. */
  ghost predicate CleanedUp(traces: map<Id, Trace>, i: Id) {
    i in traces && Clean(traces[i]) && !Replay(traces[i]).abandoned
  }

  ghost predicate Ended(traces: map<Id, Trace>, i: Id) {
    i in traces && Accepted(traces[i])
  }

  class Native {
    /** The handlers of every connection. */
    const extended: Option<PyRef>
    const factory: bool

    var phase: Phase
    var event: bool
    var listening: bool
    var stop: bool
    var running: set<Id>
    var unreaped: set<Id>
    var next: Id
    /** All connections ever accepted; those whose task ran `cleanup` to its end; those aborted with
        the loop. */
    ghost var accepted: set<Id>
    ghost var cleaned: set<Id>
    ghost var aborted: set<Id>
    /** The callbacks of every connection that has ended. */
    ghost var traces: map<Id, Trace>

    constructor (extended: Option<PyRef>, factory: bool)
      ensures Valid() && Now() == LISTENING
      ensures this.extended == extended && this.factory == factory
    {
      this.extended, this.factory, traces := extended, factory, map[];
      phase, event, listening, stop := Accepting, false, true, false;
      running, unreaped, next, accepted, cleaned, aborted := {}, {}, 0, {}, {}, {};
    }

    ghost function Now(): Loop
      reads this
    {
      Loop(phase, event, running, unreaped, next, accepted, cleaned, aborted)
    }

    ghost predicate Valid()
      reads this
    {
      && accepted == running + cleaned + aborted && (forall i :: i in accepted ==> i < next)
      && running !! cleaned && running !! aborted && cleaned !! aborted
      && unreaped <= cleaned
      && traces.Keys == cleaned + aborted
      && (forall i {:trigger CleanedUp(traces, i)} :: i in cleaned ==> CleanedUp(traces, i))
      && (forall i {:trigger Ended(traces, i)} :: i in aborted ==> Ended(traces, i))
      && (listening <==> phase.Accepting?)
      && (stop <==> phase.Joining? || phase.Succeeded?)
      && (stop ==> event)
      && (!phase.Failed? ==> aborted == {})
      && (phase.Failed? ==> running == {})
      && (phase.Joining? ==> running + unreaped != {})
      && (phase.Succeeded? ==> running + unreaped == {})
    }

    predicate IsDone()
      reads this
    {
      phase.Succeeded? || phase.Failed?
    }

    /** A connection task from its start to its end, which may be an abort. */
    method RunTask(id: Id, abortable: bool)
      modifies `traces
      ensures Ended(traces, id) && traces == old(traces)[id := traces[id]]
      ensures !abortable ==> CleanedUp(traces, id)
    {
      var messages: seq<Extended.Message> := *;
      var runtime: bool := *;
      var c, log := Extended.ServeConnection(extended, factory, messages, runtime, abortable);
      traces := traces[id := c.trace];
    }

    method AbortAll(ids: set<Id>)
      modifies `traces
      ensures traces.Keys == old(traces).Keys + ids
      ensures forall i :: i in ids ==> Ended(traces, i)
      ensures forall i :: i in old(traces) && i !in ids ==> traces[i] == old(traces)[i]
    {
      var left := ids;
      while left != {}
        invariant left <= ids && traces.Keys == old(traces).Keys + (ids - left)
        invariant forall i :: i in ids - left ==> Ended(traces, i)
        invariant forall i :: i in old(traces) && i !in ids ==> traces[i] == old(traces)[i]
      {
        var id :| id in left;
        ghost var before := traces;
        RunTask(id, true);
        forall i | i in ids - (left - {id}) ensures Ended(traces, i) {
          assert i == id || Ended(before, i);
        }
        left := left - {id};
      }
    }

    /** Returning early drops the join set, which aborts every connection still in it. */
    method Fail()
      requires Valid() && phase.Accepting?
      modifies `phase, `listening, `running, `unreaped, `aborted, `traces
      ensures Valid() && Now() == Aborted(old(Now()))
    {
      phase, listening := Failed, false;
      AbortAll(running);
      forall i | i in cleaned ensures CleanedUp(traces, i) {
        assert CleanedUp(old(traces), i);
      }
      aborted := running;
      running, unreaped := {}, {};
    }

    /** The loop is left, the listener dropped, and every connection told to stop. */
    method StopAccepting()
      requires Valid() && phase.Accepting? && event
      modifies `phase, `listening, `stop
      ensures Valid() && Now() == Joined(old(Now()))
    {
      phase, listening, stop := Joining, false, true;
      if running == {} && unreaped == {} {
        phase := Phase.Succeeded;
      }
    }

    method Spawn()
      requires Valid() && phase.Accepting?
      modifies `running, `accepted, `next
      ensures Valid() && old(next) !in old(accepted)
      ensures Now() == Stepped(old(Now()), Accept(true, true))
    {
      running, accepted, next := running + {next}, accepted + {next}, next + 1;
    }

    method FinishTask(id: Id)
      requires Valid() && id in running
      modifies `running, `unreaped, `cleaned, `traces
      ensures Valid() && Now() == Stepped(old(Now()), Finish(id))
    {
      RunTask(id, false);
      forall i | i in cleaned ensures CleanedUp(traces, i) {
        assert CleanedUp(old(traces), i);
      }
      running, unreaped, cleaned := running - {id}, unreaped + {id}, cleaned + {id};
    }

    /** One thing that can happen to the native future; what its state does not allow is no step. */
    method Step(t: Tick)
      requires Valid() && !t.Cancel?
      modifies this
      ensures Now() == Stepped(old(Now()), t)
      ensures Valid() && event == old(event) && old(accepted) <= accepted && old(cleaned) <= cleaned
      ensures old(IsDone()) ==>
        phase == old(phase) && accepted == old(accepted) && aborted == old(aborted)
      ensures accepted != old(accepted) <==> old(phase).Accepting? && t == Accept(true, true)
      ensures accepted != old(accepted) ==>
        && old(next) !in old(accepted)
        && accepted == old(accepted) + {old(next)} && running == old(running) + {old(next)}
      ensures stop != old(stop) <==> old(phase).Accepting? && old(event) && t == Shutdown(true)
      ensures phase.Failed? && !old(phase).Failed? <==>
        old(phase).Accepting? && (t == Shutdown(false) || (t.Accept? && !(t.ok && t.built)))
      ensures cleaned == old(cleaned) + (if t.Finish? && t.id in old(running) then {t.id} else {})
      ensures old(phase).Joining? && t.Reap? && old(running) == {} && old(unreaped) == {t.id} ==> phase.Succeeded?
      ensures phase.Succeeded? && !old(phase).Succeeded? ==> accepted == cleaned
      ensures phase.Failed? && !old(phase).Failed? ==> aborted == old(running)
    {
      match t {
        case Shutdown(ok) =>
          if phase.Accepting? && (event || !ok) {
            if ok {
              StopAccepting();
            } else {
              Fail();
            }
          }
        case Accept(ok, built) =>
          if phase.Accepting? {
            if ok && built {
              Spawn();
            } else {
              Fail();
            }
          }
        case Finish(id) =>
          if id in running {
            FinishTask(id);
          }
        case Reap(id) =>
          if id in unreaped && !IsDone() {
            unreaped := unreaped - {id};
            if phase.Joining? && running == {} && unreaped == {} {
              phase := Phase.Succeeded;
            }
          }
      }
    }
  }

  /** `await asyncio.shield(running)`: ends when the native future does, or by a cancellation, which
      does not reach it, or not at all within the schedule.  The future has taken exactly its own
      wake-ups meanwhile. */
  method Shield(native: Native, schedule: seq<Tick>, from: nat) returns (cancelled: bool, i: nat)
    requires native.Valid() && from <= |schedule|
    modifies native
    ensures native.Valid() && native.event == old(native.event) && from <= i <= |schedule|
    ensures native.Now() == Natively(old(native.Now()), schedule[from..i])
    ensures cancelled ==> from < i && schedule[i - 1].Cancel?
    ensures forall k | from <= k < (if cancelled then i - 1 else i) :: !schedule[k].Cancel?
    ensures !cancelled ==> native.IsDone() || i == |schedule|
    ensures forall k | from <= k < i :: !Over(Natively(old(native.Now()), schedule[from..k]))
  {
    i := from;
    while i < |schedule| && !native.IsDone()
      invariant native.Valid() && native.event == old(native.event) && from <= i <= |schedule|
      invariant native.Now() == Natively(old(native.Now()), schedule[from..i])
      invariant forall k | from <= k < i :: !schedule[k].Cancel?
      invariant forall k | from <= k < i :: !Over(Natively(old(native.Now()), schedule[from..k]))
    {
      NativelyOne(old(native.Now()), schedule, from, i);
      i := i + 1;
      if schedule[i - 1].Cancel? {
        return true, i;
      }
      native.Step(schedule[i - 1]);
    }
    return false, i;
  }

  /** The coroutine ends with the cancellation that ends it only after the native future has ended
      regularly, and that only after every connection it ever accepted has closed all that it had
      acquired in Python and had no close callback cut short, however often the coroutine is
      cancelled meanwhile.  Without a cancellation it never ends regularly.  When
      the native future fails, exactly the connections that were running are left unfinished. */
  method Serve(extended: Option<PyRef>, factory: bool, schedule: seq<Tick>)
    returns (exit: Exit, native: Native, i: nat)
    ensures fresh(native) && native.Valid() && i <= |schedule|
    ensures native.Now() == Served(schedule[..i]) && (native.IsDone() || i == |schedule|)
    ensures exit == if native.phase.Failed? then RaisedNative else if native.IsDone() then RaisedCancelled else Pending
    ensures exit == RaisedCancelled ==>
      && native.phase.Succeeded? && Cancel in schedule
      && native.accepted == native.cleaned
      && forall i :: i in native.accepted ==> CleanedUp(native.traces, i)
    ensures exit == RaisedNative ==>
      && native.phase.Failed?
      && native.accepted == native.cleaned + native.aborted && native.cleaned !! native.aborted
    ensures exit == Pending ==> !native.IsDone()
  {
    native := new Native(extended, factory);
    var cancelled;
    cancelled, i := Shield(native, schedule, 0);
    assert schedule[0..i] == schedule[..i];
    ServedUpTo(schedule, i, cancelled);
    if !cancelled {
      exit := if native.phase.Failed? then RaisedNative else if native.phase.Succeeded? then Returned else Pending;
      return;
    }
    native.event := true;
    while !native.IsDone()
      invariant native.Valid() && native.event && 0 < i <= |schedule| && Cancel in schedule
      invariant native.Now() == Served(schedule[..i])
      decreases |schedule| - i
    {
      ghost var from := i;
      cancelled, i := Shield(native, schedule, i);
      ServedNatively(schedule, from, i);
      if !cancelled {
        if native.phase.Failed? {
          return RaisedNative, native, i;
        }
        if !native.IsDone() {
          return Pending, native, i;
        }
        break;
      }
    }
    exit := if native.phase.Failed? then RaisedNative else RaisedCancelled;
  }

  /** Up to the first cancellation nothing sets the event. */
  lemma ServedUpTo(schedule: seq<Tick>, i: nat, cancelled: bool)
    requires i <= |schedule| && (cancelled ==> i > 0 && schedule[i - 1].Cancel?)
    requires forall k | 0 <= k < (if cancelled then i - 1 else i) :: !schedule[k].Cancel?
    ensures var l := Natively(LISTENING, schedule[..i]);
      Served(schedule[..i]) == if cancelled then l.(event := true) else l
  {
    var n := if cancelled then i - 1 else i;
    assert schedule[..0] == [] && schedule[0..n] == schedule[..n] && schedule[0..i] == schedule[..i];
    ServedNatively(schedule, 0, n);
    if cancelled {
      ServedOne(schedule, n);
      NativelyOne(LISTENING, schedule, 0, n);
    }
  }
}
