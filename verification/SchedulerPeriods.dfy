// When a persistent event runs next: as long as it is taken in time it keeps its period, whatever else is
// done to the base.
module SchedulerPeriods {
  import opened Scheduler
  import opened SchedulerRun
  import opened Options

  // Event e is an event of the base with interval v, which is not being finalized, and no timer of a common timeout.
  ghost predicate Steady(p: Shot, e: Event, v: Timeval) {
    && e in p.all && e in p.deadlines && e in p.intervals && p.intervals[e] == v && e !in p.fin
    && v.common < |p.commons| && forall c {:trigger p.commons[c]} :: 0 <= c < |p.commons| ==> p.commons[c].timer != e
  }

  // A command of the user about e.
  predicate About(cmd: Cmd, e: Event) {
    || ((cmd.Add? || cmd.Del? || cmd.Activate? || cmd.ActivateLater? || cmd.FinalizeEvent? || cmd.RemoveTimer?) && cmd.e == e)
    || ((cmd.ActivateCallback? || cmd.ActivateCallbackLater? || cmd.CancelCallback? || cmd.FinalizeCallback?) && cmd.e == e)
  }

  // The command takes callback e off its queue to run it.
  predicate Takes(cmd: Cmd, p: Shot, q: Shot, e: Event) {
    cmd.Dequeue? && p.current == null && q.current == e
  }

  // Nothing has changed for e, but for its place and flags.
  ghost predicate Kept(p: Shot, q: Shot, e: Event) {
    && (e in p.all ==> e in q.all) && (e in p.fin <==> e in q.fin) && |p.commons| <= |q.commons|
    && (e in p.deadlines <==> e in q.deadlines) && (e in p.deadlines ==> p.deadlines[e] == q.deadlines[e])
    && (e in p.intervals <==> e in q.intervals) && (e in p.intervals ==> p.intervals[e] == q.intervals[e])
    && forall c {:trigger q.commons[c]} :: 0 <= c < |q.commons| ==> if c < |p.commons| then q.commons[c].timer == p.commons[c].timer else q.commons[c].timer != e
  }

  lemma KeptSteady(p: Shot, q: Shot, e: Event, v: Timeval)
    requires Steady(p, e, v) && Kept(p, q, e)
    ensures Steady(q, e, v) && q.deadlines[e] == p.deadlines[e]
  {
  }

  lemma KeptThen(p: Shot, m: Shot, q: Shot, e: Event)
    requires Kept(p, m, e) && Kept(m, q, e)
    ensures Kept(p, q, e)
  {
    forall c {:trigger q.commons[c]} | 0 <= c < |q.commons|
      ensures if c < |p.commons| then q.commons[c].timer == p.commons[c].timer else q.commons[c].timer != e
    {
      if c < |m.commons| {
        assert m.commons[c] == m.commons[c];
      }
    }
  }

  lemma DroppedTimers(commons: seq<CommonTimeouts>, x: Event)
    ensures forall c {:trigger Dropped(commons, x)[c]} :: 0 <= c < |commons| ==> Dropped(commons, x)[c].timer == commons[c].timer
  {
  }

  // Leaving structures and becoming active.
  lemma QueuedKept(p: Shot, x: Event, e: Event, res: set<Flag>)
    ensures Kept(p, Deleted(p, x), e) && Kept(p, Removed(p, x), e) && Kept(p, Activated(p, x), e) && Kept(p, ActivatedFor(p, x, res), e)
    ensures Kept(p, PutOff(p, x), e) && Kept(p, PutOff(p, x).(res := Reasoned(p, x, res)), e)
  {
    hide Less, Unqueued, Pushed, Dropped;
    DroppedTimers(p.commons, x);
  }

  lemma ExpiredKept(p: Shot, x: Event, e: Event)
    ensures Kept(p, Expired(p, x), e)
  {
    hide Kept, Deleted, ActivatedFor;
    QueuedKept(p, x, e, {});
    QueuedKept(Deleted(p, x), x, e, {Timeout});
    KeptThen(p, Deleted(p, x), Expired(p, x), e);
  }

  lemma {:induction false} AllExpiredKept(p: Shot, l: seq<Event>, e: Event)
    ensures Kept(p, ExpiredAll(p, l), e)
  {
    hide Expired;
    if l != [] {
      hide Kept;
      AllExpiredKept(p, l[..|l| - 1], e);
      ExpiredKept(ExpiredAll(p, l[..|l| - 1]), l[|l| - 1], e);
      KeptThen(p, ExpiredAll(p, l[..|l| - 1]), ExpiredAll(p, l), e);
    }
  }

  lemma {:induction false} ExpiryKept(p: Shot, q: Shot, now: int, e: Event)
    requires Expires(p, q, now)
    ensures Kept(p, q, e)
    decreases |p.heap|
  {
    hide Expired;
    if exists x :: x in p.heap && DueAt(p.deadlines, x) <= now {
      hide Kept;
      var x :| x in p.heap && Earliest(p, x) && Expires(Expired(p, x), q, now);
      HeapLess(p, x);
      ExpiryKept(Expired(p, x), q, now, e);
      ExpiredKept(p, x, e);
      KeptThen(p, Expired(p, x), q, e);
    }
  }

  lemma HeapLess(p: Shot, x: Event)
    requires x in p.heap
    ensures |Expired(p, x).heap| < |p.heap|
  {
    assert Expired(p, x).heap == p.heap - {x};
  }

  // A timeout for another event.
  lemma TimedKept(p: Shot, x: Event, at: Timeval, e: Event)
    requires x != e
    ensures Kept(p, Timed(p, x, at), e)
  {
    hide Less, Unqueued, Dropped, Inserted;
    DroppedTimers(p.commons, x);
  }

  // ... or for e itself.
  lemma TimedIs(p: Shot, e: Event, at: Timeval, v: Timeval)
    requires Steady(p, e, v)
    ensures Steady(Timed(p, e, at), e, v) && Timed(p, e, at).deadlines[e] == at && e in Timed(p, e, at).tmo
  {
    hide Less, Unqueued, Dropped, Inserted;
    DroppedTimers(p.commons, e);
  }

  lemma ScheduledKept(p: Shot, c: nat, e: Event)
    requires forall d {:trigger p.commons[d]} :: 0 <= d < |p.commons| ==> p.commons[d].timer != e
    ensures Kept(p, Scheduled(p, c), e)
    ensures e in p.tmo ==> e in Scheduled(p, c).tmo
  {
    hide Timed;
    if c < |p.commons| && p.commons[c].events != [] {
      TimedKept(p, p.commons[c].timer, Timeval(DueAt(p.deadlines, p.commons[c].events[0]), -1), e);
      TimedStays(p, p.commons[c].timer, Timeval(DueAt(p.deadlines, p.commons[c].events[0]), -1), e);
    }
  }

  lemma TimedStays(p: Shot, x: Event, at: Timeval, e: Event)
    requires x != e
    ensures e in p.tmo ==> e in Timed(p, x, at).tmo
  {
    hide Less, Unqueued, Dropped, Inserted;
  }

  // An addition of another event.
  lemma AddedKept(p: Shot, x: Event, tv: Option<Timeval>, absolute: bool, now: int, e: Event)
    requires x != e && forall d {:trigger p.commons[d]} :: 0 <= d < |p.commons| ==> p.commons[d].timer != e
    ensures Kept(p, Added(p, x, tv, absolute, now), e)
  {
    hide Timed, Scheduled;
    var w := Watched(p, x);
    if tv.Some? {
      var at := if absolute then tv.value else Timeval(now + tv.value.us, tv.value.common);
      var m := if x.persist && !absolute then w.(intervals := w.intervals[x := tv.value]) else w;
      TimedKept(m, x, at, e);
      KeptThen(p, m, Timed(m, x, at), e);
      LedKept(Timed(m, x, at), at.common, x, e);
      KeptThen(p, Timed(m, x, at), Led(Timed(m, x, at), at.common, x), e);
    }
  }

  lemma LedKept(p: Shot, c: int, x: Event, e: Event)
    requires forall d {:trigger p.commons[d]} :: 0 <= d < |p.commons| ==> p.commons[d].timer != e
    ensures Kept(p, Led(p, c, x), e) && (e in p.tmo ==> e in Led(p, c, x).tmo)
  {
    hide Scheduled;
    if 0 <= c < |p.commons| {
      ScheduledKept(p, c, e);
    }
  }

  // The callback that is about to run is that of the command.
  lemma TakenFirst(p: Shot, q: Shot, now: int, io: int, e: Event)
    requires q == Dequeued(p, now, io) && p.current == null && q.current == e
    ensures var m := Taken(p, e); q == if e.isEvent && e.persist && e !in p.fin then Readded(m, e, now, io) else m
  {
    hide Taken, Readded, Deleted;
    var i := FirstBusy(p.queues);
    if i < |p.queues| {
      var x := p.queues[i][0];
      TakenCurrent(p, x);
      ReaddedCurrent(Taken(p, x), x, now, io);
    }
  }

  lemma TakenCurrent(p: Shot, x: Event)
    ensures Taken(p, x).current == x
  {
  }

  lemma ReaddedCurrent(p: Shot, x: Event, now: int, io: int)
    ensures Readded(p, x, now, io).current == p.current
  {
    hide Less, Unqueued, Dropped, Inserted, DueAt, Next;
  }

  // A persistent event with an interval, taken to be run: if that is for its timeout, and not a whole interval
  // late, it is due again an interval after it was due, else an interval from now.
  lemma NextPeriod(p: Shot, q: Shot, now: int, io: int, e: Event, v: Timeval)
    requires Effect(Dequeue(io), now, p, q) && Takes(Dequeue(io), p, q, e) && Steady(p, e, v) && e in p.res
    requires e.isEvent && e.persist && !(v.us == 0 && v.common < 0) && !(io == -1 && e.watches && e !in p.ins)
    ensures Steady(q, e, v) && e in q.tmo && q.deadlines[e].common == v.common
    ensures q.deadlines[e].us == if Timeout in p.res[e] && now <= p.deadlines[e].us + v.us then p.deadlines[e].us + v.us else now + v.us
  {
    hide Timed, Led, Unqueued, Dequeued, Effect;
    assert q == Dequeued(p, now, io) by { IsDequeued(p, q, now, io); }
    TakenFirst(p, q, now, io, e);
    var m := Taken(p, e);
    var w := Watched(m, e);
    var at := Timeval(Next(DueAt(m.deadlines, e), v.us, Results(m, e), now), v.common);
    TimedIs(w, e, at, v);
    LedKept(Timed(w, e, at), v.common, e, e);
    KeptSteady(Timed(w, e, at), q, e, v);
  }

  // Without an interval it keeps whatever timeout it has.
  lemma NoPeriod(p: Shot, q: Shot, now: int, io: int, e: Event, v: Timeval)
    requires Effect(Dequeue(io), now, p, q) && Takes(Dequeue(io), p, q, e) && Steady(p, e, v)
    requires e.isEvent && e.persist && v.us == 0 && v.common < 0
    ensures Steady(q, e, v) && q.deadlines[e] == p.deadlines[e] && (e in q.tmo <==> e in p.tmo) && (e in q.heap <==> e in p.heap)
  {
    hide Added, AddFails, Unqueued, Dequeued, Effect;
    assert q == Dequeued(p, now, io) by { IsDequeued(p, q, now, io); }
    TakenFirst(p, q, now, io, e);
  }

  lemma IsDequeued(p: Shot, q: Shot, now: int, io: int)
    requires Effect(Dequeue(io), now, p, q)
    ensures q == Dequeued(p, now, io)
  {
    hide Dequeued;
  }

  // Any other step leaves its deadline and interval as they are.
  lemma DequeueKept(p: Shot, q: Shot, now: int, io: int, e: Event, v: Timeval)
    requires Effect(Dequeue(io), now, p, q) && !Takes(Dequeue(io), p, q, e) && Steady(p, e, v)
    ensures Kept(p, q, e)
  {
    hide Effect, Kept, Taken, Added, AddFails, Next;
    assert q == Dequeued(p, now, io) by { IsDequeued(p, q, now, io); }
    var i := FirstBusy(p.queues);
    if p.current != null || i == |p.queues| {
      KeptSame(p, e);
    } else {
      var x := p.queues[i][0];
      var m := Taken(p, x);
      TakenCurrent(p, x);
      ReaddedCurrent(m, x, now, io);
      TakenKept(p, x, e);
      KeptSteady(p, m, e, v);
      KeptSame(m, e);
      if x.isEvent && x.persist && x !in p.fin {
        AddedKept(m, x, Some(Timeval(Next(DueAt(m.deadlines, x), IntervalOf(m, x).us, Results(m, x), now), IntervalOf(m, x).common)), true, now, e);
        KeptThen(p, m, q, e);
      }
    }
  }

  lemma KeptSame(p: Shot, e: Event)
    ensures Kept(p, p, e)
  {
  }

  lemma TakenKept(p: Shot, x: Event, e: Event)
    ensures Kept(p, Taken(p, x), e)
  {
    hide Less, Unqueued, Dropped;
    DroppedTimers(p.commons, x);
  }

  lemma RanKept(p: Shot, now: int, e: Event, v: Timeval)
    requires Steady(p, e, v)
    ensures Kept(p, Ran(p, now), e)
  {
    hide Kept, ExpiredAll, Scheduled, DueCount;
    KeptSame(p, e);
    CurrentKept(p, e);
    if p.current != null {
      var c := TimerIndex(p.commons, p.current);
      if c < |p.commons| {
        var l := p.commons[c].events;
        var m := ExpiredAll(p, l[..DueCount(l, p.deadlines, now)]);
        AllExpiredKept(p, l[..DueCount(l, p.deadlines, now)], e);
        KeptSteady(p, m, e, v);
        ScheduledKept(m, c, e);
        KeptThen(p, m, Scheduled(m, c), e);
        CurrentKept(Scheduled(m, c), e);
        KeptThen(p, Scheduled(m, c), Scheduled(m, c).(current := null), e);
      }
    }
  }

  lemma CurrentKept(p: Shot, e: Event)
    ensures Kept(p, p.(current := null), e)
  {
  }

  lemma InitKept(p: Shot, q: Shot, duration: Duration, e: Event)
    requires InitEffect(p, q, duration) && e in p.all
    ensures Kept(p, q, e)
  {
  }

  lemma DisarmedKept(p: Shot, x: Event, e: Event)
    requires x != e
    ensures Kept(p, Disarmed(p, x), e)
  {
    hide Less, Dropped;
    DroppedTimers(p.commons, x);
  }

  // What the user does to other callbacks.
  lemma OthersKept(cmd: Cmd, now: int, p: Shot, q: Shot, e: Event, v: Timeval)
    requires Effect(cmd, now, p, q) && Steady(p, e, v) && !About(cmd, e) && !cmd.Dequeue? && !cmd.RunCurrent? && !cmd.ProcessTimeouts?
    ensures Kept(p, q, e)
  {
    hide Kept, Added, AddFails, Deleted, Activated, ActivatedFor, PutOff, Reasoned, Removed, Disarmed, InitEffect, Enqueue;
    KeptSame(p, e);
    match cmd {
      case Add(x, tv, io) =>
        AddedKept(p, x, tv, false, now, e);
      case Del(x, _) =>
        QueuedKept(p, x, e, {});
      case Activate(x, res) =>
        QueuedKept(p, x, e, res);
      case ActivateLater(x, res) =>
        QueuedKept(p, x, e, res);
      case ActivateCallback(x) =>
        QueuedKept(p, x, e, {});
      case ActivateCallbackLater(x) =>
        QueuedKept(p, x, e, {});
      case CancelCallback(x, _) =>
        QueuedKept(p, x, e, {});
      case FinalizeEvent(x, _) =>
        FinalizedKept(p, x, e);
      case FinalizeCallback(x, _) =>
        FinalizedKept(p, x, e);
      case RemoveTimer(x) =>
        DisarmedKept(p, x, e);
      case InitCommon(duration) =>
        InitKept(p, q, duration, e);
      case LaterActive =>
        LaterKept(p, q, e);
    }
  }

  lemma FinalizedKept(p: Shot, x: Event, e: Event)
    requires x != e
    ensures var q := ActivatedFor(Deleted(p, x), x, {Finalize}); Kept(p, q.(fin := p.fin + {x}), e)
    ensures var q := Activated(Removed(p, x), x); Kept(p, q.(fin := p.fin + {x}), e)
  {
    hide Less, Unqueued, Pushed, Dropped;
    DroppedTimers(p.commons, x);
  }

  lemma LaterKept(p: Shot, q: Shot, e: Event)
    requires MoveLaterEffect(p, q)
    ensures Kept(p, q, e)
  {
    hide Enqueue;
  }

  lemma StepKept(cmd: Cmd, now: int, p: Shot, q: Shot, e: Event, v: Timeval)
    requires Effect(cmd, now, p, q) && Steady(p, e, v) && !About(cmd, e) && !Takes(cmd, p, q, e)
    ensures Steady(q, e, v) && q.deadlines[e] == p.deadlines[e]
  {
    if cmd.Dequeue? {
      DequeueKept(p, q, now, cmd.ioResult, e, v);
    } else if cmd.RunCurrent? {
      RanKept(p, now, e, v);
    } else if cmd.ProcessTimeouts? {
      ExpiryKept(p, q, now, e);
    } else {
      OthersKept(cmd, now, p, q, e, v);
    }
    hide Effect;
    KeptSteady(p, q, e, v);
  }

  // How often e is taken in the first n steps.
  ghost function Times(cmds: seq<(Cmd, int)>, trace: seq<Shot>, e: Event, n: nat): nat
    requires n <= |cmds| && |trace| == |cmds| + 1
  {
    if n == 0 then 0 else Times(cmds, trace, e, n - 1) + if Takes(cmds[n - 1].0, trace[n - 1], trace[n], e) then 1 else 0
  }

  // Whenever e is taken, that is for its timeout, less than an interval late, and it can be added again.
  ghost predicate InTime(cmds: seq<(Cmd, int)>, trace: seq<Shot>, e: Event, v: Timeval)
    requires |trace| == |cmds| + 1
  {
    forall k :: 0 <= k < |cmds| && Takes(cmds[k].0, trace[k], trace[k + 1], e) ==>
      && e in trace[k].res && Timeout in trace[k].res[e] && e in trace[k].deadlines && cmds[k].1 <= trace[k].deadlines[e].us + v.us
      && !(cmds[k].0.ioResult == -1 && e.watches && e !in trace[k].ins)
  }

  // A persistent event that is always taken in time keeps its period over any run: taken k times, it is due k
  // intervals after it was.
  lemma {:induction false} KeepsPeriod(cmds: seq<(Cmd, int)>, trace: seq<Shot>, e: Event, v: Timeval, n: nat)
    requires History(cmds, trace) && n <= |cmds| && Steady(trace[0], e, v) && e.isEvent && e.persist && !(v.us == 0 && v.common < 0)
    requires (forall k :: 0 <= k < |cmds| ==> !About(cmds[k].0, e)) && InTime(cmds, trace, e, v)
    ensures Steady(trace[n], e, v) && trace[n].deadlines[e].us == trace[0].deadlines[e].us + Times(cmds, trace, e, n) * v.us
  {
    hide Effect, Steady;
    if n == 0 {
      SteadyDeadline(trace[0], e, v);
    } else {
      KeepsPeriod(cmds, trace, e, v, n - 1);
      var cmd, now, p, q := cmds[n - 1].0, cmds[n - 1].1, trace[n - 1], trace[n];
      assert Effect(cmd, now, p, q);
      SteadyDeadline(p, e, v);
      if Takes(cmd, p, q, e) {
        NextPeriod(p, q, now, cmd.ioResult, e, v);
        OneMore(Times(cmds, trace, e, n - 1), v.us);
      } else {
        StepKept(cmd, now, p, q, e, v);
      }
    }
  }

  lemma SteadyDeadline(p: Shot, e: Event, v: Timeval)
    requires Steady(p, e, v)
    ensures e in p.deadlines
  {
  }

  lemma OneMore(n: nat, v: int)
    ensures (n + 1) * v == n * v + v
  {
  }
}
