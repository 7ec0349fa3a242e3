// Runs of the scheduler: whatever is added, deleted, activated, finalized and fired, in whatever
// order, the flags agree with the queues, the counters with the flags, and no common timeout is lost.
module SchedulerRun {
  import opened Scheduler
  import opened Options

  datatype Cmd =
    | Add(e: Event, tv: Option<Timeval>, ioResult: int)
    | Del(e: Event, ioResult: int)
    | Activate(e: Event, res: set<Flag>)
    | ActivateLater(e: Event, res: set<Flag>)
    | FinalizeEvent(e: Event, ioResult: int)
    | ActivateCallback(e: Event)
    | ActivateCallbackLater(e: Event)
    | CancelCallback(e: Event, ioResult: int)
    | FinalizeCallback(e: Event, ioResult: int)
    | RemoveTimer(e: Event)
    | InitCommon(duration: Duration)
    | LaterActive
    | ProcessTimeouts
    | Dequeue(ioResult: int)   // the next callback leaves its queue, and is about to run
    | RunCurrent               // it has run

  // Commands are about the user's callbacks, and those on events about events.
  predicate Legal(cmd: Cmd, users: set<Event>) {
    && (cmd.Add? || cmd.Del? || cmd.Activate? || cmd.ActivateLater? || cmd.FinalizeEvent? || cmd.RemoveTimer? ==> cmd.e in users && cmd.e.isEvent)
    && (cmd.ActivateCallback? || cmd.ActivateCallbackLater? || cmd.CancelCallback? || cmd.FinalizeCallback? ==> cmd.e in users)
    && (cmd.Add? && cmd.tv.Some? ==> cmd.tv.value.common >= -1)
  }

  // The state between commands.
  ghost predicate Ok(base: Base, users: set<Event>)
    reads base, base.all
  {
    && base.Core() && base.NoneLost() && base.Persistent() && (base.current != null ==> base.current in base.all)
    && users <= base.all && forall e :: e in users ==> base.NotTimer(e)
  }

  // What is known of a user's callback between commands.
  lemma UserFacts(base: Base, users: set<Event>, e: Event)
    requires Ok(base, users) && e in users
    ensures e in base.all && base.NotTimer(e)
  {
  }

  lemma AllNoticedIn(base: Base)
    requires base.NoneLost()
    ensures forall c :: 0 <= c < |base.commons| ==> base.Noticed(c)
  {
  }

  // After a command that keeps the common timeouts, `was` being what they were.
  lemma Restored(base: Base, users: set<Event>, was: seq<CommonTimeouts>)
    requires base.Core() && base.Persistent() && (base.current != null ==> base.current in base.all) && users <= base.all
    requires |was| <= |base.commons|
    requires forall c {:trigger base.commons[c]} :: 0 <= c < |was| ==> base.commons[c].timer == was[c].timer
    requires forall c {:trigger base.commons[c]} :: |was| <= c < |base.commons| ==> base.commons[c].timer !in users
    requires forall c, e {:trigger was[c], e in users} :: 0 <= c < |was| && e in users ==> was[c].timer != e
    requires forall c :: 0 <= c < |base.commons| ==> base.Noticed(c)
    ensures Ok(base, users)
  {
    hide Base.Core;
    forall e, c | e in users && 0 <= c < |base.commons| ensures base.commons[c].timer != e {
      if c < |was| {
        assert was[c].timer != e;
      }
    }
    forall c | 0 <= c < |base.commons| ensures base.Noticed(c) {
      assert base.commons[c] == base.commons[c];
    }
  }

  lemma NoUsers(base: Base, users: set<Event>)
    requires Ok(base, users)
    ensures forall c, e {:trigger base.commons[c], e in users} :: 0 <= c < |base.commons| && e in users ==> base.commons[c].timer != e
  {
    hide Base.Core;
    forall c, e | 0 <= c < |base.commons| && e in users ensures base.commons[c].timer != e {
      assert base.NotTimer(e);
    }
  }

  // The first queue that is not empty.
  function FirstBusy(queues: seq<seq<Event>>): (i: nat)
    ensures i <= |queues| && (forall j :: 0 <= j < i ==> queues[j] == []) && (i < |queues| ==> queues[i] != [])
  {
    if queues == [] || queues[0] != [] then 0 else 1 + FirstBusy(queues[1..])
  }

  // The common timeout whose timer callback e is.
  function TimerIndex(commons: seq<CommonTimeouts>, e: Event): (c: nat)
    ensures c <= |commons| && (forall d :: 0 <= d < c ==> commons[d].timer != e) && (c < |commons| ==> commons[c].timer == e)
  {
    if commons == [] || commons[0].timer == e then 0 else 1 + TimerIndex(commons[1..], e)
  }

  // The first callback of the first busy queue is about to run, and has its next timeout if it persists.
  function Dequeued(p: Shot, now: int, ioResult: int): Shot {
    var i := FirstBusy(p.queues);
    if p.current != null || i == |p.queues| then p
    else
      var e := p.queues[i][0];
      if e.isEvent && e.persist && e !in p.fin then Readded(Taken(p, e), e, now, ioResult) else Taken(p, e)
  }

  // The callback that was about to run has run. For the timer of a common timeout that is the expiry of its events.
  function Ran(p: Shot, now: int): Shot {
    if p.current == null then p
    else
      var c := TimerIndex(p.commons, p.current);
      (if c < |p.commons| then Elapsed(p, c, now) else p).(current := null)
  }

  // There is a new common timeout with its timer, unless there is one of the duration, or too many.
  ghost predicate InitEffect(p: Shot, q: Shot, duration: Duration) {
    if |p.commons| >= 256 || exists c :: 0 <= c < |p.commons| && p.commons[c].duration == Carried(duration, |p.commons|) then q == p
    else
      && |q.commons| == |p.commons| + 1
      && var timer := q.commons[|p.commons|].timer;
         timer !in p.all && q == Lengthened(p, timer, Carried(duration, |p.commons|))
  }

  ghost predicate MoveLaterEffect(p: Shot, q: Shot) {
    && (forall e :: e in p.later ==> e.pri < |p.queues|)
    && q == p.(queues := Enqueue(p.queues, p.later), later := [], act := p.act + p.lat, lat := {})
  }

  // The whole state after a command. Only events with one and the same deadline may time out in any order.
  ghost predicate Effect(cmd: Cmd, now: int, p: Shot, q: Shot) {
    match cmd
    case Add(e, tv, io) =>
      q == if (tv.Some? && tv.value.common >= |p.commons|) || AddFails(p, e, io) then p else Added(p, e, tv, false, now)
    case Del(e, _) => q == if e in p.fin then p else Deleted(p, e)
    case Activate(e, res) => q == if e in p.fin then p else ActivatedFor(p, e, res)
    case ActivateLater(e, res) => q == PutOff(p, e).(res := Reasoned(p, e, res))
    case ActivateCallback(e) => q == if e in p.fin then p else Activated(p, e)
    case ActivateCallbackLater(e) => q == PutOff(p, e)
    case FinalizeEvent(e, _) => q == if e in p.fin then p else ActivatedFor(Deleted(p, e), e, {Finalize}).(fin := p.fin + {e})
    case FinalizeCallback(e, _) => q == if e in p.fin then p else Activated(Removed(p, e), e).(fin := p.fin + {e})
    case CancelCallback(e, _) => q == if e in p.fin then p else Removed(p, e)
    case RemoveTimer(e) => q == Disarmed(p, e)
    case InitCommon(duration) => InitEffect(p, q, duration)
    case LaterActive => MoveLaterEffect(p, q)
    case ProcessTimeouts => Expires(p, q, now)
    case Dequeue(io) => q == Dequeued(p, now, io)
    case RunCurrent => q == Ran(p, now)
  }

  // Whatever waits in a common-timeout list will be noticed: the list's timer is in the heap no later
  // than that, or is active, or its callback is about to run.
  ghost predicate AllNoticed(p: Shot) {
    forall c, e :: 0 <= c < |p.commons| && e in p.commons[c].events ==>
      var t := p.commons[c].timer;
      t in p.act || t == p.current || (t in p.heap && t in p.deadlines && e in p.deadlines && p.deadlines[t].us <= p.deadlines[e].us)
  }

  // event_add without a timeout keeps what holds between commands.
  method AddPlain(base: Base, e: Event, now: int, io: int, ghost users: set<Event>)
    requires Ok(base, users) && e in users && e.isEvent
    modifies base, base.all
    ensures Ok(base, users) && base.all == old(base.all) && Effect(Add(e, None, io), now, old(base.Look()), base.Look())
  {
    hide Base.InsertedOk, Base.ActiveOk, Base.TimeoutOk, Base.CountOk, Base.Look, Added;
    UserFacts(base, users, e);
    AllNoticedIn(base);
    NoUsers(base, users);
    ghost var was := base.commons;
    Known(base, e);
    var _ := base.EventAdd(e, None, false, now, io);
    Restored(base, users, was);
  }

  // What the picture of the base shows of callback e.
  lemma Known(base: Base, e: Event)
    requires base.Core() && e in base.all
    ensures var p := base.Look();
      && (e in p.fin <==> e.finalizing) && (e in p.ins <==> e.inserted) && (e in p.act <==> e.active) && (e in p.lat <==> e.later)
      && p.commons == base.commons && p.queues == base.queues && p.current == base.current && p.later == base.laterQueue && p.all == base.all
  {
    base.FlagFacts(e);
    base.IntervalIs(e);
    base.Seen();
  }

  // event_add_nolock_ for an interval, which a persistent event remembers.
  method AddFor(base: Base, e: Event, tv: Timeval, now: int, io: int)
    requires base.Core() && base.NoneLost() && base.Persistent() && e in base.all && e.isEvent && base.NotTimer(e) && -1 <= tv.common < |base.commons|
    modifies base, base.all
    ensures base.Core() && base.NoneLost() && base.Persistent() && |base.commons| == |old(base.commons)|
    ensures base.all == old(base.all) && base.current == old(base.current)
    ensures forall c {:trigger base.commons[c]} :: 0 <= c < |base.commons| ==> base.commons[c].timer == old(base.commons)[c].timer
    ensures Effect(Add(e, Some(tv), io), now, old(base.Look()), base.Look())
  {
    hide Base.InsertedOk, Base.ActiveOk, Base.TimeoutOk, Base.CountOk, Base.Look, Added;
    AllNoticedIn(base);
    Known(base, e);
    var _ := base.EventAdd(e, Some(tv), false, now, io);
  }

  // event_add with a timeout keeps what holds between commands.
  method AddTimed(base: Base, e: Event, tv: Timeval, now: int, io: int, ghost users: set<Event>)
    requires Ok(base, users) && e in users && e.isEvent && -1 <= tv.common < |base.commons|
    modifies base, base.all
    ensures Ok(base, users) && base.all == old(base.all) && Effect(Add(e, Some(tv), io), now, old(base.Look()), base.Look())
  {
    hide Base.Core, Base.NoneLost, Base.Persistent, Base.Look, Effect;
    UserFacts(base, users, e);
    NoUsers(base, users);
    ghost var was := base.commons;
    AddFor(base, e, tv, now, io);
    AllNoticedIn(base);
    Restored(base, users, was);
  }

  // event_add, by the user: the time is an interval. An index no common timeout has is refused.
  method DoAdd(base: Base, e: Event, tv: Option<Timeval>, now: int, io: int, ghost users: set<Event>)
    requires Ok(base, users) && e in users && e.isEvent && (tv.Some? ==> tv.value.common >= -1)
    modifies base, base.all
    ensures Ok(base, users) && base.all == old(base.all) && Effect(Add(e, tv, io), now, old(base.Look()), base.Look())
  {
    hide Ok, Base.Core, Base.Look, AddFails, Added;
    if tv.None? {
      AddPlain(base, e, now, io, users);
    } else if tv.value.common < |base.commons| {
      AddTimed(base, e, tv.value, now, io, users);
    } else {
      base.Seen();
    }
  }

  // event_del
  method DoDel(base: Base, e: Event, io: int, ghost users: set<Event>)
    requires Ok(base, users) && e in users && e.isEvent
    modifies base, base.all
    ensures Ok(base, users) && base.all == old(base.all)
    ensures var p := old(base.Look()); base.Look() == if e in p.fin then p else Deleted(p, e)
  {
    hide Base.InsertedOk, Base.ActiveOk, Base.TimeoutOk, Base.CountOk, Base.Look, Deleted;
    UserFacts(base, users, e);
    AllNoticedIn(base);
    NoUsers(base, users);
    ghost var was := base.commons;
    Known(base, e);
    var _ := base.EventDel(e, false, io);
    Restored(base, users, was);
  }

  // event_remove_timer
  method DoRemoveTimer(base: Base, e: Event, ghost users: set<Event>)
    requires Ok(base, users) && e in users && e.isEvent
    modifies base, base.all
    ensures Ok(base, users) && base.all == old(base.all)
    ensures var p := old(base.Look()); base.Look() == Disarmed(p, e)
  {
    hide Base.InsertedOk, Base.ActiveOk, Base.TimeoutOk, Base.CountOk, Base.Look, Disarmed;
    UserFacts(base, users, e);
    AllNoticedIn(base);
    NoUsers(base, users);
    ghost var was := base.commons;
    Known(base, e);
    base.RemoveTimer(e);
    Restored(base, users, was);
  }

  // event_finalize
  method DoFinalizeEvent(base: Base, e: Event, io: int, ghost users: set<Event>)
    requires Ok(base, users) && e in users && e.isEvent
    modifies base, base.all
    ensures Ok(base, users) && base.all == old(base.all)
    ensures var p := old(base.Look()); base.Look() == if e in p.fin then p else ActivatedFor(Deleted(p, e), e, {Finalize}).(fin := p.fin + {e})
  {
    hide Base.InsertedOk, Base.ActiveOk, Base.TimeoutOk, Base.CountOk, Base.Look, Deleted, ActivatedFor;
    UserFacts(base, users, e);
    AllNoticedIn(base);
    NoUsers(base, users);
    ghost var was := base.commons;
    Known(base, e);
    base.EventFinalize(e, io);
    Restored(base, users, was);
  }

  // event_callback_finalize_
  method DoFinalizeCallback(base: Base, e: Event, io: int, ghost users: set<Event>)
    requires Ok(base, users) && e in users
    modifies base, base.all
    ensures Ok(base, users) && base.all == old(base.all)
    ensures var p := old(base.Look()); base.Look() == if e in p.fin then p else Activated(Removed(p, e), e).(fin := p.fin + {e})
  {
    hide Base.InsertedOk, Base.ActiveOk, Base.TimeoutOk, Base.CountOk, Base.Look, Removed, Activated;
    UserFacts(base, users, e);
    AllNoticedIn(base);
    NoUsers(base, users);
    ghost var was := base.commons;
    Known(base, e);
    base.CallbackFinalize(e, io);
    Restored(base, users, was);
  }

  // event_callback_cancel_
  method DoCancel(base: Base, e: Event, io: int, ghost users: set<Event>)
    requires Ok(base, users) && e in users
    modifies base, base.all
    ensures Ok(base, users) && base.all == old(base.all)
    ensures var p := old(base.Look()); base.Look() == if e in p.fin then p else Removed(p, e)
  {
    hide Base.InsertedOk, Base.ActiveOk, Base.TimeoutOk, Base.CountOk, Base.Look, Removed;
    UserFacts(base, users, e);
    AllNoticedIn(base);
    NoUsers(base, users);
    ghost var was := base.commons;
    Known(base, e);
    var _ := base.CallbackCancel(e, false, io);
    Restored(base, users, was);
  }

  // event_active
  method DoActivate(base: Base, e: Event, res: set<Flag>, ghost users: set<Event>)
    requires Ok(base, users) && e in users
    modifies base, base.all
    ensures Ok(base, users) && base.all == old(base.all)
    ensures var p := old(base.Look()); base.Look() == if e in p.fin then p else ActivatedFor(p, e, res)
  {
    hide Base.InsertedOk, Base.ActiveOk, Base.TimeoutOk, Base.CountOk, Base.Look, ActivatedFor;
    UserFacts(base, users, e);
    AllNoticedIn(base);
    NoUsers(base, users);
    ghost var was := base.commons;
    Known(base, e);
    base.EventActive(e, res);
    Restored(base, users, was);
  }

  // event_callback_activate_
  method DoActivateCallback(base: Base, e: Event, ghost users: set<Event>)
    requires Ok(base, users) && e in users
    modifies base, base.all
    ensures Ok(base, users) && base.all == old(base.all)
    ensures var p := old(base.Look()); base.Look() == if e in p.fin then p else Activated(p, e)
  {
    hide Base.InsertedOk, Base.ActiveOk, Base.TimeoutOk, Base.CountOk, Base.Look, Activated;
    UserFacts(base, users, e);
    AllNoticedIn(base);
    NoUsers(base, users);
    ghost var was := base.commons;
    Known(base, e);
    var _ := base.CallbackActivate(e);
    Restored(base, users, was);
  }

  // event_active_later_
  method DoActivateLater(base: Base, e: Event, res: set<Flag>, ghost users: set<Event>)
    requires Ok(base, users) && e in users
    modifies base, base.all
    ensures Ok(base, users) && base.all == old(base.all)
    ensures var p := old(base.Look()); base.Look() == PutOff(p, e).(res := Reasoned(p, e, res))
  {
    hide Base.InsertedOk, Base.ActiveOk, Base.TimeoutOk, Base.CountOk, Base.Look, PutOff, Reasoned;
    UserFacts(base, users, e);
    AllNoticedIn(base);
    NoUsers(base, users);
    ghost var was := base.commons;
    Known(base, e);
    base.EventActiveLater(e, res);
    Restored(base, users, was);
  }

  // event_callback_activate_later_nolock_
  method DoActivateCallbackLater(base: Base, e: Event, ghost users: set<Event>)
    requires Ok(base, users) && e in users
    modifies base, base.all
    ensures Ok(base, users) && base.all == old(base.all)
    ensures var p := old(base.Look()); base.Look() == PutOff(p, e)
  {
    hide Base.InsertedOk, Base.ActiveOk, Base.TimeoutOk, Base.CountOk, Base.Look, PutOff;
    UserFacts(base, users, e);
    AllNoticedIn(base);
    NoUsers(base, users);
    ghost var was := base.commons;
    Known(base, e);
    var _ := base.CallbackActivateLater(e);
    Restored(base, users, was);
  }

  // event_queue_make_later_events_active
  method DoLaterActive(base: Base, ghost users: set<Event>)
    requires Ok(base, users)
    modifies base, base.all
    ensures Ok(base, users) && base.all == old(base.all) && MoveLaterEffect(old(base.Look()), base.Look())
  {
    hide Base.InsertedOk, Base.ActiveOk, Base.TimeoutOk, Base.TimersOk, Base.CountOk, Base.Look, Enqueue;
    NoUsers(base, users);
    ghost var was := base.commons;
    base.Seen();
    base.MakeLaterActive();
    base.Seen();
    AllNoticedIn(base);
    Restored(base, users, was);
  }

  // timeout_process
  method DoTimeouts(base: Base, now: int, ghost users: set<Event>)
    requires Ok(base, users)
    modifies base, base.all
    ensures Ok(base, users) && base.all == old(base.all) && Expires(old(base.Look()), base.Look(), now)
  {
    hide Base.InsertedOk, Base.ActiveOk, Base.TimeoutOk, Base.TimersOk, Base.CountOk, Base.Look, Expires;
    NoUsers(base, users);
    ghost var was := base.commons;
    base.Seen();
    base.TimeoutProcess(now);
    AllNoticedIn(base);
    Restored(base, users, was);
  }

  // The first callback of queue i leaves it.
  method Take(base: Base, i: nat, io: int, ghost users: set<Event>) returns (e: Event)
    requires Ok(base, users) && base.current == null && i < |base.queues| && base.queues[i] != []
    modifies base, base.all
    ensures Ok(base, users) && base.all == old(base.all) && e == old(base.queues[i][0]) && base.current == e && e in base.all && !e.active
    ensures base.Look() == Taken(old(base.Look()), e) && e.finalizing == old(e.finalizing)
  {
    hide Base.InsertedOk, Base.ActiveOk, Base.TimeoutOk, Base.CountOk, Base.Look, Taken;
    NoUsers(base, users);
    ghost var was := base.commons;
    base.HeadFacts(i);
    e := base.Dequeue(i, io);
    AllNoticedIn(base);
    Restored(base, users, was);
  }

  // A persistent event that is about to run is added again, with its next deadline.
  method AddAgain(base: Base, e: Event, now: int, io: int, ghost users: set<Event>)
    requires Ok(base, users) && e in base.all && e.isEvent && e.persist && !e.finalizing && base.current == e
    modifies base, base.all
    ensures Ok(base, users) && base.all == old(base.all) && base.Look() == Readded(old(base.Look()), e, now, io)
  {
    hide Base.InsertedOk, Base.ActiveOk, Base.TimeoutOk, Base.CountOk, Base.Look, Readded;
    NoUsers(base, users);
    ghost var was := base.commons;
    base.Reschedule(e, now, io);
    AllNoticedIn(base);
    Restored(base, users, was);
  }

  // event_process_active_single_queue, up to the callback.
  method DoDequeue(base: Base, now: int, io: int, ghost users: set<Event>)
    requires Ok(base, users)
    modifies base, base.all
    ensures Ok(base, users) && base.all == old(base.all) && base.Look() == Dequeued(old(base.Look()), now, io)
  {
    hide Base.InsertedOk, Base.TimeoutOk, Base.TimersOk, Base.CountOk, Base.NoneLost, Base.Persistent, Base.Look, Taken, Readded;
    base.Seen();
    var i := base.FirstQueue();
    Busy(base.queues, i);
    if base.current != null || i == |base.queues| {
      return;
    }
    base.HeadFacts(i);
    Known(base, base.queues[i][0]);
    var e := Take(base, i, io, users);
    if e.isEvent && e.persist && !e.finalizing {
      AddAgain(base, e, now, io, users);
    }
  }

  lemma Busy(queues: seq<seq<Event>>, i: nat)
    requires i <= |queues| && (forall j :: 0 <= j < i ==> queues[j] == []) && (i < |queues| ==> queues[i] != [])
    ensures i == FirstBusy(queues)
  {
  }

  // The callback that was about to run has run.
  method RunTaken(base: Base, now: int, ghost users: set<Event>)
    requires Ok(base, users) && base.current != null
    modifies base, base.all
    ensures Ok(base, users) && base.all == old(base.all) && base.Look() == Ran(old(base.Look()), now)
  {
    hide Base.InsertedOk, Base.ActiveOk, Base.TimeoutOk, Base.CountOk, Base.Look, Elapsed;
    base.Seen();
    NoUsers(base, users);
    ghost var was := base.commons;
    base.RunCurrent(now);
    AllNoticedIn(base);
    Restored(base, users, was);
  }

  // ... and behind it.
  method DoRunCurrent(base: Base, now: int, ghost users: set<Event>)
    requires Ok(base, users)
    modifies base, base.all
    ensures Ok(base, users) && base.all == old(base.all) && base.Look() == Ran(old(base.Look()), now)
  {
    hide Ok, Base.Look;
    base.Seen();
    if base.current != null {
      RunTaken(base, now, users);
    }
  }

  // event_base_init_common_timeout
  method DoInitCommon(base: Base, duration: Duration, ghost users: set<Event>)
    requires Ok(base, users)
    modifies base
    ensures Ok(base, users) && forall e :: e in base.all && e !in old(base.all) ==> fresh(e)
    ensures InitEffect(old(base.Look()), base.Look(), duration)
  {
    hide Base.InsertedOk, Base.ActiveOk, Base.TimeoutOk, Base.CountOk, Base.Look, Lengthened;
    NoUsers(base, users);
    ghost var was := base.commons;
    base.Seen();
    var _ := base.InitCommonTimeout(duration);
    base.Seen();
    AllNoticedIn(base);
    Restored(base, users, was);
  }

  method Step(base: Base, cmd: Cmd, now: int, ghost users: set<Event>)
    requires Ok(base, users) && Legal(cmd, users)
    modifies base, base.all
    ensures Ok(base, users) && forall e :: e in base.all && e !in old(base.all) ==> fresh(e)
    ensures Effect(cmd, now, old(base.Look()), base.Look())
  {
    hide Ok, Base.Look, AddFails, Added, Deleted, ActivatedFor, Activated, PutOff, Reasoned, Removed, Disarmed, InitEffect, MoveLaterEffect, Expires,
      Dequeued, Ran;
    match cmd {
      case Add(e, tv, io) =>
        DoAdd(base, e, tv, now, io, users);
      case Del(e, io) =>
        DoDel(base, e, io, users);
      case Activate(e, res) =>
        DoActivate(base, e, res, users);
      case ActivateLater(e, res) =>
        DoActivateLater(base, e, res, users);
      case FinalizeEvent(e, io) =>
        DoFinalizeEvent(base, e, io, users);
      case ActivateCallback(e) =>
        DoActivateCallback(base, e, users);
      case ActivateCallbackLater(e) =>
        DoActivateCallbackLater(base, e, users);
      case CancelCallback(e, io) =>
        DoCancel(base, e, io, users);
      case FinalizeCallback(e, io) =>
        DoFinalizeCallback(base, e, io, users);
      case RemoveTimer(e) =>
        DoRemoveTimer(base, e, users);
      case InitCommon(duration) =>
        DoInitCommon(base, duration, users);
      case LaterActive =>
        DoLaterActive(base, users);
      case ProcessTimeouts =>
        DoTimeouts(base, now, users);
      case Dequeue(io) =>
        DoDequeue(base, now, io, users);
      case RunCurrent =>
        DoRunCurrent(base, now, users);
    }
  }

  // A new base with n priorities, and callbacks assigned to it.
  method Start(n: nat, es: seq<Event>) returns (base: Base)
    requires n > 0 && NoDup(es)
    requires forall i :: 0 <= i < |es| ==> es[i].pri < n && !es[i].inserted && !es[i].timeout && !es[i].active && !es[i].later && !es[i].finalizing
                                           && es[i].deadline.common == es[i].interval.common == -1
    ensures fresh(base) && Ok(base, Elems(es)) && base.all == Elems(es)
  {
    hide Base.Core, Base.NoneLost, Base.NotTimer;
    base := new Base(n);
    for i := 0 to |es|
      invariant fresh(base) && base.Core() && base.NoneLost() && base.current == null && |base.queues| == n && base.commons == []
      invariant base.all == Elems(es[..i])
    {
      assert es[..i + 1] == es[..i] + [es[i]];
      assert Elems(es[..i + 1]) == Elems(es[..i]) + {es[i]};
      base.Register(es[i]);
    }
    assert es[..|es|] == es;
    NoTimers(base);
  }

  lemma NoTimers(base: Base)
    requires base.commons == []
    ensures forall e :: e in base.all ==> base.NotTimer(e)
  {
  }

  ghost predicate History(cmds: seq<(Cmd, int)>, trace: seq<Shot>) {
    |trace| == |cmds| + 1 && forall k :: 0 <= k < |cmds| ==> Effect(cmds[k].0, cmds[k].1, trace[k], trace[k + 1])
  }

  // Any run of commands, at any times: each does what it should, and no common timeout is lost.
  method Run(base: Base, cmds: seq<(Cmd, int)>, ghost users: set<Event>) returns (ghost trace: seq<Shot>)
    requires Ok(base, users) && forall i :: 0 <= i < |cmds| ==> Legal(cmds[i].0, users)
    modifies base, base.all
    ensures Ok(base, users) && History(cmds, trace) && trace[0] == old(base.Look()) && trace[|cmds|] == base.Look()
    ensures forall k :: 0 <= k < |trace| ==> AllNoticed(trace[k])
  {
    hide Ok, Legal, Effect, AllNoticed;
    trace := [base.Look()];
    NeverLost(base, users);
    for i := 0 to |cmds|
      invariant Ok(base, users) && forall e :: e in base.all && e !in old(base.all) ==> fresh(e)
      invariant History(cmds[..i], trace) && trace[0] == old(base.Look()) && trace[i] == base.Look()
      invariant forall k :: 0 <= k < |trace| ==> AllNoticed(trace[k])
    {
      Step(base, cmds[i].0, cmds[i].1, users);
      NeverLost(base, users);
      trace := trace + [base.Look()];
    }
    assert cmds[..|cmds|] == cmds;
  }

  // What a run keeps, spelled out: each flag stands for membership in its structure.
  lemma Meaning(base: Base, users: set<Event>, e: Event)
    requires Ok(base, users) && e in base.all
    ensures e.active <==> e.pri < |base.queues| && e in base.queues[e.pri]
    ensures forall i :: 0 <= i < |base.queues| && e in base.queues[i] ==> i == e.pri
    ensures e.later <==> e in base.laterQueue
    ensures !(e.active && e.later)
    ensures e.timeout <==> e in base.heap || exists c :: 0 <= c < |base.commons| && e in base.commons[c].events
    ensures e.finalizing ==> !e.timeout
    ensures base.eventCountActive == Total(base.queues) + |base.laterQueue|
    ensures base.eventCount == |set x | x in base.all && x.inserted && !x.internal| + |set x | x in base.all && x.timeout && !x.internal|
              + |set x | x in base.all && x.active && !x.internal| + |set x | x in base.all && x.later && !x.internal|
  {
    hide Total, NoDup, Sorted;
    assert (set x | x in base.all && x.inserted && !x.internal) == Counted(base.ins);
    assert (set x | x in base.all && x.timeout && !x.internal) == Counted(base.tmo);
    assert (set x | x in base.all && x.active && !x.internal) == Counted(base.act);
    assert (set x | x in base.all && x.later && !x.internal) == Counted(base.lat);
    if e.timeout && e.deadline.common >= 0 {
      assert e in base.commons[e.deadline.common].events;
    }
  }

  // Whenever a common timeout is due, its timer has been set for then, or is active or running.
  lemma NeverLost(base: Base, users: set<Event>)
    requires Ok(base, users)
    ensures AllNoticed(base.Look())
  {
    hide Total, Counted, NoDup, Queued;
    forall c, e | 0 <= c < |base.commons| && e in base.commons[c].events
      ensures var t := base.commons[c].timer;
        t in base.act || t == base.current || (t in base.heap && t in base.all && e in base.all && t.deadline.us <= e.deadline.us)
    {
      assert base.Noticed(c);
      var l := base.commons[c].events;
      assert Sorted(l);
      var i :| 0 <= i < |l| && l[i] == e;
      assert l[0].deadline.us <= l[i].deadline.us;
    }
  }
}
