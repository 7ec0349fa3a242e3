// Runs of the interest set: whatever is added, deleted, applied and reinitialised, the kernel
// ends up waiting for exactly what the events of each descriptor wait for.
module InterestRun {
  import opened EpollTable
  import opened InterestSet
  import opened Options

  // What may happen. Disturb is the outside world replacing or dropping a kernel entry, as when
  // a descriptor is closed and its number reused.
  datatype Cmd =
    | Add(ev: Event)
    | Del(ev: Event)
    | Apply
    | Reinit
    | Disturb(fd: int, held: Option<Entry>)
    | Open(fd: int)    // the kernel takes this descriptor from now on
    | Close(fd: int)   // it does not, and has dropped its entry

  // The descriptors the kernel takes after the commands.
  function Taken(cmds: seq<Cmd>, start: set<int>): set<int> {
    if cmds == [] then start else Takes(cmds[|cmds| - 1], Taken(cmds[..|cmds| - 1], start))
  }

  // ... and after one more.
  function Takes(cmd: Cmd, before: set<int>): set<int> {
    match cmd
    case Open(fd) => before + {fd}
    case Close(fd) => before - {fd}
    case _ => before
  }

  // So many events wait for a descriptor already that a counter the event needs is at its maximum.
  ghost predicate Crowded(events: set<Event>, ev: Event) {
    || (ev.kinds.read && |set e | e in events && e.fd == ev.fd && e.kinds.read| == 0xffff)
    || (ev.kinds.write && |set e | e in events && e.fd == ev.fd && e.kinds.write| == 0xffff)
    || (ev.kinds.closed && |set e | e in events && e.fd == ev.fd && e.kinds.closed| == 0xffff)
  }

  // The kinds are those some event in use waits for on a descriptor.
  ghost predicate IsMaskOf(events: set<Event>, fd: int, m: Mask) {
    && (m.read <==> exists e :: e in events && e.fd == fd && e.kinds.read)
    && (m.write <==> exists e :: e in events && e.fd == fd && e.kinds.write)
    && (m.closed <==> exists e :: e in events && e.fd == fd && e.kinds.closed)
  }

  // There is one such set, so the changelist and the immediate path agree.
  lemma MaskUnique(events: set<Event>, fd: int, m: Mask, n: Mask)
    requires IsMaskOf(events, fd, m) && IsMaskOf(events, fd, n)
    ensures m == n
  {
  }

  // The kinds some event waits for on a descriptor.
  ghost function MaskOf(events: set<Event>, fd: int): (m: Mask)
    ensures IsMaskOf(events, fd, m)
  {
    Mask(exists e :: e in events && e.fd == fd && e.kinds.read,
         exists e :: e in events && e.fd == fd && e.kinds.write,
         exists e :: e in events && e.fd == fd && e.kinds.closed)
  }

  // An event is not added: the event map has no place for its descriptor, a counter it needs is at its
  // maximum, or the kernel, when it is told at once, does not take the descriptor.
  ghost predicate Refused(events: set<Event>, ev: Event, changelist: bool, taken: set<int>) {
    || !(0 <= ev.fd < MAP_LIMIT)
    || Crowded(events, ev)
    || (!changelist && ev.fd !in taken && Minus(ev.kinds, MaskOf(events, ev.fd)) != NONE)
  }

  // None is as long as fewer than 65535 events wait for its descriptor, if the map can have a place for that, and the
  // kernel takes it or is told later; any is that waits for a kind that 65535 events wait for.
  lemma RoomForMore(events: set<Event>, ev: Event, changelist: bool, taken: set<int>)
    ensures 0 <= ev.fd < MAP_LIMIT && |set e | e in events && e.fd == ev.fd| < 65535 && (changelist || ev.fd in taken) ==>
              !Refused(events, ev, changelist, taken)
    ensures (ev.kinds.read && |set e | e in events && e.fd == ev.fd && e.kinds.read| == 65535)
            || (ev.kinds.write && |set e | e in events && e.fd == ev.fd && e.kinds.write| == 65535)
            || (ev.kinds.closed && |set e | e in events && e.fd == ev.fd && e.kinds.closed| == 65535) ==>
              Refused(events, ev, changelist, taken)
  {
    var all := set e | e in events && e.fd == ev.fd;
    Fewer((set e | e in events && e.fd == ev.fd && e.kinds.read), all);
    Fewer((set e | e in events && e.fd == ev.fd && e.kinds.write), all);
    Fewer((set e | e in events && e.fd == ev.fd && e.kinds.closed), all);
  }

  lemma Fewer(s: set<Event>, t: set<Event>)
    requires s <= t
    ensures |s| <= |t|
  {
    assert t == s + (t - s);
  }

  // The events in use after the commands.
  ghost function InUse(cmds: seq<Cmd>, changelist: bool, start: set<int>): set<Event> {
    if cmds == [] then {}
    else
      var prior := cmds[..|cmds| - 1];
      After(cmds[|cmds| - 1], InUse(prior, changelist, start), changelist, Taken(prior, start))
  }

  // ... and after one more.
  ghost function After(cmd: Cmd, before: set<Event>, changelist: bool, taken: set<int>): set<Event> {
    match cmd
    case Add(ev) => if ev in before || Refused(before, ev, changelist, taken) then before else before + {ev}
    case Del(ev) => before - {ev}
    case _ => before
  }

  // The events in use when the changelist was last applied; none, for a new kernel descriptor.
  ghost function Asked(cmds: seq<Cmd>, changelist: bool, start: set<int>): set<Event> {
    if cmds == [] then {}
    else
      match cmds[|cmds| - 1]
      case Apply => InUse(cmds, changelist, start)
      case Reinit => {}
      case _ => Asked(cmds[..|cmds| - 1], changelist, start)
  }

  // The descriptors still disturbed after one more command: a change of what a descriptor is waited
  // for, once it reaches the kernel, corrects the descriptor. With the changelist that is when the
  // changes are applied, and then only the change since the last time counts.
  ghost function Left(cmd: Cmd, changelist: bool, except: set<int>, before: set<Event>, after: set<Event>, asked: set<Event>): set<int> {
    match cmd
    case Disturb(fd, _) => except + {fd}
    case Open(fd) => except + {fd}
    case Close(fd) => except
    case Reinit => {}
    case Apply => if changelist then set fd | fd in except && MaskOf(before, fd) == MaskOf(asked, fd) else except
    case Add(ev) => if changelist || MaskOf(before, ev.fd) == MaskOf(after, ev.fd) then except else except - {ev.fd}
    case Del(ev) => if changelist || MaskOf(before, ev.fd) == MaskOf(after, ev.fd) then except else except - {ev.fd}
  }

  // The descriptors disturbed, or opened, since the kernel's descriptor was made, and not corrected since.
  ghost function Disturbed(cmds: seq<Cmd>, changelist: bool, start: set<int>): set<int> {
    if cmds == [] then {}
    else
      var before := cmds[..|cmds| - 1];
      Left(cmds[|cmds| - 1], changelist, Disturbed(before, changelist, start), InUse(before, changelist, start),
           InUse(cmds, changelist, start), Asked(before, changelist, start))
  }

  // The lists of the base hold the events in use.
  ghost predicate Lists(base: EventBase, events: set<Event>)
    reads base`io, base.Slots()
  {
    && (forall fd, i :: 0 <= i < |base.Events(fd)| ==> base.Events(fd)[i] in events && base.Events(fd)[i].fd == fd)
    && (forall e :: e in events ==> e in base.Events(e.fd))
  }

  // The kernel holds what it was last brought to.
  ghost predicate Undisturbed(base: EventBase, except: set<int>)
    reads base`io, base.Slots(), base.kernel
  {
    forall fd :: fd in base.kernel.usable && fd !in except ==> base.kernel.Interest(fd) == base.Applied(fd)
  }

  // The changelist has last been applied for these events.
  ghost predicate Brought(base: EventBase, asked: set<Event>)
    reads base`io, base.Slots()
  {
    base.useChangelist ==> forall fd :: base.Applied(fd) == MaskOf(asked, fd)
  }

  // The counters count.
  lemma {:induction false} CountIs(l: seq<Event>)
    requires forall j, k :: 0 <= j < k < |l| ==> l[j] != l[k]
    ensures Count(l).read == |set e | e in l && e.kinds.read|
    ensures Count(l).write == |set e | e in l && e.kinds.write|
    ensures Count(l).closed == |set e | e in l && e.kinds.closed|
  {
    if l != [] {
      var h, t := l[0], l[1..];
      CountIs(t);
      HeadAndTail(l);
      assert Count(l) == Plus(Count(t), h.kinds);
      hide Count;
      OneMore((set e | e in l && e.kinds.read), (set e | e in t && e.kinds.read), h, h.kinds.read);
      OneMore((set e | e in l && e.kinds.write), (set e | e in t && e.kinds.write), h, h.kinds.write);
      OneMore((set e | e in l && e.kinds.closed), (set e | e in t && e.kinds.closed), h, h.kinds.closed);
    }
  }

  lemma HeadAndTail(l: seq<Event>)
    requires l != [] && forall j, k :: 0 <= j < k < |l| ==> l[j] != l[k]
    ensures l[0] !in l[1..] && forall e :: e in l <==> e == l[0] || e in l[1..]
  {
    assert l == [l[0]] + l[1..];
  }

  lemma OneMore(all: set<Event>, others: set<Event>, h: Event, counts: bool)
    requires h !in others && forall e :: e in all <==> (e == h && counts) || e in others
    ensures |all| == |others| + One(counts)
  {
    assert all == others + if counts then {h} else {};
  }

  lemma FullIs(base: EventBase, events: set<Event>, ev: Event)
    requires base.Valid() && Lists(base, events)
    ensures base.Full(ev) <==> Crowded(events, ev)
  {
    hide EventBase.Valid, EventBase.Events, Count;
    var l := base.Events(ev.fd);
    Distinct(base, ev.fd);
    CountIs(l);
    assert forall e :: e in l <==> e in events && e.fd == ev.fd;
    assert (set e | e in l && e.kinds.read) == set e | e in events && e.fd == ev.fd && e.kinds.read;
    assert (set e | e in l && e.kinds.write) == set e | e in events && e.fd == ev.fd && e.kinds.write;
    assert (set e | e in l && e.kinds.closed) == set e | e in events && e.fd == ev.fd && e.kinds.closed;
  }

  // Events of a list without repetition, after one of them has been taken out.
  lemma ListWithout(events: seq<Event>, i: nat)
    requires i < |events| && forall j, k :: 0 <= j < k < |events| ==> events[j] != events[k]
    ensures forall e :: e in events[..i] + events[i + 1..] <==> e in events && e != events[i]
  {
    var rest := events[..i] + events[i + 1..];
    forall e | e in events && e != events[i] ensures e in rest {
      var j :| 0 <= j < |events| && events[j] == e;
      assert rest[if j < i then j else j - 1] == e;
    }
  }

  // The kinds an event would be the first to wait for.
  lemma NewIs(base: EventBase, events: set<Event>, ev: Event)
    requires base.Valid() && Lists(base, events)
    ensures base.New(ev) == Minus(ev.kinds, MaskOf(events, ev.fd))
    ensures base.New(ev) == NONE ==> MaskOf(events + {ev}, ev.fd) == MaskOf(events, ev.fd)
  {
    hide EventBase.Valid, EventBase.Events, Count;
    Interested(base, events, ev.fd);
    MaskUnique(events, ev.fd, MaskOf(events, ev.fd), Wanted(Count(base.Events(ev.fd))));
    assert forall e :: e in events + {ev} <==> e in events || e == ev;
  }

  // event_add: the event is added unless it already is, or is refused.
  method DoAdd(base: EventBase, ev: Event, ghost events: set<Event>, ghost except: set<int>, ghost asked: set<Event>)
    returns (ghost after: set<Event>, ghost left: set<int>)
    requires base.Valid() && Lists(base, events) && Undisturbed(base, except) && Brought(base, asked)
    modifies base`io, base`changes, base`changesSize, base.Slots(), base.kernel`entries
    ensures after == After(Cmd.Add(ev), events, base.useChangelist, base.kernel.usable)
    ensures left == Left(Cmd.Add(ev), base.useChangelist, except, events, after, asked)
    ensures base.Valid() && Lists(base, after) && Undisturbed(base, left) && Brought(base, asked)
    ensures forall x :: base.Slot(x) == old(base.Slot(x)) || fresh(base.Slot(x))
  {
    hide EventBase.Valid, Count, Wanted, Minus, EventBase.Full, EventBase.New, EventBase.Events, EventBase.Applied, Crowded, MaskOf;
    after := After(Cmd.Add(ev), events, base.useChangelist, base.kernel.usable);
    left := Left(Cmd.Add(ev), base.useChangelist, except, events, after, asked);
    Listed(base, ev, events);
    if ev in base.Events(ev.fd) {
      return;
    }
    FullIs(base, events, ev);
    NewIs(base, events, ev);
    var r := base.IoAdd(ev.fd, ev);
  }

  lemma Listed(base: EventBase, ev: Event, events: set<Event>)
    requires Lists(base, events)
    ensures ev in base.Events(ev.fd) <==> ev in events
  {
  }

  lemma Distinct(base: EventBase, fd: int)
    requires base.Valid()
    ensures forall i, j :: 0 <= i < j < |base.Events(fd)| ==> base.Events(fd)[i] != base.Events(fd)[j]
    ensures base.Events(fd) != [] ==> 0 <= fd < |base.io|
  {
    hide EventBase.Backend, Count;
  }

  // What an event waits for is waited for by no other when it leaves, or nothing has changed.
  lemma Parted(base: EventBase, events: set<Event>, ev: Event)
    requires base.Valid() && Lists(base, events - {ev}) && ev in events && MaskOf(events, ev.fd) != MaskOf(events - {ev}, ev.fd)
    ensures base.Last(ev, base.Events(ev.fd)) != NONE
  {
    hide EventBase.Valid, EventBase.Events, Count;
    Interested(base, events - {ev}, ev.fd);
    MaskUnique(events - {ev}, ev.fd, MaskOf(events - {ev}, ev.fd), Wanted(Count(base.Events(ev.fd))));
    assert forall e :: e in events <==> e in events - {ev} || e == ev;
  }

  // evmap_io_del_ of an event that is in its list; `i` is its place.
  method Delete(base: EventBase, ev: Event, ghost except: set<int>, ghost asked: set<Event>) returns (ghost i: nat)
    requires base.Valid() && Undisturbed(base, except) && Brought(base, asked) && ev in base.Events(ev.fd)
    modifies base`io, base`changes, base`changesSize, base.Slots(), base.kernel`entries
    ensures base.Valid() && Brought(base, asked) && Undisturbed(base, except)
    ensures !base.useChangelist && base.Last(ev, base.Events(ev.fd)) != NONE ==> Undisturbed(base, except - {ev.fd})
    ensures i < |old(base.Events(ev.fd))| && old(base.Events(ev.fd))[i] == ev
    ensures base.Events(ev.fd) == old(base.Events(ev.fd))[..i] + old(base.Events(ev.fd))[i + 1..]
    ensures forall fd :: fd != ev.fd ==> base.Events(fd) == old(base.Events(fd))
    ensures forall x :: base.Slot(x) == old(base.Slot(x))
  {
    hide EventBase.Valid, Count, Wanted, Minus, EventBase.Last, EventBase.Events, EventBase.Applied, MaskOf;
    Distinct(base, ev.fd);
    ghost var l := base.Events(ev.fd);
    var r := base.IoDel(ev.fd, ev);
    i :| 0 <= i < |l| && l[i] == ev && base.Events(ev.fd) == l[..i] + l[i + 1..];
  }

  // event_del: the event is deleted if it has been added.
  method DoDel(base: EventBase, ev: Event, ghost events: set<Event>, ghost except: set<int>, ghost asked: set<Event>)
    returns (ghost after: set<Event>, ghost left: set<int>)
    requires base.Valid() && Lists(base, events) && Undisturbed(base, except) && Brought(base, asked)
    modifies base`io, base`changes, base`changesSize, base.Slots(), base.kernel`entries
    ensures after == events - {ev} && left == Left(Cmd.Del(ev), base.useChangelist, except, events, after, asked)
    ensures base.Valid() && Lists(base, after) && Undisturbed(base, left) && Brought(base, asked)
    ensures forall x :: base.Slot(x) == old(base.Slot(x))
  {
    hide EventBase.Valid, EventBase.Events, EventBase.Applied, Undisturbed, Brought, MaskOf, EventBase.Last;
    after := events - {ev};
    left := Left(Cmd.Del(ev), base.useChangelist, except, events, after, asked);
    if ev !in base.Events(ev.fd) {
      assert events - {ev} == events by { Listed(base, ev, events); }
      return;
    }
    assert ev in events by { Listed(base, ev, events); }
    Distinct(base, ev.fd);
    ghost var l := base.Events(ev.fd);
    ghost var i := Delete(base, ev, except, asked);
    ListWithout(l, i);
    if MaskOf(events, ev.fd) != MaskOf(after, ev.fd) {
      Parted(base, events, ev);
    }
  }

  // With the changelist, a descriptor whose set has changed since it was last brought to the kernel
  // has a change pending.
  lemma ChangePending(base: EventBase, events: set<Event>, asked: set<Event>, fd: int)
    requires base.Valid() && Lists(base, events) && Brought(base, asked) && base.useChangelist && MaskOf(events, fd) != MaskOf(asked, fd)
    ensures base.Pending(fd)
  {
    hide EventBase.Valid, EventBase.Events, EventBase.Applied, EventBase.Told, EventBase.Pending, Count, Wanted, MaskOf;
    assert base.Backend() by { BackendOf(base); }
    base.ToldWanted(fd);
    Interested(base, events, fd);
    MaskUnique(events, fd, MaskOf(events, fd), Wanted(Count(base.Events(fd))));
    if !base.Pending(fd) {
      base.NotPending(fd);
    }
  }

  lemma BackendOf(base: EventBase)
    requires base.Valid()
    ensures base.Backend()
  {
  }

  // epoll_dispatch brings the kernel to what is waited for.
  method Settle(base: EventBase, ghost events: set<Event>, ghost except: set<int>, ghost asked: set<Event>) returns (ghost left: set<int>)
    requires base.Valid() && Lists(base, events) && Undisturbed(base, except) && Brought(base, asked)
    modifies base`changes, base.Slots(), base.kernel`entries
    ensures base.Valid() && Lists(base, events) && Brought(base, events)
    ensures left == Left(Apply, base.useChangelist, except, events, events, asked) && Undisturbed(base, left)
    ensures forall fd :: fd in base.kernel.usable && fd !in left ==> base.kernel.Interest(fd) == MaskOf(events, fd)
  {
    hide EventBase.Valid, Count, Wanted, EventBase.Events, EventBase.Applied, EventBase.Pending, MaskOf, IsMaskOf;
    left := Left(Apply, base.useChangelist, except, events, events, asked);
    BackendOf(base);
    if base.useChangelist {
      forall fd | MaskOf(events, fd) != MaskOf(asked, fd) ensures base.Pending(fd) {
        ChangePending(base, events, asked, fd);
      }
    }
    base.Dispatch();
    forall fd ensures Wanted(Count(base.Events(fd))) == MaskOf(events, fd) {
      Interested(base, events, fd);
      MaskUnique(events, fd, MaskOf(events, fd), Wanted(Count(base.Events(fd))));
    }
  }

  // event_reinit
  method DoReinit(base: EventBase, ghost events: set<Event>)
    requires base.Valid() && Lists(base, events)
    modifies base`changes, base`changesSize, base.Slots(), base.kernel`entries
    ensures base.Valid() && Lists(base, events) && Undisturbed(base, {}) && Brought(base, {})
  {
    hide EventBase.Valid, Count, Wanted, EventBase.Events, EventBase.Applied;
    var _ := base.Reinit();
    assert forall fd :: MaskOf({}, fd) == NONE;
  }

  // One command.
  method Step(base: EventBase, cmd: Cmd, ghost events: set<Event>, ghost except: set<int>, ghost asked: set<Event>)
    returns (ghost events': set<Event>, ghost except': set<int>, ghost asked': set<Event>)
    requires base.Valid() && Lists(base, events) && Undisturbed(base, except) && Brought(base, asked)
    modifies base`io, base`changes, base`changesSize, base.Slots(), base.kernel
    ensures base.Valid() && Lists(base, events') && Undisturbed(base, except') && Brought(base, asked')
    ensures base.kernel.usable == Takes(cmd, old(base.kernel.usable))
    ensures events' == After(cmd, events, base.useChangelist, old(base.kernel.usable))
    ensures except' == Left(cmd, base.useChangelist, except, events, events', asked)
    ensures asked' == if cmd.Apply? then events else if cmd.Reinit? then {} else asked
    ensures forall x :: base.Slot(x) == old(base.Slot(x)) || fresh(base.Slot(x))
  {
    hide EventBase.Valid, Count, Wanted, EventBase.Events, EventBase.Applied, EventBase.Pending, Crowded, Refused, Brought, Lists, MaskOf;
    events', except', asked' := events, except, asked;
    match cmd {
      case Add(ev) =>
        events', except' := DoAdd(base, ev, events, except, asked);
      case Del(ev) =>
        events', except' := DoDel(base, ev, events, except, asked);
      case Apply =>
        except' := Settle(base, events, except, asked);
        asked' := events;
      case Reinit =>
        DoReinit(base, events);
        except', asked' := {}, {};
      case Disturb(fd, held) =>
        base.kernel.entries := if held.None? then base.kernel.entries - {fd} else base.kernel.entries[fd := held.value];
        except' := except + {fd};
      case Open(fd) =>
        base.kernel.usable := base.kernel.usable + {fd};
        except' := except + {fd};
      case Close(fd) =>
        base.kernel.usable, base.kernel.entries := base.kernel.usable - {fd}, base.kernel.entries - {fd};
    }
  }

  lemma Interested(base: EventBase, events: set<Event>, fd: int)
    requires Lists(base, events)
    ensures IsMaskOf(events, fd, Wanted(Count(base.Events(fd))))
  {
    WantedIsInterest(base.Events(fd));
    assert forall e :: e in events && e.fd == fd ==> e in base.Events(fd);
    assert forall e :: e in base.Events(fd) ==> e in events && e.fd == fd;
  }

  // Any commands, and the next dispatch: the kernel waits for exactly what the events in use
  // wait for, with either backend.
  method Run(kernel: Kernel, useChangelist: bool, cmds: seq<Cmd>) returns (base: EventBase)
    requires kernel.entries == map[]
    modifies kernel
    ensures base.Valid() && base.kernel == kernel && kernel.usable == Taken(cmds, old(kernel.usable))
    ensures Lists(base, InUse(cmds, useChangelist, old(kernel.usable)))
    ensures forall fd :: fd in kernel.usable && fd !in Disturbed(cmds + [Apply], useChangelist, old(kernel.usable)) ==>
              kernel.Interest(fd) == MaskOf(InUse(cmds, useChangelist, old(kernel.usable)), fd)
  {
    hide EventBase.Valid, EventBase.Events, EventBase.Applied, Lists, Undisturbed, Brought, MaskOf, Left, Refused, Crowded, Kernel.Interest;
    base := new EventBase(kernel, useChangelist);
    Fresh(base);
    ghost var start := kernel.usable;
    ghost var events, except, asked := {}, {}, {};
    for i := 0 to |cmds|
      invariant base.Valid() && kernel.usable == Taken(cmds[..i], start) && events == InUse(cmds[..i], useChangelist, start)
      invariant except == Disturbed(cmds[..i], useChangelist, start) && asked == Asked(cmds[..i], useChangelist, start)
      invariant Lists(base, events) && Undisturbed(base, except) && Brought(base, asked)
      invariant forall x :: base.Slot(x) != null ==> fresh(base.Slot(x))
    {
      assert cmds[..i + 1][..i] == cmds[..i];
      SlotsAre(base);
      events, except, asked := Step(base, cmds[i], events, except, asked);
    }
    assert cmds[..|cmds|] == cmds;
    SlotsAre(base);
    assert (cmds + [Apply])[..|cmds|] == cmds;
    except := Settle(base, events, except, asked);
  }

  lemma SlotsAre(base: EventBase)
    ensures forall s :: s in base.Slots() ==> exists fd :: base.Slot(fd) == s
  {
    forall s | s in base.Slots() ensures exists fd :: base.Slot(fd) == s {
      var i :| 0 <= i < |base.io| && base.io[i] == s;
      assert base.Slot(i) == s;
    }
  }

  lemma Fresh(base: EventBase)
    requires base.io == [] && base.kernel.entries == map[]
    ensures Lists(base, {}) && Undisturbed(base, {}) && Brought(base, {})
  {
    assert forall fd :: MaskOf({}, fd) == NONE;
  }
}
