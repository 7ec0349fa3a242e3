// The interest set of a file descriptor: the counters of evmap.c, the coalescing changelist,
// and the calls of epoll.c that make the kernel's set agree with the counters.
module InterestSet {
  import opened EpollTable

  // An event as evmap.c sees it: what it waits for on which descriptor, and EV_ET.
  class Event {
    const fd: int
    const kinds: Mask
    const et: bool

    constructor (fd: int, kinds: Mask, et: bool)
      ensures this.fd == fd && this.kinds == kinds && this.et == et
    {
      this.fd, this.kinds, this.et := fd, kinds, et;
    }
  }

  // How many events of a list wait for reading, writing and closing.
  datatype Tally = Tally(read: nat, write: nat, closed: nat)

  function One(b: bool): nat {
    if b then 1 else 0
  }

  function Plus(t: Tally, m: Mask): Tally {
    Tally(t.read + One(m.read), t.write + One(m.write), t.closed + One(m.closed))
  }

  function Count(events: seq<Event>): Tally {
    if events == [] then Tally(0, 0, 0) else Plus(Count(events[1..]), events[0].kinds)
  }

  // The kinds that somebody waits for.
  function Wanted(t: Tally): Mask {
    Mask(t.read > 0, t.write > 0, t.closed > 0)
  }

  // The kinds some event of the list waits for, one by one.
  ghost predicate IsInterest(events: seq<Event>, m: Mask) {
    && (m.read <==> exists e :: e in events && e.kinds.read)
    && (m.write <==> exists e :: e in events && e.kinds.write)
    && (m.closed <==> exists e :: e in events && e.kinds.closed)
  }

  // The counters say exactly what the events of the list wait for.
  lemma {:induction false} WantedIsInterest(events: seq<Event>)
    ensures IsInterest(events, Wanted(Count(events)))
  {
    if events != [] {
      WantedIsInterest(events[1..]);
      assert forall e :: e in events <==> e == events[0] || e in events[1..];
      assert events[0] in events;
    }
  }

  lemma {:induction false} CountConcat(a: seq<Event>, b: seq<Event>)
    ensures Count(a + b) == Tally(Count(a).read + Count(b).read, Count(a).write + Count(b).write, Count(a).closed + Count(b).closed)
  {
    if a == [] {
      assert a + b == b;
    } else {
      CountConcat(a[1..], b);
      assert (a + b)[1..] == a[1..] + b;
    }
  }

  // Taking one event out of a list.
  lemma CountRemove(events: seq<Event>, i: nat)
    requires i < |events|
    ensures Count(events) == Plus(Count(events[..i] + events[i + 1..]), events[i].kinds)
  {
    CountConcat(events[..i], events[i + 1..]);
    CountConcat(events[..i], events[i..]);
    assert events == events[..i] + events[i..];
    assert events[i..][1..] == events[i + 1..];
  }

  lemma UnionNone(m: Mask)
    ensures Union(m, NONE) == m == Union(NONE, m)
  {
  }

  // Different events, all for one descriptor.
  ghost predicate Proper(events: seq<Event>, fd: int) {
    && (forall i :: 0 <= i < |events| ==> events[i].fd == fd)
    && (forall i, j :: 0 <= i < j < |events| ==> events[i] != events[j])
  }

  lemma ProperCons(ev: Event, events: seq<Event>, fd: int)
    requires Proper(events, fd) && ev.fd == fd && ev !in events
    ensures Proper([ev] + events, fd)
    ensures Count([ev] + events) == Plus(Count(events), ev.kinds)
  {
    assert ([ev] + events)[1..] == events;
  }

  lemma ProperRemove(events: seq<Event>, i: nat, fd: int)
    requires Proper(events, fd) && i < |events|
    ensures Proper(events[..i] + events[i + 1..], fd) && events[i] !in events[..i] + events[i + 1..]
  {
  }

  function Union(a: Mask, b: Mask): Mask {
    Mask(a.read || b.read, a.write || b.write, a.closed || b.closed)
  }

  function Minus(a: Mask, b: Mask): Mask {
    Mask(a.read && !b.read, a.write && !b.write, a.closed && !b.closed)
  }

  // The counters with one more event, and the kinds it is the first to wait for.
  method CountUp(t: Tally, kinds: Mask) returns (t': Tally, res: Mask)
    ensures t' == Plus(t, kinds) && res == Minus(kinds, Wanted(t))
  {
    t', res := t, NONE;
    if kinds.read {
      t' := t'.(read := t'.read + 1);
      if t'.read == 1 { res := res.(read := true); }
    }
    if kinds.write {
      t' := t'.(write := t'.write + 1);
      if t'.write == 1 { res := res.(write := true); }
    }
    if kinds.closed {
      t' := t'.(closed := t'.closed + 1);
      if t'.closed == 1 { res := res.(closed := true); }
    }
  }

  // The counters with one event less, and the kinds nobody waits for any more.
  method CountDown(t: Tally, kinds: Mask, ghost rest: Tally) returns (t': Tally, res: Mask)
    requires t == Plus(rest, kinds)
    ensures t' == rest && res == Minus(kinds, Wanted(rest))
  {
    t', res := t, NONE;
    if kinds.read {
      t' := t'.(read := t'.read - 1);
      if t'.read == 0 { res := res.(read := true); }
    }
    if kinds.write {
      t' := t'.(write := t'.write - 1);
      if t'.write == 0 { res := res.(write := true); }
    }
    if kinds.closed {
      t' := t'.(closed := t'.closed - 1);
      if t'.closed == 0 { res := res.(closed := true); }
    }
  }

  lemma WantedPlus(t: Tally, kinds: Mask)
    ensures Wanted(Plus(t, kinds)) == Union(Wanted(t), Minus(kinds, Wanted(t)))
    ensures Wanted(t) == Minus(Wanted(Plus(t, kinds)), Minus(kinds, Wanted(t)))
    ensures Minus(Minus(kinds, Wanted(t)), Wanted(Plus(t, kinds))) == NONE
    ensures Minus(kinds, Wanted(t)) == NONE ==> Wanted(Plus(t, kinds)) == Wanted(t)
  {
  }

  // A kernel entry: the events, and EPOLLET.
  datatype Entry = Entry(events: Mask, et: bool)
  datatype Errno = NoError | EEXIST | ENOENT | EBADF

  // The kernel's side of an epoll descriptor.
  class Kernel {
    var entries: map<int, Entry>
    // The descriptors that epoll_ctl accepts; on others every call gives EBADF.
    var usable: set<int>

    constructor ()
      ensures entries == map[] && usable == {}
    {
      entries, usable := map[], {};
    }

    // The kernel's set for a descriptor.
    function Interest(fd: int): Mask
      reads this
    {
      if fd in entries then entries[fd].events else NONE
    }

    // epoll_ctl
    method Ctl(op: Operation, fd: int, e: Entry) returns (err: Errno)
      requires op.Add? || op.Mod? || op.Del?
      modifies this`entries
      ensures err == if fd !in usable then EBADF
                     else if op.Add? && fd in old(entries) then EEXIST
                     else if !op.Add? && fd !in old(entries) then ENOENT
                     else NoError
      ensures entries == if err != NoError then old(entries)
                         else if op.Del? then old(entries) - {fd} else old(entries)[fd := e]
    {
      if fd !in usable {
        return EBADF;
      }
      match op {
        case Add(_) =>
          if fd in entries { return EEXIST; }
          entries := entries[fd := e];
        case Mod(_) =>
          if fd !in entries { return ENOENT; }
          entries := entries[fd := e];
        case Del(_) =>
          if fd !in entries { return ENOENT; }
          entries := entries - {fd};
      }
      err := NoError;
    }
  }

  // EPOLLET is asked for if any of the changes has EV_CHANGE_ET.
  predicate EdgeTriggered(ch: EventChange) {
    ch.read.et || ch.write.et || ch.close.et
  }

  predicate IsEmpty(ch: EventChange) {
    !Adds(ch) && !Deletes(ch)
  }

  // What the kernel should hold for a descriptor after a change.
  function Corrected(entries: map<int, Entry>, ch: EventChange): map<int, Entry> {
    if After(ch) == NONE then entries - {ch.fd} else entries[ch.fd := Entry(After(ch), EdgeTriggered(ch))]
  }

  // epoll_apply_one_change. An empty change does nothing; any other brings the kernel to the
  // wanted set, whatever it held for the descriptor before.
  method ApplyOneChange(kernel: Kernel, ch: EventChange) returns (result: int)
    requires Sane(ch)
    modifies kernel`entries
    ensures result == if !IsEmpty(ch) && ch.fd !in kernel.usable && After(ch) != NONE then -1 else 0
    ensures kernel.entries == if IsEmpty(ch) || ch.fd !in kernel.usable then old(kernel.entries)
                              else Corrected(old(kernel.entries), ch)
    ensures forall fd :: kernel.Interest(fd) == if fd == ch.fd && !IsEmpty(ch) && fd in kernel.usable then After(ch)
                                                else old(kernel.Interest(fd))
  {
    hide EpollOpTable, TableIndex;
    TableIsRule(ch);
    var op := EpollOpTable(TableIndex(ch));
    if op.Nothing? {
      return 0;
    }
    assert !op.Invalid?;
    var epev := Entry(op.events, EdgeTriggered(ch));
    var err := kernel.Ctl(op, ch.fd, epev);
    if err == NoError {
      return 0;
    }
    match op {
      case Mod(_) =>
        if err == ENOENT {
          err := kernel.Ctl(Operation.Add(op.events), ch.fd, epev);
          return if err == NoError then 0 else -1;
        }
      case Add(_) =>
        if err == EEXIST {
          err := kernel.Ctl(Mod(op.events), ch.fd, epev);
          return if err == NoError then 0 else -1;
        }
      case Del(_) =>
        if err == ENOENT || err == EBADF {
          return 0;
        }
    }
    return -1;
  }

  // struct evmap_io, with the event_changelist_fdinfo behind it.
  class EvmapIo {
    const fd: int
    var events: seq<Event>
    var nread: nat
    var nwrite: nat
    var nclose: nat
    // The index in the changelist, plus one; 0 for none.
    var idxplus1: nat

    // The set the backend has been asked for, and the set it was last brought to.
    ghost var told: Mask
    ghost var applied: Mask

    constructor (fd: int)
      ensures this.fd == fd && events == [] && nread == 0 && nwrite == 0 && nclose == 0 && idxplus1 == 0
      ensures told == NONE && applied == NONE
    {
      this.fd, events, nread, nwrite, nclose, idxplus1 := fd, [], 0, 0, 0, 0;
      told, applied := NONE, NONE;
    }

    // The counters as a set: EV_READ if nread, and so on.
    function Old(): Mask
      reads this`nread, this`nwrite, this`nclose
    {
      Mask(nread > 0, nwrite > 0, nclose > 0)
    }

    // The counters count the events of the list, and the backend has been asked for them.
    ghost predicate Counted()
      reads this
    {
      CountsOk() && told == Old()
    }

    // The counters alone.
    ghost predicate CountsOk()
      reads this`nread, this`nwrite, this`nclose, this`events
    {
      && Tally(nread, nwrite, nclose) == Count(events)
      && nread <= 0xffff && nwrite <= 0xffff && nclose <= 0xffff
      && Proper(events, fd)
    }
  }

  const INT_MAX: int := 0x7fff_ffff
  const POINTER_SIZE: int := 8

  // The change that event_changelist_add_ makes of an entry.
  function AddTo(ch: EventChange, m: Mask, et: bool): EventChange {
    var b := Bits(true, false, et);
    ch.(read := if m.read then b else ch.read, write := if m.write then b else ch.write,
        close := if m.closed then b else ch.close)
  }

  // The change that event_changelist_del_ makes of an entry: deleting what was not set before
  // takes back an add.
  function DelFrom(ch: EventChange, m: Mask, et: bool): EventChange {
    var b := Bits(false, true, et);
    ch.(read := if m.read then (if ch.oldEvents.read then b else NO_CHANGE) else ch.read,
        write := if m.write then (if ch.oldEvents.write then b else NO_CHANGE) else ch.write,
        close := if m.closed then (if ch.oldEvents.closed then b else NO_CHANGE) else ch.close)
  }

  // Coalesced changes add up.
  lemma ChangesAddUp(ch: EventChange, m: Mask, et: bool)
    requires Sane(ch)
    ensures Sane(AddTo(ch, m, et)) && After(AddTo(ch, m, et)) == Union(After(ch), m)
    ensures Sane(DelFrom(ch, m, et)) && After(DelFrom(ch, m, et)) == Minus(After(ch), m)
  {
  }

  lemma NoChangeYet(fd: int, before: Mask)
    ensures var ch := EventChange(fd, before, NO_CHANGE, NO_CHANGE, NO_CHANGE);
            Sane(ch) && IsEmpty(ch) && After(ch) == before
  {
  }

  // Descriptors from here on are more than the event map can grow to.
  const MAP_LIMIT: nat := 0x800_0000

  function Pow2(k: nat): (n: nat)
    ensures n > 0
  {
    if k == 0 then 1 else 2 * Pow2(k - 1)
  }

  lemma {:induction false} Pow2Grows(j: nat, k: nat)
    requires j <= k
    ensures Pow2(j) <= Pow2(k)
  {
    if j < k {
      Pow2Grows(j, k - 1);
    }
  }

  lemma {:induction false} Pow2Plus(j: nat, k: nat)
    ensures Pow2(j + k) == Pow2(j) * Pow2(k)
  {
    if k > 0 {
      Pow2Plus(j, k - 1);
      assert Pow2(j) * (2 * Pow2(k - 1)) == 2 * (Pow2(j) * Pow2(k - 1));
    }
  }

  lemma Pow2Values()
    ensures Pow2(22) == 0x40_0000 && Pow2(23) == 0x80_0000
  {
    assert Pow2(2) == 4;
    Pow2Plus(2, 2);
    Pow2Plus(4, 4);
    Pow2Plus(8, 8);
    Pow2Plus(16, 4);
    Pow2Plus(20, 2);
    assert Pow2(23) == 2 * Pow2(22);
  }

  // The lengths the event map can have.
  ghost predicate Grown(n: nat) {
    n == 0 || exists k: nat :: k <= 22 && n == 32 * Pow2(k)
  }

  lemma GrownFits(n: nat)
    requires Grown(n)
    ensures n <= MAP_LIMIT
  {
    hide Pow2;
    if n != 0 {
      var k: nat :| k <= 22 && n == 32 * Pow2(k);
      Pow2Grows(k, 22);
      Pow2Values();
    }
  }

  // A length that has been doubled beyond the limit is too large for the allocation.
  lemma Overgrown(k: nat)
    ensures if k <= 22 then Grown(32 * Pow2(k)) else 32 * Pow2(k) > INT_MAX / POINTER_SIZE
  {
    hide Pow2;
    if k > 22 {
      Pow2Grows(23, k);
      Pow2Values();
    }
  }

  // The part of an event base that keeps track of file descriptors.
  class EventBase {
    var io: seq<EvmapIo?>
    var changes: seq<EventChange>
    var changesSize: nat
    const kernel: Kernel
    // Whether the backend is "epoll (with changelist)" or "epoll".
    const useChangelist: bool

    constructor (kernel: Kernel, useChangelist: bool)
      ensures Valid() && io == [] && this.kernel == kernel && this.useChangelist == useChangelist
    {
      io, changes, changesSize := [], [], 0;
      this.kernel, this.useChangelist := kernel, useChangelist;
    }

    ghost function Slots(): set<EvmapIo>
      reads this`io
    {
      set i | 0 <= i < |io| && io[i] != null :: io[i]
    }

    // The entry of a descriptor, if it has one.
    function Slot(fd: int): (s: EvmapIo?)
      reads this`io
    {
      if 0 <= fd < |io| then io[fd] else null
    }

    // The events added for a descriptor.
    function Events(fd: int): seq<Event>
      reads this`io, Slots()
    {
      if Slot(fd) == null then [] else Slot(fd).events
    }

    // What the kernel was last brought to, for a descriptor.
    ghost function Applied(fd: int): Mask
      reads this`io, Slots()
    {
      if Slot(fd) == null then NONE else Slot(fd).applied
    }

    // What the changelist has for a descriptor agrees with what the backend has been asked for.
    ghost predicate Tracked(s: EvmapIo, fd: int)
      reads this`changes, s`idxplus1, s`told, s`applied
    {
      && s.fd == fd && s.idxplus1 <= |changes|
      && if s.idxplus1 == 0 then s.told == s.applied
         else
           var ch := changes[s.idxplus1 - 1];
           ch.fd == fd && Sane(ch) && ch.oldEvents == s.applied && After(ch) == s.told
    }

    // The back-pointers are in bijection with the changelist.
    ghost predicate Backend()
      reads this, Slots()`idxplus1, Slots()`told, Slots()`applied
    {
      && (forall fd {:trigger io[fd]} :: 0 <= fd < |io| && io[fd] != null ==> Tracked(io[fd], fd))
      && (forall i :: 0 <= i < |changes| ==>
            0 <= changes[i].fd < |io| && io[changes[i].fd] != null && io[changes[i].fd].idxplus1 == i + 1)
      && |changes| <= changesSize
      && (!useChangelist ==> changes == [])
    }

    // What evmap_check_integrity_ checks, and that the backend knows about it.
    ghost predicate Valid()
      reads this, Slots()
    {
      Backend() && Grown(|io|) && forall fd {:trigger io[fd]} :: 0 <= fd < |io| && io[fd] != null ==> io[fd].Counted()
    }

    // evmap_make_space
    method MakeSpace(slot: int) returns (result: int)
      requires Valid() && slot >= 0
      modifies this`io
      ensures Valid() && forall fd :: Slot(fd) == old(Slot(fd))
      ensures result == if slot < MAP_LIMIT then 0 else -1
      ensures if result == 0 then slot < |io| else unchanged(this)
    {
      GrownFits(|io|);
      if |io| <= slot {
        var nentries := if |io| != 0 then |io| else 32;
        ghost var k: nat := 0;
        if |io| != 0 {
          k :| k <= 22 && |io| == 32 * Pow2(k);
        }
        if slot > INT_MAX / 2 {
          return -1;
        }
        while nentries <= slot
          invariant |io| <= nentries == 32 * Pow2(k) && (nentries <= 2 * slot || nentries == |io| || nentries == 32)
        {
          nentries, k := nentries * 2, k + 1;
        }
        Overgrown(k);
        if nentries > INT_MAX / POINTER_SIZE {
          return -1;
        }
        GrownFits(nentries);
        io := io + seq(nentries - |io|, _ => null);
      }
      return 0;
    }

    // GET_IO_SLOT_AND_CTOR
    method SlotAndCtor(fd: int) returns (s: EvmapIo)
      requires Valid() && 0 <= fd < |io|
      modifies this`io
      ensures Valid() && |io| == old(|io|) && io[fd] == s && (s == old(io[fd]) || (old(io[fd]) == null && fresh(s)))
      ensures forall x :: x != fd ==> Slot(x) == old(Slot(x))
      ensures s.fd == fd && (old(io[fd]) == null ==> s.events == [] && s.applied == NONE)
    {
      if io[fd] == null {
        s := new EvmapIo(fd);
        io := io[fd := s];
      } else {
        s := io[fd];
      }
    }

    // event_changelist_get_or_construct; the result is the index of the change.
    method GetOrConstruct(s: EvmapIo, before: Mask) returns (idx: nat)
      requires Backend() && useChangelist && Slot(s.fd) == s && before == s.told
      modifies this`changes, this`changesSize, s`idxplus1
      ensures Backend() && idx < |changes| && s.idxplus1 == idx + 1 && changes[idx].fd == s.fd
    {
      hide After, Sane;
      NoChangeYet(s.fd, before);
      if s.idxplus1 == 0 {
        if |changes| == changesSize {
          changesSize := if changesSize < 64 then 64 else changesSize * 2;
        }
        idx := |changes|;
        changes := changes + [EventChange(s.fd, before, NO_CHANGE, NO_CHANGE, NO_CHANGE)];
        s.idxplus1 := idx + 1;
      } else {
        idx := s.idxplus1 - 1;
      }
    }

    // Replace the change of an entry, for another set that the backend is asked for.
    method SetChange(s: EvmapIo, idx: nat, ch: EventChange, ghost told: Mask)
      requires Backend() && useChangelist && Slot(s.fd) == s && s.idxplus1 == idx + 1 && idx < |changes|
      requires ch.fd == s.fd && ch.oldEvents == changes[idx].oldEvents && Sane(ch) && After(ch) == told
      modifies this`changes, s`told
      ensures Backend() && s.told == told
    {
      hide After, Sane;
      changes := changes[idx := ch];
      s.told := told;
    }

    // event_changelist_add_
    method ChangelistAdd(s: EvmapIo, before: Mask, m: Mask, et: bool)
      requires Backend() && useChangelist && Slot(s.fd) == s && before == s.told
      modifies this`changes, this`changesSize, s`idxplus1, s`told
      ensures Backend() && s.told == Union(old(s.told), m)
      ensures s.idxplus1 != 0
    {
      hide After, Sane, Union, Minus;
      var idx := GetOrConstruct(s, before);
      ChangesAddUp(changes[idx], m, et);
      SetChange(s, idx, AddTo(changes[idx], m, et), Union(s.told, m));
    }

    // event_changelist_del_
    method ChangelistDel(s: EvmapIo, before: Mask, m: Mask, et: bool)
      requires Backend() && useChangelist && Slot(s.fd) == s && before == s.told
      modifies this`changes, this`changesSize, s`idxplus1, s`told
      ensures Backend() && s.told == Minus(old(s.told), m)
      ensures s.idxplus1 != 0
    {
      hide After, Sane, Union, Minus;
      var idx := GetOrConstruct(s, before);
      ChangesAddUp(changes[idx], m, et);
      SetChange(s, idx, DelFrom(changes[idx], m, et), Minus(s.told, m));
    }

    // epoll_nochangelist_add
    method NochangelistAdd(s: EvmapIo, before: Mask, m: Mask, et: bool) returns (result: int)
      requires Backend() && !useChangelist && Slot(s.fd) == s && before == s.told
      modifies s`told, s`applied, kernel`entries
      ensures Backend()
      ensures result == if s.fd in kernel.usable || m == NONE then 0 else -1
      ensures if m == NONE || result < 0 then s.told == old(s.told) && s.applied == old(s.applied) && unchanged(kernel)
              else s.told == s.applied == Union(old(s.told), m) && kernel.entries == old(kernel.entries)[s.fd := Entry(s.told, et)]
    {
      var none := EventChange(s.fd, before, NO_CHANGE, NO_CHANGE, NO_CHANGE);
      ChangesAddUp(none, m, et);
      result := ApplyOneChange(kernel, AddTo(none, m, et));
      if result == 0 {
        s.told, s.applied := Union(s.told, m), Union(s.told, m);
      }
    }

    // epoll_nochangelist_del
    method NochangelistDel(s: EvmapIo, before: Mask, m: Mask, et: bool) returns (result: int)
      requires Backend() && !useChangelist && Slot(s.fd) == s && before == s.told && m != NONE && Minus(m, before) == NONE
      modifies s`told, s`applied, kernel`entries
      ensures Backend() && s.told == s.applied == Minus(old(s.told), m)
      ensures result == if s.fd in kernel.usable || s.told == NONE then 0 else -1
      ensures kernel.entries == if s.fd !in kernel.usable then old(kernel.entries)
                                else if s.told == NONE then old(kernel.entries) - {s.fd} else old(kernel.entries)[s.fd := Entry(s.told, et)]
    {
      var b := Bits(false, true, et);
      var ch := EventChange(s.fd, before, if m.read then b else NO_CHANGE, if m.write then b else NO_CHANGE, if m.closed then b else NO_CHANGE);
      result := ApplyOneChange(kernel, ch);
      s.told, s.applied := Minus(s.told, m), Minus(s.told, m);
    }

    // evsel->add
    method BackendAdd(s: EvmapIo, before: Mask, m: Mask, et: bool) returns (result: int)
      requires Backend() && Slot(s.fd) == s && before == s.told
      modifies this`changes, this`changesSize, s`idxplus1, s`told, s`applied, kernel`entries
      ensures Backend()
      ensures result == if !useChangelist && s.fd !in kernel.usable && m != NONE then -1 else 0
      ensures s.told == if result < 0 then old(s.told) else Union(old(s.told), m)
      ensures s.applied == if useChangelist || result < 0 then old(s.applied) else s.told
      ensures kernel.entries == if useChangelist || result < 0 || m == NONE then old(kernel.entries)
                                else old(kernel.entries)[s.fd := Entry(s.told, et)]
    {
      hide Union;
      assert Union(s.told, NONE) == s.told by { UnionNone(s.told); }
      assert !useChangelist ==> s.told == s.applied;
      if useChangelist {
        ChangelistAdd(s, before, m, et);
        result := 0;
      } else {
        result := NochangelistAdd(s, before, m, et);
      }
    }

    // evsel->del
    method BackendDel(s: EvmapIo, before: Mask, m: Mask, et: bool) returns (result: int)
      requires Backend() && Slot(s.fd) == s && before == s.told && m != NONE && Minus(m, before) == NONE
      modifies this`changes, this`changesSize, s`idxplus1, s`told, s`applied, kernel`entries
      ensures Backend() && s.told == Minus(old(s.told), m)
      ensures result == if !useChangelist && s.fd !in kernel.usable && s.told != NONE then -1 else 0
      ensures s.applied == if useChangelist then old(s.applied) else s.told
      ensures kernel.entries == if useChangelist || s.fd !in kernel.usable then old(kernel.entries)
                                else if s.told == NONE then old(kernel.entries) - {s.fd} else old(kernel.entries)[s.fd := Entry(s.told, et)]
    {
      hide Union, Minus;
      if useChangelist {
        ChangelistDel(s, before, m, et);
        result := 0;
      } else {
        result := NochangelistDel(s, before, m, et);
      }
    }

    // Some counter the event needs is at its maximum.
    ghost predicate Full(ev: Event)
      reads this`io, Slots()
    {
      var t := Count(Events(ev.fd));
      (ev.kinds.read && t.read == 0xffff) || (ev.kinds.write && t.write == 0xffff) || (ev.kinds.closed && t.closed == 0xffff)
    }

    // The kinds an event is the first to wait for.
    ghost function New(ev: Event): Mask
      reads this`io, Slots()
    {
      Minus(ev.kinds, Wanted(Count(Events(ev.fd))))
    }

    // Store the counters and the list of an entry whose new set the backend has been asked for.
    method Record(s: EvmapIo, t: Tally, events: seq<Event>)
      requires Backend() && Slot(s.fd) == s && s.told == Wanted(t) && t == Count(events)
      requires t.read <= 0xffff && t.write <= 0xffff && t.closed <= 0xffff
      requires Proper(events, s.fd) && Grown(|io|)
      requires forall fd {:trigger io[fd]} :: 0 <= fd < |io| && io[fd] != null && io[fd] != s ==> io[fd].Counted()
      modifies s`nread, s`nwrite, s`nclose, s`events
      ensures Valid() && s.events == events
    {
      hide Count, Proper, Backend, Tracked;
      s.nread, s.nwrite, s.nclose := t.read, t.write, t.closed;
      s.events := events;
    }

    // The part of evmap_io_add_ that has the entry at hand.
    method InsertEvent(s: EvmapIo, ev: Event) returns (result: int)
      requires Valid() && Slot(s.fd) == s && ev.fd == s.fd && ev !in s.events
      modifies this`changes, this`changesSize, s, kernel`entries
      ensures Valid() && -1 <= result <= 1
      ensures s.events == if result < 0 then old(s.events) else [ev] + old(s.events)
      ensures result == -1 <==> old(Full(ev)) || (!useChangelist && ev.fd !in kernel.usable && old(New(ev)) != NONE)
      ensures result >= 0 ==> (result == 1 <==> old(New(ev)) != NONE)
      ensures s.applied == if useChangelist || result < 1 then old(s.applied) else Wanted(Count(s.events))
      ensures kernel.entries == if useChangelist || result < 1 then old(kernel.entries)
                                else old(kernel.entries)[s.fd := Entry(Wanted(Count(s.events)), ev.et)]
    {
      hide Minus, Union, Wanted, Tracked, Proper, Count;
      var before := s.Old();
      assert before == Wanted(Tally(s.nread, s.nwrite, s.nclose)) by { OldIsWanted(s); }
      var t, res := CountUp(Tally(s.nread, s.nwrite, s.nclose), ev.kinds);
      WantedPlus(Tally(s.nread, s.nwrite, s.nclose), ev.kinds);
      if t.read > 0xffff || t.write > 0xffff || t.closed > 0xffff {
        return -1;
      }
      result := 0;
      if res != NONE {
        var r := BackendAdd(s, before, res, ev.et);
        if r == -1 {
          return -1;
        }
        result := 1;
      }
      ProperCons(ev, s.events, s.fd);
      Record(s, t, [ev] + s.events);
    }

    lemma OldIsWanted(s: EvmapIo)
      ensures s.Old() == Wanted(Tally(s.nread, s.nwrite, s.nclose))
    {
    }

    // Each entry belongs to one descriptor.
    lemma OwnSlot()
      requires Backend()
      ensures forall x :: Slot(x) != null ==> Slot(x).fd == x
      ensures forall i {:trigger io[i]} :: 0 <= i < |io| && io[i] != null ==> io[i].fd == i
    {
    }

    // evmap_io_add_: -1 on error, 0 if nothing changed in the backend, 1 if something did.
    method IoAdd(fd: int, ev: Event) returns (result: int)
      requires Valid() && ev.fd == fd && ev !in Events(fd)
      modifies this`io, this`changes, this`changesSize, Slots(), kernel`entries
      ensures Valid() && -1 <= result <= 1
      ensures forall x :: Slot(x) == old(Slot(x)) || (x == fd && old(Slot(x)) == null && fresh(Slot(x)))
      ensures forall x :: x != fd ==> Events(x) == old(Events(x)) && Applied(x) == old(Applied(x))
      ensures Events(fd) == if fd < 0 || result < 0 then old(Events(fd)) else [ev] + old(Events(fd))
      ensures fd < 0 ==> result == 0
      ensures result == -1 <==> fd >= 0 && (fd >= MAP_LIMIT || old(Full(ev)) || (!useChangelist && fd !in kernel.usable && old(New(ev)) != NONE))
      ensures fd >= 0 && result >= 0 ==> (result == 1 <==> old(New(ev)) != NONE)
      ensures Applied(fd) == if useChangelist || result < 1 then old(Applied(fd)) else Wanted(Count(Events(fd)))
      ensures kernel.entries == if useChangelist || result < 1 then old(kernel.entries)
                                else old(kernel.entries)[fd := Entry(Wanted(Count(Events(fd))), ev.et)]
    {
      hide Minus, Union, Wanted, Backend, Tracked, Proper, Count;
      if fd < 0 {
        return 0;
      }
      GrownFits(|io|);
      if fd >= |io| {
        var r := MakeSpace(fd);
        if r == -1 {
          return -1;
        }
      }
      var s := SlotAndCtor(fd);
      OwnSlot();
      result := InsertEvent(s, ev);
    }

    // The kinds an event is the last to wait for, when `rest` are the other events.
    ghost function Last(ev: Event, rest: seq<Event>): Mask {
      Minus(ev.kinds, Wanted(Count(rest)))
    }

    // The part of evmap_io_del_ that has the entry at hand; ev is event i of the list.
    method RemoveEvent(s: EvmapIo, ev: Event, i: nat) returns (result: int)
      requires Valid() && Slot(s.fd) == s && i < |s.events| && s.events[i] == ev
      modifies this`changes, this`changesSize, s, kernel`entries
      ensures Valid() && s.events == old(s.events[..i] + s.events[i + 1..])
      ensures result == if Last(ev, s.events) == NONE then 0
                        else if !useChangelist && s.fd !in kernel.usable && Wanted(Count(s.events)) != NONE then -1 else 1
      ensures s.applied == if useChangelist || result == 0 then old(s.applied) else Wanted(Count(s.events))
      ensures kernel.entries == if useChangelist || result == 0 || s.fd !in kernel.usable then old(kernel.entries)
                                else if Wanted(Count(s.events)) == NONE then old(kernel.entries) - {s.fd}
                                else old(kernel.entries)[s.fd := Entry(Wanted(Count(s.events)), ev.et)]
    {
      hide Minus, Union, Wanted, Tracked, Proper, Count, Plus;
      ghost var rest := s.events[..i] + s.events[i + 1..];
      CountRemove(s.events, i);
      ProperRemove(s.events, i, s.fd);
      var before := s.Old();
      assert before == Wanted(Tally(s.nread, s.nwrite, s.nclose)) by { OldIsWanted(s); }
      var t, res := CountDown(Tally(s.nread, s.nwrite, s.nclose), ev.kinds, Count(rest));
      WantedPlus(Count(rest), ev.kinds);
      PlusBound(Count(rest), ev.kinds);
      LastOld(Count(rest), ev.kinds);
      result := 0;
      if res != NONE {
        var r := BackendDel(s, before, res, ev.et);
        result := if r == -1 then -1 else 1;
      }
      Record(s, t, s.events[..i] + s.events[i + 1..]);
    }

    lemma PlusBound(t: Tally, kinds: Mask)
      ensures t.read <= Plus(t, kinds).read && t.write <= Plus(t, kinds).write && t.closed <= Plus(t, kinds).closed
    {
    }

    // What the last event waited for was wanted.
    lemma LastOld(t: Tally, kinds: Mask)
      ensures Minus(Minus(kinds, Wanted(t)), Wanted(Plus(t, kinds))) == NONE
    {
    }

    // evmap_io_del_. The counters follow the list even when the backend reports an error.
    method IoDel(fd: int, ev: Event) returns (result: int)
      requires Valid() && ev.fd == fd && (0 <= fd < |io| ==> ev in Events(fd))
      modifies this`changes, this`changesSize, Slots(), kernel`entries
      ensures Valid() && forall x :: Slot(x) == old(Slot(x))
      ensures forall x :: x != fd ==> Events(x) == old(Events(x)) && Applied(x) == old(Applied(x))
      ensures if fd < 0 then result == 0 && unchanged(kernel) && unchanged(this) && unchanged(Slots())
              else if fd >= |io| then result == -1 && unchanged(kernel) && unchanged(this) && unchanged(Slots())
              else
                && (exists i :: 0 <= i < |old(Events(fd))| && old(Events(fd))[i] == ev &&
                      Events(fd) == old(Events(fd))[..i] + old(Events(fd))[i + 1..])
                && result == (if Last(ev, Events(fd)) == NONE then 0
                              else if !useChangelist && fd !in kernel.usable && Wanted(Count(Events(fd))) != NONE then -1 else 1)
                && Applied(fd) == (if useChangelist || result == 0 then old(Applied(fd)) else Wanted(Count(Events(fd))))
                && kernel.entries == (if useChangelist || result == 0 || fd !in kernel.usable then old(kernel.entries)
                                      else if Wanted(Count(Events(fd))) == NONE then old(kernel.entries) - {fd}
                                      else old(kernel.entries)[fd := Entry(Wanted(Count(Events(fd))), ev.et)])
    {
      hide Minus, Union, Wanted, Backend, Tracked, Proper, Count;
      if fd < 0 {
        return 0;
      }
      if fd >= |io| {
        return -1;
      }
      OwnSlot();
      var s := io[fd];
      var i :| 0 <= i < |s.events| && s.events[i] == ev;
      result := RemoveEvent(s, ev, i);
    }

    // A change that is not empty is pending for a descriptor.
    ghost predicate Pending(fd: int)
      requires Backend()
      reads this, Slots()`idxplus1, Slots()`told, Slots()`applied
    {
      Slot(fd) != null && Slot(fd).idxplus1 > 0 && !IsEmpty(changes[Slot(fd).idxplus1 - 1])
    }

    ghost function Told(fd: int): Mask
      reads this`io, Slots()`told
    {
      if Slot(fd) == null then NONE else Slot(fd).told
    }

    // The place of a descriptor's change, plus one; 0 for none.
    ghost function Rank(fd: int): nat
      reads this`io, Slots()`idxplus1
    {
      if Slot(fd) == null then 0 else Slot(fd).idxplus1
    }

    lemma ChangeFacts(i: nat)
      requires Backend() && i < |changes|
      ensures var ch := changes[i];
              Sane(ch) && Rank(ch.fd) == i + 1 && After(ch) == Told(ch.fd) && (Pending(ch.fd) <==> !IsEmpty(ch))
      ensures forall fd :: Rank(fd) == i + 1 ==> fd == changes[i].fd
    {
    }

    // epoll_apply_changes
    method ApplyChanges() returns (r: int)
      requires Backend()
      modifies kernel`entries
      ensures forall fd :: kernel.Interest(fd) == if Pending(fd) && fd in kernel.usable then Told(fd) else old(kernel.Interest(fd))
    {
      hide After, Sane, IsEmpty, EdgeTriggered, Tracked, Kernel.Interest, Corrected;
      r := 0;
      RankBound();
      for i := 0 to |changes|
        invariant forall fd :: kernel.Interest(fd) ==
                    if Pending(fd) && Rank(fd) <= i && fd in kernel.usable then Told(fd) else old(kernel.Interest(fd))
      {
        ChangeFacts(i);
        var r1 := ApplyOneChange(kernel, changes[i]);
        if r1 < 0 {
          r := -1;
        }
      }
    }

    lemma RankBound()
      requires Backend()
      ensures forall fd :: Rank(fd) <= |changes| && (Pending(fd) ==> Rank(fd) > 0)
    {
      hide After, Sane, IsEmpty;
    }

    // event_changelist_remove_all_
    method RemoveAll()
      requires Valid()
      modifies this`changes, Slots()`idxplus1, Slots()`applied
      ensures Valid() && changes == [] && forall fd :: Applied(fd) == Told(fd)
    {
      hide After, Sane, IsEmpty, Count, Proper;
      for i := 0 to |changes|
        invariant changes == old(changes)
        invariant forall fd {:trigger io[fd]} :: 0 <= fd < |io| && io[fd] != null ==>
                    if old(io[fd].idxplus1) <= i then io[fd].idxplus1 == 0 && io[fd].applied == io[fd].told
                    else io[fd].idxplus1 == old(io[fd].idxplus1)
      {
        var s := io[changes[i].fd];
        assert s.idxplus1 == i + 1;
        s.idxplus1 := 0;
        s.applied := s.told;
      }
      changes := [];
    }

    lemma NotPending(fd: int)
      requires Backend() && !Pending(fd)
      ensures Told(fd) == Applied(fd)
    {
    }

    lemma ToldWanted(fd: int)
      requires Valid()
      ensures Told(fd) == Wanted(Count(Events(fd)))
    {
    }

    // The part of epoll_dispatch before the call to epoll_wait. Afterwards the kernel waits for
    // exactly what the events of a descriptor wait for, if it was undisturbed, or if a change was
    // pending, whatever had happened to its entry.
    method Dispatch()
      requires Valid()
      modifies this`changes, Slots()`idxplus1, Slots()`applied, kernel`entries
      ensures Valid() && changes == []
      ensures forall fd :: Events(fd) == old(Events(fd)) && Applied(fd) == Wanted(Count(Events(fd)))
      ensures forall fd :: fd in kernel.usable && (old(Pending(fd)) || old(kernel.Interest(fd)) == old(Applied(fd)))
                ==> kernel.Interest(fd) == Wanted(Count(Events(fd)))
      ensures forall fd :: !old(Pending(fd)) ==> kernel.Interest(fd) == old(kernel.Interest(fd))
    {
      hide Backend, Tracked, Count, Wanted, Kernel.Interest, Pending, Told, Applied, EvmapIo.Counted;
      forall fd ensures Told(fd) == Wanted(Count(Events(fd))) && (!Pending(fd) ==> Told(fd) == Applied(fd)) {
        ToldWanted(fd);
        if !Pending(fd) {
          NotPending(fd);
        }
      }
      var _ := ApplyChanges();
      RemoveAll();
      forall fd ensures Told(fd) == Wanted(Count(Events(fd))) {
        ToldWanted(fd);
      }
    }

    // event_reinit: a new epoll descriptor and an empty changelist; the extra data of each
    // entry, cleared by evmap_io_reinit_iter_fn, is cleared here.
    method Forget()
      requires Valid()
      modifies this`changes, Slots()`idxplus1, Slots()`told, Slots()`applied, kernel`entries
      ensures Backend() && changes == [] && kernel.entries == map[]
      ensures forall i {:trigger io[i]} :: 0 <= i < |io| && io[i] != null ==>
                io[i].told == io[i].applied == NONE && io[i].idxplus1 == 0 && io[i].CountsOk()
    {
      hide Count, Proper;
      for i := 0 to |io|
        invariant forall j {:trigger io[j]} :: 0 <= j < i && io[j] != null ==> io[j].told == io[j].applied == NONE && io[j].idxplus1 == 0
      {
        var s := io[i];
        if s != null {
          s.idxplus1 := 0;
          s.told, s.applied := NONE, NONE;
        }
      }
      changes := [];
      kernel.entries := map[];
    }

    // evmap_io_reinit_iter_fn
    method ReinitSlot(s: EvmapIo) returns (result: int)
      requires Backend() && Slot(s.fd) == s && s.told == NONE && s.CountsOk()
      requires forall x :: x in kernel.usable ==> kernel.Interest(x) == Applied(x)
      modifies this`changes, this`changesSize, s`idxplus1, s`told, s`applied, kernel`entries
      ensures Backend() && s.Counted()
      ensures forall x :: x in kernel.usable ==> kernel.Interest(x) == Applied(x)
      ensures useChangelist ==> forall x :: Applied(x) == old(Applied(x))
      ensures result == if !useChangelist && s.fd !in kernel.usable && s.Old() != NONE then -1 else 0
    {
      hide Union, Count, Proper, Plus;
      var et := s.Old() != NONE && s.events != [] && s.events[0].et;
      UnionNone(s.Old());
      OwnSlot();
      result := BackendAdd(s, NONE, s.Old(), et);
      if result == -1 {
        s.told, s.applied := s.Old(), s.Old();
      }
    }

    // evmap_reinit_, for a new epoll descriptor: every set is asked for again.
    method Reinit() returns (result: int)
      requires Valid()
      modifies this`changes, this`changesSize, Slots()`idxplus1, Slots()`told, Slots()`applied, kernel`entries
      ensures Valid() && (result == 0 || result == -1)
      ensures forall fd :: Events(fd) == old(Events(fd))
      ensures forall fd :: fd in kernel.usable ==> kernel.Interest(fd) == Applied(fd)
      ensures useChangelist ==> forall fd :: Applied(fd) == NONE
    {
      hide Backend, Tracked, Count, Proper, Union, Plus;
      Forget();
      result := 0;
      for i := 0 to |io|
        invariant Backend() && (result == 0 || result == -1)
        invariant forall j {:trigger io[j]} :: 0 <= j < |io| && io[j] != null ==>
                    if j < i then io[j].Counted() else io[j].told == NONE && io[j].CountsOk()
        invariant forall x :: x in kernel.usable ==> kernel.Interest(x) == Applied(x)
        invariant useChangelist ==> forall fd :: Applied(fd) == NONE
      {
        if io[i] != null {
          OwnSlot();
          assert Slot(i) == io[i];
          var r := ReinitSlot(io[i]);
          if r == -1 {
            result := -1;
          }
        }
      }
    }
  }
}
