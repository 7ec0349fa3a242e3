// The scheduler of event.c: active queues by priority, the active-later queue, the timeout heap,
// the common-timeout lists, and the flags and counters that have to agree with them.
module Scheduler {
  import opened Options

  // Why an event became active: EV_TIMEOUT, EV_READ, ..., EV_FINALIZE.
  datatype Flag = Timeout | Read | Write | Signal | Closed | Finalize

  // A timeval: microseconds, and the index of the common timeout it is marked with, or -1.
  datatype Timeval = Timeval(us: int, common: int)

  // struct event_callback, and struct event for those with EVLIST_INIT.
  class Event {
    // EVLIST_INIT and EVLIST_INTERNAL
    const isEvent: bool
    const internal: bool
    const pri: nat
    // The event waits for a descriptor or a signal; EV_PERSIST.
    const watches: bool
    const persist: bool

    // EVLIST_INSERTED, EVLIST_TIMEOUT, EVLIST_ACTIVE, EVLIST_ACTIVE_LATER, EVLIST_FINALIZING
    var inserted: bool
    var timeout: bool
    var active: bool
    var later: bool
    var finalizing: bool
    // ev_timeout and ev_io_timeout
    var deadline: Timeval
    var interval: Timeval
    var res: set<Flag>

    constructor (isEvent: bool, internal: bool, pri: nat, watches: bool, persist: bool)
      ensures this.isEvent == isEvent && this.internal == internal && this.pri == pri
      ensures this.watches == watches && this.persist == persist
      ensures !inserted && !timeout && !active && !later && !finalizing && deadline == interval == Timeval(0, -1) && res == {}
    {
      this.isEvent, this.internal, this.pri, this.watches, this.persist := isEvent, internal, pri, watches, persist;
      inserted, timeout, active, later, finalizing := false, false, false, false, false;
      deadline, interval, res := Timeval(0, -1), Timeval(0, -1), {};
    }
  }

  // A timeval as its user gives it.
  datatype Duration = Duration(sec: int, usec: nat)

  // is_common_timeout: the microseconds carry the mark and an index below n.
  predicate Marked(usec: nat, n: nat) {
    usec / 0x1000_0000 % 16 == 5 && usec / 0x10_0000 % 256 < n
  }

  // The duration that is looked for among n common timeouts: more than a second of microseconds is carried over.
  function Carried(d: Duration, n: nat): Duration {
    if d.usec <= 1_000_000 then d
    else
      var usec := if Marked(d.usec, n) then d.usec % 0x10_0000 else d.usec;
      Duration(d.sec + usec / 1_000_000, usec % 1_000_000)
  }

  // Two timevals of the same length share a common timeout, except for one with exactly a million
  // microseconds, which is not carried over, and one with another number.
  lemma SharedExactly(a: Duration, b: Duration, n: nat)
    requires !Marked(a.usec, n) && !Marked(b.usec, n) && a.sec * 1_000_000 + a.usec == b.sec * 1_000_000 + b.usec
    ensures Carried(a, n) == Carried(b, n) <==> (a.usec == 1_000_000 <==> b.usec == 1_000_000)
  {
    hide Marked;
    Whole(a, n);
    Whole(b, n);
  }

  // The duration of a common timeout carries its index and a mark, and is found by it again.
  lemma MarkedIs(sec: int, usec: nat, index: nat, n: nat)
    requires usec < 1_000_000 && index < n <= 256
    ensures var d := Duration(sec, usec + 0x5000_0000 + index * 0x10_0000); Marked(d.usec, n) && Carried(d, n) == Duration(sec, usec)
  {
    var marked := usec + 0x5000_0000 + index * 0x10_0000;
    assert marked / 0x10_0000 == 0x500 + index && marked % 0x10_0000 == usec;
  }

  // A number without the mark, or with an index that is not in use, is just a number.
  lemma NotMarked(usec: nat, n: nat)
    requires n <= 256 && (usec < 0x5000_0000 || usec / 0x10_0000 % 0x1000 >= 0x500 + n || usec / 0x10_0000 % 0x1000 < 0x500)
    ensures !Marked(usec, n)
  {
    var q := usec / 0x10_0000;
    assert usec / 0x1000_0000 == q / 0x100;
    assert q % 0x1000 == q / 0x100 % 16 * 0x100 + q % 0x100;
  }

  lemma Whole(d: Duration, n: nat)
    requires !Marked(d.usec, n)
    ensures var c := Carried(d, n);
      c.sec * 1_000_000 + c.usec == d.sec * 1_000_000 + d.usec && c.usec <= 1_000_000 && (c.usec == 1_000_000 <==> d.usec == 1_000_000)
  {
  }

  // struct common_timeout_list: events with the same duration, and the internal timer for the first.
  datatype CommonTimeouts = CommonTimeouts(events: seq<Event>, timer: Event, duration: Duration)

  ghost predicate NoDup(s: seq<Event>) {
    forall i, j :: 0 <= i < j < |s| ==> s[i] != s[j]
  }

  // A queue without one of its elements.
  function Without(s: seq<Event>, e: Event): (r: seq<Event>)
    requires e in s
  {
    if s[0] == e then s[1..] else [s[0]] + Without(s[1..], e)
  }

  // ... if it is one.
  function Less(s: seq<Event>, e: Event): seq<Event> {
    if e in s then Without(s, e) else s
  }

  // The active queues without callback e, which is in the one of its priority or in none.
  function Unqueued(queues: seq<seq<Event>>, e: Event): seq<seq<Event>> {
    if e.pri < |queues| then queues[e.pri := Less(queues[e.pri], e)] else queues
  }

  // ... and with e at the end of the one of its priority.
  function Pushed(queues: seq<seq<Event>>, e: Event): seq<seq<Event>> {
    if e.pri < |queues| then queues[e.pri := queues[e.pri] + [e]] else queues
  }

  ghost function Elems(s: seq<Event>): set<Event> {
    set e | e in s
  }

  lemma {:induction false} WithoutFacts(s: seq<Event>, e: Event)
    requires NoDup(s) && e in s
    ensures NoDup(Without(s, e)) && |Without(s, e)| == |s| - 1
    ensures Elems(Without(s, e)) == Elems(s) - {e}
  {
    var tail := s[1..];
    assert Elems(s) == {s[0]} + Elems(tail) && s[0] !in Elems(tail);
    if s[0] != e {
      WithoutFacts(tail, e);
      assert Elems([s[0]] + Without(tail, e)) == {s[0]} + Elems(Without(tail, e));
      assert s[0] !in Elems(Without(tail, e));
      NoDupCons(s[0], Without(tail, e));
    }
  }

  lemma NoDupCons(e: Event, s: seq<Event>)
    requires NoDup(s) && e !in s
    ensures NoDup([e] + s)
  {
  }

  lemma NoDupPush(s: seq<Event>, e: Event)
    requires NoDup(s) && e !in s
    ensures NoDup(s + [e]) && forall x :: x in s + [e] <==> x in s || x == e
  {
  }

  // Deadlines do not decrease.
  ghost predicate Sorted(l: seq<Event>)
    reads l`deadline
  {
    forall i, j :: 0 <= i < j < |l| ==> l[i].deadline.us <= l[j].deadline.us
  }

  lemma SortedWithout(l: seq<Event>, e: Event)
    requires Sorted(l) && e in l
    ensures Sorted(Without(l, e)) && (Without(l, e) != [] ==> l[0].deadline.us <= Without(l, e)[0].deadline.us)
  {
    hide Without;
    var k := WithoutAt(l, e);
  }

  // What is left keeps its order.
  lemma {:induction false} WithoutAt(l: seq<Event>, e: Event) returns (k: nat)
    requires e in l
    ensures k < |l| && l[k] == e && Without(l, e) == l[..k] + l[k + 1..]
  {
    if l[0] == e {
      k := 0;
    } else {
      var j := WithoutAt(l[1..], e);
      k := j + 1;
      Shift(l, j);
    }
  }

  lemma Shift(l: seq<Event>, j: nat)
    requires j + 1 < |l|
    ensures [l[0]] + (l[1..][..j] + l[1..][j + 1..]) == l[..j + 1] + l[j + 2..]
  {
    assert l[1..][..j] == l[1..j + 1] && l[1..][j + 1..] == l[j + 2..] && [l[0]] + l[1..j + 1] == l[..j + 1];
  }

  // insert_common_timeout_inorder: the place behind the last event that is not later.
  method InsertInOrder(l: seq<Event>, e: Event, ghost deadlines: map<Event, Timeval>) returns (r: seq<Event>)
    requires Sorted(l) && NoDup(l) && e !in l
    requires forall x :: x in l || x == e ==> x in deadlines && deadlines[x] == x.deadline
    ensures r == Inserted(l, e, deadlines)
    ensures Sorted(r) && NoDup(r) && Elems(r) == Elems(l) + {e} && r != []
    ensures r[0] == e || (l != [] && r[0] == l[0])
    ensures r[0] == e && l != [] ==> e.deadline.us < l[0].deadline.us
    ensures exists k: nat :: Divides(l, k, e) && r == l[..k] + [e] + l[k..]
  {
    hide Sorted, NoDup, Elems, Divides;
    var k: nat := |l|;
    while k > 0
      invariant k <= |l| && forall i :: k <= i < |l| ==> e.deadline.us < l[i].deadline.us
    {
      if e.deadline.us >= l[k - 1].deadline.us {
        break;
      }
      k := k - 1;
    }
    r := l[..k] + [e] + l[k..];
    InsertElems(l, k, e);
    InsertSorted(l, k, e);
    InsertedAt(l, k, e, deadlines);
    NotLater(l, k, e);
  }

  // The first k events of l are not later than e, the others are.
  ghost predicate Divides(l: seq<Event>, k: nat, e: Event)
    reads l`deadline, e`deadline
  {
    k <= |l| && (forall i :: 0 <= i < k ==> l[i].deadline.us <= e.deadline.us) && forall i :: k <= i < |l| ==> e.deadline.us < l[i].deadline.us
  }

  lemma NotLater(l: seq<Event>, k: nat, e: Event)
    requires Sorted(l) && k <= |l| && (k > 0 ==> l[k - 1].deadline.us <= e.deadline.us)
    requires forall i :: k <= i < |l| ==> e.deadline.us < l[i].deadline.us
    ensures Divides(l, k, e)
  {
  }

  lemma InsertSorted(l: seq<Event>, k: nat, e: Event)
    requires k <= |l| && Sorted(l) && (k > 0 ==> e.deadline.us >= l[k - 1].deadline.us)
    requires forall i :: k <= i < |l| ==> e.deadline.us < l[i].deadline.us
    ensures Sorted(l[..k] + [e] + l[k..])
  {
  }

  lemma InsertElems(l: seq<Event>, k: nat, e: Event)
    requires k <= |l| && NoDup(l) && e !in l
    ensures NoDup(l[..k] + [e] + l[k..]) && Elems(l[..k] + [e] + l[k..]) == Elems(l) + {e}
  {
    assert l == l[..k] + l[k..];
  }

  // The total length of the queues.
  function Total(queues: seq<seq<Event>>): nat {
    if queues == [] then 0 else |queues[0]| + Total(queues[1..])
  }

  lemma {:induction false} TotalUpdate(queues: seq<seq<Event>>, i: nat, q: seq<Event>)
    requires i < |queues|
    ensures Total(queues[i := q]) == Total(queues) - |queues[i]| + |q|
  {
    if i == 0 {
      assert queues[0 := q][1..] == queues[1..];
    } else {
      TotalUpdate(queues[1..], i - 1, q);
      assert queues[i := q][1..] == queues[1..][i - 1 := q];
    }
  }

  ghost predicate Holds(s: seq<Event>, events: set<Event>) {
    (forall e :: e in s ==> e in events) && (forall e :: e in events ==> e in s)
  }

  // The queues hold the active callbacks, each in the queue of its priority, once.
  ghost predicate Queued(queues: seq<seq<Event>>, act: set<Event>) {
    && (forall i :: 0 <= i < |queues| ==> NoDup(queues[i]))
    && (forall i, e :: 0 <= i < |queues| && e in queues[i] ==> e in act && e.pri == i)
    && (forall e :: e in act ==> e.pri < |queues| && e in queues[e.pri])
  }

  lemma QueuedPush(queues: seq<seq<Event>>, act: set<Event>, e: Event)
    requires Queued(queues, act) && e !in act && e.pri < |queues|
    ensures Queued(queues[e.pri := queues[e.pri] + [e]], act + {e})
    ensures Total(queues[e.pri := queues[e.pri] + [e]]) == Total(queues) + 1
  {
    NoDupPush(queues[e.pri], e);
    TotalUpdate(queues, e.pri, queues[e.pri] + [e]);
  }

  lemma QueuedRemove(queues: seq<seq<Event>>, act: set<Event>, e: Event)
    requires Queued(queues, act) && e in act
    ensures e in queues[e.pri]
    ensures Queued(queues[e.pri := Without(queues[e.pri], e)], act - {e})
    ensures Total(queues[e.pri := Without(queues[e.pri], e)]) == Total(queues) - 1
  {
    hide Without, NoDup, Total;
    var q := queues[e.pri];
    WithoutFacts(q, e);
    var r := Without(q, e);
    TotalUpdate(queues, e.pri, r);
    var next := queues[e.pri := r];
    forall i, x | 0 <= i < |next| && x in next[i] ensures x in act - {e} && x.pri == i {
      if i == e.pri {
        assert x in Elems(r) && x in q;
      } else {
        assert x in queues[i];
      }
    }
    forall x | x in act - {e} ensures x.pri < |next| && x in next[x.pri] {
      assert x in queues[x.pri];
      if x.pri == e.pri {
        assert x in Elems(r);
      }
    }
  }

  // The callbacks of l, appended to the queues of their priorities.
  ghost function Enqueue(queues: seq<seq<Event>>, l: seq<Event>): (r: seq<seq<Event>>)
    requires forall e :: e in l ==> e.pri < |queues|
    ensures |r| == |queues|
  {
    if l == [] then queues
    else
      var before := Enqueue(queues, l[..|l| - 1]);
      var e := l[|l| - 1];
      before[e.pri := before[e.pri] + [e]]
  }

  lemma EnqueueNone(queues: seq<seq<Event>>)
    ensures Enqueue(queues, []) == queues
  {
  }

  lemma EnqueueOne(queues: seq<seq<Event>>, l: seq<Event>, k: nat)
    requires k < |l| && forall e :: e in l ==> e.pri < |queues|
    ensures var before := Enqueue(queues, l[..k]); Enqueue(queues, l[..k + 1]) == before[l[k].pri := before[l[k].pri] + [l[k]]]
  {
    assert l[..k + 1][..k] == l[..k];
  }

  lemma HoldsPush(s: seq<Event>, events: set<Event>, e: Event)
    requires NoDup(s) && Holds(s, events) && e !in events
    ensures NoDup(s + [e]) && Holds(s + [e], events + {e})
  {
    NoDupPush(s, e);
  }

  lemma HoldsRemove(s: seq<Event>, events: set<Event>, e: Event)
    requires NoDup(s) && Holds(s, events) && e in events
    ensures e in s && NoDup(Without(s, e)) && Holds(Without(s, e), events - {e}) && |Without(s, e)| == |s| - 1
  {
    hide Without, NoDup;
    assert e in s;
    WithoutFacts(s, e);
    assert forall x :: x in Without(s, e) ==> x in Elems(Without(s, e));
    forall x | x in events - {e} ensures x in Without(s, e) {
      assert x in Elems(Without(s, e));
    }
  }

  // The events of a set that are counted: all but the internal ones.
  ghost function Counted(s: set<Event>): set<Event> {
    set e | e in s && !e.internal
  }

  lemma CountedAdd(s: set<Event>, e: Event)
    requires e !in s
    ensures |Counted(s + {e})| == |Counted(s)| + if e.internal then 0 else 1
  {
    assert Counted(s + {e}) == Counted(s) + if e.internal then {} else {e};
  }

  lemma CountedRemove(s: set<Event>, e: Event)
    requires e in s
    ensures |Counted(s - {e})| == |Counted(s)| - if e.internal then 0 else 1
  {
    CountedAdd(s - {e}, e);
    assert s - {e} + {e} == s;
  }

  // A base's state, as a value.
  datatype Shot = Shot(all: set<Event>, ins: set<Event>, tmo: set<Event>, act: set<Event>, lat: set<Event>, fin: set<Event>, heap: set<Event>,
                       queues: seq<seq<Event>>, later: seq<Event>, commons: seq<CommonTimeouts>, deadlines: map<Event, Timeval>,
                       intervals: map<Event, Timeval>, res: map<Event, set<Flag>>, current: Event?)

  // What is known of a callback.
  function DueAt(deadlines: map<Event, Timeval>, e: Event): int {
    if e in deadlines then deadlines[e].us else 0
  }

  function IntervalOf(p: Shot, e: Event): Timeval {
    if e in p.intervals then p.intervals[e] else Timeval(0, -1)
  }

  function Results(p: Shot, e: Event): set<Flag> {
    if e in p.res then p.res[e] else {}
  }

  // The lists of the common timeouts without event e.
  function Dropped(commons: seq<CommonTimeouts>, e: Event): (r: seq<CommonTimeouts>)
    ensures |r| == |commons|
  {
    seq(|commons|, c requires 0 <= c < |commons| => commons[c].(events := Less(commons[c].events, e)))
  }

  // List l with event e behind the last one that is not later.
  function Inserted(l: seq<Event>, e: Event, deadlines: map<Event, Timeval>): (r: seq<Event>)
    ensures r != []
  {
    if l == [] || DueAt(deadlines, l[|l| - 1]) <= DueAt(deadlines, e) then l + [e]
    else Inserted(l[..|l| - 1], e, deadlines) + [l[|l| - 1]]
  }

  lemma {:induction false} InsertedAt(l: seq<Event>, k: nat, e: Event, deadlines: map<Event, Timeval>)
    requires k <= |l| && (k > 0 ==> DueAt(deadlines, l[k - 1]) <= DueAt(deadlines, e))
    requires forall i :: k <= i < |l| ==> DueAt(deadlines, e) < DueAt(deadlines, l[i])
    ensures Inserted(l, e, deadlines) == l[..k] + [e] + l[k..]
  {
    if k < |l| {
      var m := |l| - 1;
      InsertedAt(l[..m], k, e, deadlines);
      assert l[..m][..k] == l[..k] && l[..m][k..] + [l[m]] == l[k..];
    } else {
      assert l[..k] == l && l[k..] == [];
    }
  }

  // Callback e has left the queues, ...
  function Unheld(p: Shot, e: Event): Shot {
    p.(act := p.act - {e}, lat := p.lat - {e}, queues := Unqueued(p.queues, e), later := Less(p.later, e))
  }

  // ... the timeouts, ...
  function Untimed(p: Shot, e: Event): Shot {
    p.(tmo := p.tmo - {e}, heap := p.heap - {e}, commons := Dropped(p.commons, e))
  }

  // ... and all of the base.
  function Deleted(p: Shot, e: Event): Shot {
    Unheld(Untimed(p, e), e).(ins := p.ins - {e})
  }

  // Callback e is cancelled: an event leaves the base, any other callback its queue.
  function Removed(p: Shot, e: Event): Shot {
    if e.isEvent then Deleted(p, e) else Unheld(p, e)
  }

  // Callback e is active: it stays where it is, or goes to the end of its queue.
  function Activated(p: Shot, e: Event): Shot {
    if e in p.act then p
    else p.(act := p.act + {e}, lat := p.lat - {e}, queues := Pushed(p.queues, e), later := Less(p.later, e))
  }

  // Callback e is in the later queue, unless it was in a queue.
  function PutOff(p: Shot, e: Event): Shot {
    if e in p.act || e in p.lat then p else p.(lat := p.lat + {e}, later := p.later + [e])
  }

  // The results of callback e, as those of an activation are added to those it is queued for.
  function Reasoned(p: Shot, e: Event, res: set<Flag>): map<Event, set<Flag>> {
    p.res[e := res + if e in p.act || e in p.lat then Results(p, e) else {}]
  }

  function ActivatedFor(p: Shot, e: Event, res: set<Flag>): Shot {
    Activated(p, e).(res := Reasoned(p, e, res))
  }

  // Event e has timed out.
  function Expired(p: Shot, e: Event): Shot {
    ActivatedFor(Deleted(p, e), e, {Timeout})
  }

  // The events of l have timed out, one after the other.
  function ExpiredAll(p: Shot, l: seq<Event>): Shot {
    if l == [] then p else Expired(ExpiredAll(p, l[..|l| - 1]), l[|l| - 1])
  }

  // Event e has no timeout, and is not active because of one.
  function Unexpired(p: Shot, e: Event): Shot {
    var m := Untimed(p, e);
    if e in p.act && Timeout in Results(p, e) then m.(act := p.act - {e}, queues := Unqueued(p.queues, e)) else m
  }

  // Event e, which had no timeout, is in the heap or in the list of its common timeout.
  function Entered(p: Shot, e: Event, common: int): Shot {
    var m := p.(tmo := p.tmo + {e});
    if common < 0 then m.(heap := p.heap + {e})
    else if common < |p.commons| then
      m.(commons := p.commons[common := p.commons[common].(events := Inserted(p.commons[common].events, e, p.deadlines))])
    else m
  }

  // Event e has the deadline `at`, and no other.
  function Timed(p: Shot, e: Event, at: Timeval): Shot {
    var m := Unexpired(p, e);
    Entered(m.(deadlines := m.deadlines[e := at]), e, at.common)
  }

  // The timer of common timeout c is set for the first of its events, if there is one.
  function Scheduled(p: Shot, c: nat): Shot {
    if c < |p.commons| && p.commons[c].events != [] then
      Timed(p, p.commons[c].timer, Timeval(DueAt(p.deadlines, p.commons[c].events[0]), -1))
    else p
  }

  // ... if event e is the first.
  function Led(p: Shot, c: int, e: Event): Shot {
    if 0 <= c < |p.commons| && p.commons[c].events != [] && p.commons[c].events[0] == e then Scheduled(p, c) else p
  }

  // Does event_add fail?
  predicate AddFails(p: Shot, e: Event, ioResult: int) {
    e in p.fin || (ioResult == -1 && e.watches && e !in p.ins && e !in p.act && e !in p.lat)
  }

  // Event e waits for its descriptor or signal.
  function Watched(p: Shot, e: Event): Shot {
    p.(ins := if e.watches && e !in p.act && e !in p.lat then p.ins + {e} else p.ins)
  }

  // ... and for its timeout, the interval of which a persistent event remembers.
  function Added(p: Shot, e: Event, tv: Option<Timeval>, absolute: bool, now: int): Shot {
    var w := Watched(p, e);
    if tv.None? then w
    else
      var at := if absolute then tv.value else Timeval(now + tv.value.us, tv.value.common);
      Led(Timed(if e.persist && !absolute then w.(intervals := w.intervals[e := tv.value]) else w, e, at), at.common, e)
  }

  // The first event of the heap, which is due, has timed out; then the next one, until none is due.
  ghost predicate Expires(p: Shot, q: Shot, now: int)
    decreases |p.heap|
  {
    if forall x :: x in p.heap ==> DueAt(p.deadlines, x) > now then q == p
    else exists e {:trigger Earliest(p, e)} :: e in p.heap && Earliest(p, e) && Expires(Expired(p, e), q, now)
  }

  ghost predicate Earliest(p: Shot, e: Event) {
    forall x :: x in p.heap ==> DueAt(p.deadlines, e) <= DueAt(p.deadlines, x)
  }

  // Each event of l is due, and the first of the heap, when those before it have timed out.
  ghost predicate InTurn(p: Shot, l: seq<Event>, now: int) {
    forall i :: 0 <= i < |l| ==>
      var m := ExpiredAll(p, l[..i]);
      l[i] in m.heap && Earliest(m, l[i]) && DueAt(m.deadlines, l[i]) <= now
  }

  lemma NoTurn(p: Shot, now: int)
    ensures InTurn(p, [], now) && ExpiredAll(p, []) == p
  {
  }

  lemma OneMoreTurn(p: Shot, l: seq<Event>, e: Event, now: int)
    requires InTurn(p, l, now)
    requires var m := ExpiredAll(p, l); e in m.heap && Earliest(m, e) && DueAt(m.deadlines, e) <= now
    ensures InTurn(p, l + [e], now) && ExpiredAll(p, l + [e]) == Expired(ExpiredAll(p, l), e)
  {
    hide ExpiredAll, Expired, Earliest;
    var l' := l + [e];
    forall i | 0 <= i < |l'|
      ensures var m := ExpiredAll(p, l'[..i]); l'[i] in m.heap && Earliest(m, l'[i]) && DueAt(m.deadlines, l'[i]) <= now
    {
      assert l'[..i] == l[..i] && l[..|l|] == l;
    }
    AllButLast(p, l, e);
  }

  lemma AllButLast(p: Shot, l: seq<Event>, e: Event)
    ensures ExpiredAll(p, l + [e]) == Expired(ExpiredAll(p, l), e)
  {
    assert (l + [e])[..|l + [e]| - 1] == l;
  }

  lemma {:induction false} ExpiresAll(p: Shot, l: seq<Event>, now: int, i: nat)
    requires InTurn(p, l, now) && i <= |l| && Expires(ExpiredAll(p, l), ExpiredAll(p, l), now)
    ensures Expires(ExpiredAll(p, l[..i]), ExpiredAll(p, l), now)
    decreases |l| - i
  {
    hide ExpiredAll, Expired, Earliest;
    if i < |l| {
      ExpiresAll(p, l, now, i + 1);
      AllButLast(p, l[..i], l[i]);
      assert l[..i] + [l[i]] == l[..i + 1];
    } else {
      assert l[..i] == l;
    }
  }

  // How many events at the front of l are due.
  function DueCount(l: seq<Event>, deadlines: map<Event, Timeval>, now: int): (k: nat)
    ensures k <= |l| && (forall i :: 0 <= i < k ==> DueAt(deadlines, l[i]) <= now) && (k < |l| ==> DueAt(deadlines, l[k]) > now)
  {
    if l == [] || DueAt(deadlines, l[0]) > now then 0 else 1 + DueCount(l[1..], deadlines, now)
  }

  lemma DueCountIs(l: seq<Event>, deadlines: map<Event, Timeval>, now: int, k: nat)
    requires k <= |l| && (forall i :: 0 <= i < k ==> DueAt(deadlines, l[i]) <= now) && (k < |l| ==> DueAt(deadlines, l[k]) > now)
    ensures k == DueCount(l, deadlines, now)
  {
  }

  // The events of common timeout c that are due have timed out, in order, and the timer is set for the next.
  function Elapsed(p: Shot, c: nat, now: int): Shot
    requires c < |p.commons|
  {
    var l := p.commons[c].events;
    Scheduled(ExpiredAll(p, l[..DueCount(l, p.deadlines, now)]), c)
  }

  // Callback e is about to run.
  function Taken(p: Shot, e: Event): Shot {
    var m := if e.isEvent && !e.persist && e !in p.fin then Deleted(p, e)
             else p.(act := p.act - {e}, queues := Unqueued(p.queues, e));
    m.(current := e)
  }

  // When a persistent event runs next: an interval after it was due, if it runs because of its timeout
  // and that is not already over; else an interval from now.
  function Next(due: int, interval: int, res: set<Flag>, now: int): int {
    var at := (if Timeout in res then due else now) + interval;
    if at < now then now + interval else at
  }

  // A persistent event that is about to run has its next timeout, if it has an interval.
  function Readded(p: Shot, e: Event, now: int, ioResult: int): Shot {
    var interval := IntervalOf(p, e);
    if (interval.us == 0 && interval.common < 0) || AddFails(p, e, ioResult) then p
    else Added(p, e, Some(Timeval(Next(DueAt(p.deadlines, e), interval.us, Results(p, e), now), interval.common)), true, now)
  }

  // A pending timeout of event e is gone, and the interval with it.
  function Disarmed(p: Shot, e: Event): Shot {
    Untimed(p, e).(intervals := if e in p.tmo then p.intervals[e := Timeval(0, -1)] else p.intervals)
  }

  // Callback e, in no structure yet, belongs to the base.
  function Assigned(p: Shot, e: Event, deadline: Timeval, interval: Timeval, res: set<Flag>): Shot {
    p.(all := p.all + {e}, deadlines := p.deadlines[e := deadline], intervals := p.intervals[e := interval], res := p.res[e := res])
  }

  // There is one more common timeout.
  function Lengthened(p: Shot, timer: Event, duration: Duration): Shot {
    Assigned(p, timer, Timeval(0, -1), Timeval(0, -1), {}).(commons := p.commons + [CommonTimeouts([], timer, duration)])
  }

  class Base {
    var queues: seq<seq<Event>>
    var laterQueue: seq<Event>
    var heap: set<Event>
    var commons: seq<CommonTimeouts>
    var eventCount: int
    var eventCountActive: int
    var runningPriority: int
    var eventContinue: bool
    var current: Event?

    // The callbacks of this base, and those with each flag.
    ghost var all: set<Event>
    ghost var ins: set<Event>
    ghost var tmo: set<Event>
    ghost var act: set<Event>
    ghost var lat: set<Event>

    // event_base_new, with n priorities.
    constructor (n: nat)
      requires n > 0
      ensures Core() && NoneLost() && |queues| == n && commons == [] && all == {} && current == null
    {
      queues, laterQueue, heap, commons := seq(n, _ => []), [], {}, [];
      eventCount, eventCountActive, runningPriority, eventContinue, current := 0, 0, -1, false, null;
      all, ins, tmo, act, lat := {}, {}, {}, {}, {};
      new;
      TotalNone(queues);
    }

    static lemma {:induction false} TotalNone(queues: seq<seq<Event>>)
      requires forall i :: 0 <= i < |queues| ==> queues[i] == []
      ensures Total(queues) == 0
    {
      if queues != [] {
        TotalNone(queues[1..]);
      }
    }

    ghost predicate InsertedOk()
      reads this`all, this`ins, all`inserted
    {
      ins <= all && forall e :: e in all ==> (e.inserted <==> e in ins)
    }

    // A callback is in its priority's active queue, in the later queue, or in neither, as its
    // flags say; event_count_active is the length of all these queues.
    ghost predicate ActiveOk()
      reads this`all, this`act, this`lat, this`queues, this`laterQueue, this`eventCountActive, all`active, all`later
    {
      && |queues| > 0 && act <= all && lat <= all && act !! lat
      && (forall e :: e in all ==> e.pri < |queues| && (e.active <==> e in act) && (e.later <==> e in lat))
      && Queued(queues, act) && NoDup(laterQueue) && Holds(laterQueue, lat)
      && eventCountActive == Total(queues) + |laterQueue|
    }

    // An event with EVLIST_TIMEOUT is in the heap, or in the list of its common timeout; no event
    // being finalized is in either. The lists are sorted by deadline.
    ghost predicate TimeoutOk()
      reads this`all, this`tmo, this`heap, this`commons, all`timeout, all`deadline, all`finalizing
    {
      && tmo <= all && (forall e :: e in all ==> (e.timeout <==> e in tmo) && (e.finalizing ==> !e.timeout))
      && (forall e :: e in tmo ==> e.isEvent)
      && TimedLists(commons, heap, tmo)
    }

    // The same with the flags apart from the lists, and what the lists are.
    ghost predicate Flagged()
      reads this`all, this`tmo, all`timeout, all`finalizing
    {
      && tmo <= all && (forall e :: e in all ==> (e.timeout <==> e in tmo) && (e.finalizing ==> !e.timeout))
      && (forall e :: e in tmo ==> e.isEvent)
    }

    lemma TimeoutIs()
      ensures TimeoutOk() <==> Flagged() && TimedLists(commons, heap, tmo)
    {
    }

    static lemma ListIs(cs: seq<CommonTimeouts>, h: set<Event>, t: set<Event>, c: int)
      requires TimedLists(cs, h, t) && 0 <= c < |cs|
      ensures Sorted(cs[c].events) && NoDup(cs[c].events) && forall e :: e in t && e.deadline.common == c <==> e in cs[c].events
    {
      hide NoDup, Sorted;
    }

    // The events t with a timeout are in the heap h, or in the list of cs of their common timeout.
    static ghost predicate TimedLists(cs: seq<CommonTimeouts>, h: set<Event>, t: set<Event>)
      reads t`deadline
    {
      && h <= t && (forall e :: e in h ==> e.deadline.common < 0)
      && (forall e :: e in t ==> if e.deadline.common < 0 then e in h
                                 else e.deadline.common < |cs| && e in cs[e.deadline.common].events)
      && (forall c, e :: 0 <= c < |cs| && e in cs[c].events ==> e in t && e.deadline.common == c)
      && (forall c {:trigger cs[c]} :: 0 <= c < |cs| ==> NoDup(cs[c].events) && Sorted(cs[c].events))
    }

    static lemma ListsWithout(cs: seq<CommonTimeouts>, h: set<Event>, t: set<Event>, e: Event, l': seq<Event>)
      requires TimedLists(cs, h, t) && e in t && 0 <= e.deadline.common < |cs|
      requires NoDup(l') && Sorted(l') && forall x {:trigger x in l'} :: x in l' <==> x in cs[e.deadline.common].events && x != e
      ensures TimedLists(cs[e.deadline.common := cs[e.deadline.common].(events := l')], h, t - {e})
    {
      hide NoDup, Sorted;
    }

    static lemma ListsWith(cs: seq<CommonTimeouts>, h: set<Event>, t: set<Event>, e: Event, l': seq<Event>)
      requires TimedLists(cs, h, t) && e !in t && 0 <= e.deadline.common < |cs|
      requires NoDup(l') && Sorted(l') && forall x {:trigger x in l'} :: x in l' <==> x in cs[e.deadline.common].events || x == e
      ensures TimedLists(cs[e.deadline.common := cs[e.deadline.common].(events := l')], h, t + {e})
    {
      hide NoDup, Sorted;
    }

    static lemma HeapWith(cs: seq<CommonTimeouts>, h: set<Event>, t: set<Event>, e: Event)
      requires TimedLists(cs, h, t) && e !in t && e.deadline.common < 0
      ensures TimedLists(cs, h + {e}, t + {e})
    {
      hide NoDup, Sorted;
    }

    static lemma HeapWithout(cs: seq<CommonTimeouts>, h: set<Event>, t: set<Event>, e: Event)
      requires TimedLists(cs, h, t) && e in h
      ensures TimedLists(cs, h - {e}, t - {e})
    {
      hide NoDup, Sorted;
    }

    // The timers of the common timeouts: internal events of the highest priority.
    ghost predicate TimersOk()
      reads this`all, this`commons, all`later, all`finalizing, all`deadline
    {
      && (forall c {:trigger commons[c]} :: 0 <= c < |commons| ==>
            var t := commons[c].timer;
            t in all && t.isEvent && t.internal && t.pri == 0 && !t.watches && !t.persist && !t.later && !t.finalizing && t.deadline.common < 0)
      && (forall c, d :: 0 <= c < d < |commons| ==> commons[c].timer != commons[d].timer)
    }

    // event_count is the number of flags of callbacks that are not internal.
    ghost predicate CountOk()
      reads this`eventCount, this`ins, this`tmo, this`act, this`lat
    {
      eventCount == |Counted(ins)| + |Counted(tmo)| + |Counted(act)| + |Counted(lat)|
    }

    ghost predicate Core()
      reads this, all
    {
      InsertedOk() && ActiveOk() && TimeoutOk() && TimersOk() && CountOk()
    }

    ghost function Finalizing(): set<Event>
      reads this`all, all`finalizing
    {
      set e | e in all && e.finalizing
    }

    ghost function Deadlines(): map<Event, Timeval>
      reads this`all, all`deadline
    {
      map e | e in all :: e.deadline
    }

    ghost function Intervals(): map<Event, Timeval>
      reads this`all, all`interval
    {
      map e | e in all :: e.interval
    }

    ghost function Reasons(): map<Event, set<Flag>>
      reads this`all, all`res
    {
      map e | e in all :: e.res
    }

    lemma Seen()
      ensures var p := Look();
        && p.all == all && p.ins == ins && p.tmo == tmo && p.act == act && p.lat == lat && p.fin == Finalizing() && p.heap == heap
        && p.queues == queues && p.later == laterQueue && p.commons == commons && p.deadlines == Deadlines()
        && p.intervals == Intervals() && p.res == Reasons() && p.current == current
    {
    }

    // The state as a value.
    ghost function Look(): Shot
      reads this`all, this`ins, this`tmo, this`act, this`lat, this`heap, this`queues, this`laterQueue, this`commons, this`current,
            all`finalizing, all`deadline, all`interval, all`res
    {
      Shot(all, ins, tmo, act, lat, Finalizing(), heap, queues, laterQueue, commons, Deadlines(), Intervals(), Reasons(), current)
    }

    // A common timeout will be noticed: its timer is set no later than the first deadline, is
    // active, or is being run.
    ghost predicate Noticed(c: nat)
      requires c < |commons|
      reads this`all, this`heap, this`act, this`commons, this`current, all`deadline
    {
      var l, t := commons[c].events, commons[c].timer;
      l == [] || (t in heap && t in all && l[0] in all && t.deadline.us <= l[0].deadline.us) || t in act || current == t
    }

    ghost predicate NoneLost()
      reads this`all, this`heap, this`act, this`commons, this`current, all`deadline
    {
      forall c :: 0 <= c < |commons| ==> Noticed(c)
    }

    // event_queue_insert_active
    method InsertActive(e: Event)
      requires Core() && e in all && !e.later
      modifies this`queues, this`eventCount, this`eventCountActive, this`act, e`active
      ensures Core() && act == old(act) + {e} && e.active
      ensures queues == if old(e.active) then old(queues) else Pushed(old(queues), e)
      ensures Look() == old(Look()).(act := act, queues := queues)
      ensures forall c :: 0 <= c < |commons| && old(Noticed(c)) ==> Noticed(c)
    {
      hide InsertedOk, TimeoutOk, TimersOk, Total, Counted, Queued, NoDup, Holds, Finalizing, Deadlines, Intervals, Reasons;
      if e.active {
        assert act == act + {e};
        return;
      }
      CountedAdd(act, e);
      QueuedPush(queues, act, e);
      eventCount := eventCount + if e.internal then 0 else 1;
      e.active := true;
      eventCountActive := eventCountActive + 1;
      queues := queues[e.pri := queues[e.pri] + [e]];
      act := act + {e};
    }

    // event_queue_remove_active
    method RemoveActive(e: Event)
      requires Core() && e in all && e.active
      modifies this`queues, this`eventCount, this`eventCountActive, this`act, e`active
      ensures Core() && act == old(act) - {e} && !e.active
      ensures e.pri < |old(queues)| && e in old(queues)[e.pri] && queues == Unqueued(old(queues), e)
      ensures forall c :: 0 <= c < |commons| && commons[c].timer != e && old(Noticed(c)) ==> Noticed(c)
      ensures Look() == old(Look()).(act := act, queues := queues)
    {
      hide Finalizing, Deadlines, Intervals, Reasons;
      hide InsertedOk, TimeoutOk, TimersOk, Total, Counted, Queued, NoDup, Holds;
      CountedRemove(act, e);
      QueuedRemove(queues, act, e);
      eventCount := eventCount - if e.internal then 0 else 1;
      e.active := false;
      eventCountActive := eventCountActive - 1;
      queues := queues[e.pri := Without(queues[e.pri], e)];
      act := act - {e};
    }

    // event_queue_insert_active_later
    method InsertLater(e: Event)
      requires Core() && e in all && (forall c {:trigger commons[c]} :: 0 <= c < |commons| ==> commons[c].timer != e)
      modifies this`laterQueue, this`eventCount, this`eventCountActive, this`lat, e`later
      ensures Core()
      ensures laterQueue == if old(e.later || e.active) then old(laterQueue) else old(laterQueue) + [e]
      ensures lat == if old(e.active) then old(lat) else old(lat) + {e}
    {
      hide InsertedOk, TimeoutOk, Total, Counted, Queued, NoDup, Holds;
      if e.later || e.active {
        assert e.later ==> lat == lat + {e};
        return;
      }
      CountedAdd(lat, e);
      HoldsPush(laterQueue, lat, e);
      eventCount := eventCount + if e.internal then 0 else 1;
      e.later := true;
      eventCountActive := eventCountActive + 1;
      laterQueue := laterQueue + [e];
      lat := lat + {e};
    }

    // event_queue_remove_active_later
    method RemoveLater(e: Event)
      requires Core() && e in all && e.later
      modifies this`laterQueue, this`eventCount, this`eventCountActive, this`lat, e`later
      ensures Core() && lat == old(lat) - {e} && !e.later
      ensures e in old(laterQueue) && laterQueue == Without(old(laterQueue), e)
    {
      hide InsertedOk, TimeoutOk, Total, Counted, Queued, NoDup, Holds, Without;
      CountedRemove(lat, e);
      HoldsRemove(laterQueue, lat, e);
      eventCount := eventCount - if e.internal then 0 else 1;
      e.later := false;
      eventCountActive := eventCountActive - 1;
      laterQueue := Without(laterQueue, e);
      lat := lat - {e};
      assert ActiveOk();
      assert TimersOk();
    }

    // event_queue_insert_inserted
    method InsertInserted(e: Event)
      requires Core() && e in all && !e.inserted
      modifies this`eventCount, this`ins, e`inserted
      ensures Core() && ins == old(ins) + {e} && e.inserted && Look() == old(Look()).(ins := ins)
    {
      hide Finalizing, Deadlines, Intervals, Reasons;
      hide ActiveOk, TimeoutOk, TimersOk, Counted;
      CountedAdd(ins, e);
      eventCount := eventCount + if e.internal then 0 else 1;
      e.inserted := true;
      ins := ins + {e};
    }

    // event_queue_remove_inserted
    method RemoveInserted(e: Event)
      requires Core() && e in all && e.inserted
      modifies this`eventCount, this`ins, e`inserted
      ensures Core() && ins == old(ins) - {e} && !e.inserted && Look() == old(Look()).(ins := ins)
    {
      hide Finalizing, Deadlines, Intervals, Reasons;
      hide ActiveOk, TimeoutOk, TimersOk, Counted;
      CountedRemove(ins, e);
      eventCount := eventCount - if e.internal then 0 else 1;
      e.inserted := false;
      ins := ins - {e};
    }

    // ev->ev_timeout = tv
    method WriteDeadline(e: Event, tv: Timeval)
      requires e in all
      modifies e`deadline
      ensures e.deadline == tv && Look() == old(Look()).(deadlines := old(Look()).deadlines[e := tv])
    {
      hide Finalizing, Intervals, Reasons;
      e.deadline := tv;
    }

    // ... for an event that is in no timeout structure.
    method SetDeadline(e: Event, tv: Timeval)
      requires Core() && e in all && !e.timeout && (tv.common < 0 || NotTimer(e))
      modifies e`deadline
      ensures Core() && e.deadline == tv && Look() == old(Look()).(deadlines := old(Look()).deadlines[e := tv])
      ensures forall c :: 0 <= c < |commons| && old(Noticed(c)) ==> Noticed(c)
    {
      hide InsertedOk, ActiveOk, CountOk, NoDup, Look;
      WriteDeadline(e, tv);
    }

    // Put an event in its common-timeout list.
    method InsertCommon(e: Event)
      requires TimeoutOk() && e in all && e.isEvent && !e.timeout && !e.finalizing && 0 <= e.deadline.common < |commons|
      modifies this`commons, this`tmo, e`timeout
      ensures TimeoutOk() && tmo == old(tmo) + {e} && e.timeout && |commons| == |old(commons)|
      ensures forall c {:trigger commons[c]} :: 0 <= c < |commons| ==>
                commons[c].timer == old(commons)[c].timer && (c != e.deadline.common ==> commons[c] == old(commons)[c])
      ensures var l, l' := old(commons)[e.deadline.common].events, commons[e.deadline.common].events;
              l' == Inserted(l, e, Deadlines()) && e in l' && (l'[0] == e || (l != [] && l'[0] == l[0]))
      ensures commons == old(commons)[e.deadline.common := commons[e.deadline.common]] &&
              commons[e.deadline.common].duration == old(commons)[e.deadline.common].duration
    {
      hide NoDup, Sorted, TimeoutOk, TimedLists, Inserted;
      TimeoutIs();
      var c := e.deadline.common;
      ListIs(commons, heap, tmo, c);
      ListedHere(c);
      var l := InsertInOrder(commons[c].events, e, Deadlines());
      InList(l, commons[c].events, e);
      ListsWith(commons, heap, tmo, e, l);
      var longer := commons[c := commons[c].(events := l)];
      e.timeout := true;
      commons := longer;
      tmo := tmo + {e};
      TimeoutIs();
    }

    lemma ListedHere(c: nat)
      requires TimeoutOk() && c < |commons|
      ensures forall x :: x in commons[c].events ==> x in all
    {
      hide NoDup, Sorted;
    }

    // Put an event in the heap.
    method InsertHeap(e: Event)
      requires TimeoutOk() && e in all && e.isEvent && !e.timeout && !e.finalizing && e.deadline.common < 0
      modifies this`heap, this`tmo, e`timeout
      ensures TimeoutOk() && tmo == old(tmo) + {e} && e.timeout && heap == old(heap) + {e}
    {
      hide NoDup, Sorted, TimeoutOk, TimedLists;
      TimeoutIs();
      HeapWith(commons, heap, tmo, e);
      e.timeout := true;
      heap := heap + {e};
      tmo := tmo + {e};
      TimeoutIs();
    }

    lemma InList(l': seq<Event>, l: seq<Event>, e: Event)
      requires Elems(l') == Elems(l) + {e}
      ensures forall x {:trigger x in l'} {:trigger x in l} :: x in l' <==> x in l || x == e
    {
      assert forall x :: x in l' <==> x in Elems(l');
      assert forall x :: x in l <==> x in Elems(l);
    }

    // event_queue_insert_timeout
    method InsertTimeout(e: Event)
      requires Core() && e in all && e.isEvent && !e.timeout && !e.finalizing && e.deadline.common < |commons|
      modifies this`heap, this`commons, this`eventCount, this`tmo, e`timeout
      ensures Core() && tmo == old(tmo) + {e} && e.timeout && |commons| == |old(commons)|
      ensures heap == old(heap) + if e.deadline.common < 0 then {e} else {}
      ensures e.deadline.common < 0 ==> commons == old(commons)
      ensures forall c {:trigger commons[c]} :: 0 <= c < |commons| ==>
                commons[c].timer == old(commons)[c].timer && (c != e.deadline.common ==> commons[c] == old(commons)[c])
      ensures e.deadline.common >= 0 ==>
                var l, l' := old(commons)[e.deadline.common].events, commons[e.deadline.common].events;
                l' == Inserted(l, e, Deadlines()) && e in l' && (l'[0] == e || (l != [] && l'[0] == l[0])) &&
                commons == old(commons)[e.deadline.common := commons[e.deadline.common]] &&
                commons[e.deadline.common].duration == old(commons)[e.deadline.common].duration
      ensures Look() == Entered(old(Look()), e, e.deadline.common)
    {
      hide InsertedOk, ActiveOk, Counted, TimeoutOk, Inserted, Finalizing, Deadlines, Intervals, Reasons;
      assert e !in tmo by { NotTimed(e); }
      CountedAdd(tmo, e);
      eventCount := eventCount + if e.internal then 0 else 1;
      if e.deadline.common >= 0 {
        InsertCommon(e);
      } else {
        InsertHeap(e);
      }
    }

    lemma NotTimed(e: Event)
      requires TimeoutOk() && e in all
      ensures e.timeout <==> e in tmo
    {
    }

    // Take an event out of its common-timeout list.
    method RemoveCommon(e: Event)
      requires TimeoutOk() && e in all && e.timeout && 0 <= e.deadline.common < |commons|
      modifies this`commons, this`tmo, e`timeout
      ensures TimeoutOk() && tmo == old(tmo) - {e} && !e.timeout && |commons| == |old(commons)|
      ensures forall c {:trigger commons[c]} :: 0 <= c < |commons| ==>
                commons[c].timer == old(commons)[c].timer && (c != e.deadline.common ==> commons[c] == old(commons)[c])
      ensures var l, l' := old(commons)[e.deadline.common].events, commons[e.deadline.common].events;
              e in l && l' == Without(l, e) && (l' == [] || l[0].deadline.us <= l'[0].deadline.us)
      ensures commons[e.deadline.common].duration == old(commons)[e.deadline.common].duration
    {
      hide NoDup, Sorted, Without, TimeoutOk, TimedLists;
      TimeoutIs();
      var c := e.deadline.common;
      ListIs(commons, heap, tmo, c);
      var l := commons[c].events;
      var l' := Without(l, e);
      LeftList(l', l, e);
      ListsWithout(commons, heap, tmo, e, l');
      e.timeout := false;
      commons := commons[c := commons[c].(events := l')];
      tmo := tmo - {e};
      TimeoutIs();
    }

    lemma LeftList(l': seq<Event>, l: seq<Event>, e: Event)
      requires Sorted(l) && NoDup(l) && e in l && l' == Without(l, e)
      ensures forall x {:trigger x in l'} {:trigger x in l} :: x in l' <==> x in l && x != e
      ensures Sorted(l') && NoDup(l') && (l' == [] || l[0].deadline.us <= l'[0].deadline.us)
    {
      hide Without;
      WithoutFacts(l, e);
      SortedWithout(l, e);
      assert forall x :: x in l' <==> x in Elems(l');
      assert forall x :: x in l <==> x in Elems(l);
    }

    lemma InHeap(e: Event)
      requires TimedLists(commons, heap, tmo) && e in tmo && e.deadline.common < 0
      ensures e in heap
    {
    }

    // min_heap_erase_
    method RemoveHeap(e: Event)
      requires TimeoutOk() && e in all && e.timeout && e.deadline.common < 0
      modifies this`heap, this`tmo, e`timeout
      ensures TimeoutOk() && tmo == old(tmo) - {e} && !e.timeout && e in old(heap) && heap == old(heap) - {e}
    {
      hide NoDup, Sorted, TimeoutOk, TimedLists;
      TimeoutIs();
      InHeap(e);
      HeapWithout(commons, heap, tmo, e);
      e.timeout := false;
      heap := heap - {e};
      tmo := tmo - {e};
      TimeoutIs();
    }

    // event_queue_remove_timeout
    method RemoveTimeout(e: Event)
      requires Core() && e in all && e.timeout
      modifies this`heap, this`commons, this`eventCount, this`tmo, e`timeout
      ensures Core() && tmo == old(tmo) - {e} && !e.timeout && |commons| == |old(commons)|
      ensures heap == old(heap) - {e}
      ensures forall c {:trigger commons[c]} :: 0 <= c < |commons| ==>
                commons[c].timer == old(commons)[c].timer && (c != e.deadline.common ==> commons[c] == old(commons)[c])
      ensures 0 <= e.deadline.common < |commons| ==>
                var l, l' := old(commons)[e.deadline.common].events, commons[e.deadline.common].events;
                e in l && l' == Without(l, e) && (l' == [] || l[0].deadline.us <= l'[0].deadline.us) &&
                commons[e.deadline.common].duration == old(commons)[e.deadline.common].duration
      ensures e.deadline.common < |commons| && (e.deadline.common < 0 ==> commons == old(commons))
    {
      hide InsertedOk, ActiveOk, Counted, TimeoutOk;
      TimedFacts(e);
      CountedRemove(tmo, e);
      eventCount := eventCount - if e.internal then 0 else 1;
      if e.deadline.common >= 0 {
        RemoveCommon(e);
        assert heap == heap - {e};
      } else {
        RemoveHeap(e);
      }
    }

    lemma TimedFacts(e: Event)
      requires TimeoutOk() && e in all && e.timeout
      ensures e in tmo && e.deadline.common < |commons|
      ensures if e.deadline.common < 0 then e in heap else e !in heap
    {
    }

    // The timer of no common timeout.
    ghost predicate NotTimer(e: Event)
      reads this`commons
    {
      forall c {:trigger commons[c]} :: 0 <= c < |commons| ==> commons[c].timer != e
    }

    // The first half of event_del_nolock_: out of the timeout structures.
    method DelTimeout(e: Event)
      requires Core() && e in all
      modifies this`heap, this`commons, this`eventCount, this`tmo, e`timeout
      ensures Core() && tmo == old(tmo) - {e} && !e.timeout && |commons| == |old(commons)| && heap == old(heap) - {e}
      ensures e.deadline.common < 0 ==> commons == old(commons)
      ensures forall c {:trigger commons[c]} :: 0 <= c < |commons| ==> commons[c].timer == old(commons)[c].timer
      ensures forall c :: 0 <= c < |commons| && commons[c].timer != e && old(Noticed(c)) ==> Noticed(c)
      ensures commons == Dropped(old(commons), e) && Look() == Untimed(old(Look()), e)
    {
      hide InsertedOk, ActiveOk, CountOk, TimeoutOk, TimersOk, Finalizing, Deadlines, Intervals, Reasons;
      ListedOnce(e);
      if e.timeout {
        Heads();
        RemoveTimeout(e);
        Heads();
      } else {
        NotTimed(e);
        assert tmo == tmo - {e};
        NotInHeap(e);
      }
    }

    // An event is in no other common-timeout list than its own.
    lemma ListedOnce(e: Event)
      requires TimeoutOk() && e in all
      ensures forall c {:trigger commons[c]} :: 0 <= c < |commons| && e in commons[c].events ==> e.timeout && e.deadline.common == c
    {
    }

    lemma NotInHeap(e: Event)
      requires TimeoutOk() && e in all && !e.timeout
      ensures e !in heap && heap == heap - {e}
    {
    }

    lemma Heads()
      requires TimeoutOk()
      ensures forall c {:trigger commons[c]} :: 0 <= c < |commons| && commons[c].events != [] ==> commons[c].events[0] in all
    {
      forall c {:trigger commons[c]} | 0 <= c < |commons| && commons[c].events != [] ensures commons[c].events[0] in all {
        assert commons[c].events[0] in commons[c].events;
      }
    }

    // ... and out of the queues.
    method DelActive(e: Event)
      requires Core() && e in all
      modifies this`queues, this`laterQueue, this`eventCount, this`eventCountActive, this`act, this`lat, e`active, e`later
      ensures Core() && !e.active && !e.later && act == old(act) - {e} && lat == old(lat) - {e}
      ensures queues == Unqueued(old(queues), e) && laterQueue == Less(old(laterQueue), e)
      ensures Look() == Unheld(old(Look()), e)
      ensures forall c :: 0 <= c < |commons| && commons[c].timer != e && old(Noticed(c)) ==> Noticed(c)
    {
      hide InsertedOk, ActiveOk, CountOk, TimeoutOk, TimersOk, Finalizing, Deadlines, Intervals, Reasons;
      hide Unqueued, Less;
      FlagFacts(e);
      NotQueued(e);
      if e.active {
        RemoveActive(e);
      } else if e.later {
        InLater(e);
        RemoveLater(e);
      }
      FlagFacts(e);
    }

    // A callback that is not queued is in no queue.
    lemma NotQueued(e: Event)
      requires ActiveOk() && e in all
      ensures !e.active ==> Unqueued(queues, e) == queues
      ensures !e.later ==> Less(laterQueue, e) == laterQueue
    {
      hide NoDup, Total;
      if !e.active && e.pri < |queues| {
        assert e !in queues[e.pri];
      }
    }

    lemma InLater(e: Event)
      requires ActiveOk() && e in all && e.later
      ensures e in laterQueue && Less(laterQueue, e) == Without(laterQueue, e)
    {
      hide NoDup, Total, Queued;
    }

    // Event e leaves everything.
    method Delete(e: Event, ioResult: int) returns (result: int)
      requires Core() && e in all && e.isEvent
      modifies this`queues, this`laterQueue, this`heap, this`commons, this`eventCount, this`eventCountActive,
               this`ins, this`tmo, this`act, this`lat, e`inserted, e`timeout, e`active, e`later
      ensures Core() && result == if old(e.inserted) && ioResult != 1 then ioResult else 0
      ensures !e.inserted && !e.timeout && !e.active && !e.later && Look() == Deleted(old(Look()), e)
      ensures forall c :: 0 <= c < |old(commons)| && old(commons)[c].timer != e && old(Noticed(c)) ==> c < |commons| && Noticed(c)
    {
      hide InsertedOk, ActiveOk, CountOk, TimeoutOk, TimersOk, Unqueued, Less, Dropped, Look, Noticed, Unheld, Untimed;
      Seen();
      DelTimeout(e);
      DelActive(e);
      FlagFacts(e);
      Seen();
      result := 0;
      if e.inserted {
        RemoveInserted(e);
        result := if ioResult == 1 then 0 else ioResult;
      }
    }

    // event_del_nolock_; `ioResult` is what evmap_io_del_ or evmap_signal_del_ returns.
    method EventDel(e: Event, evenIfFinalizing: bool, ioResult: int) returns (result: int)
      requires Core() && e in all && e.isEvent
      modifies this`queues, this`laterQueue, this`heap, this`commons, this`eventCount, this`eventCountActive,
               this`ins, this`tmo, this`act, this`lat, e`inserted, e`timeout, e`active, e`later
      ensures Core() && |commons| == |old(commons)|
      ensures if e.finalizing && !evenIfFinalizing
              then result == 0 && unchanged(this) && unchanged(e)
              else !e.inserted && !e.timeout && !e.active && !e.later && ins == old(ins) - {e} && tmo == old(tmo) - {e} &&
                   act == old(act) - {e} && lat == old(lat) - {e} && heap == old(heap) - {e}
      ensures !e.finalizing || evenIfFinalizing ==> result == if old(e.inserted) && ioResult != 1 then ioResult else 0
      ensures !e.finalizing || evenIfFinalizing ==> queues == Unqueued(old(queues), e) && laterQueue == Less(old(laterQueue), e)
      ensures forall c {:trigger commons[c]} :: 0 <= c < |commons| ==> commons[c].timer == old(commons)[c].timer
      ensures forall c :: 0 <= c < |commons| && commons[c].timer != e && old(Noticed(c)) ==> Noticed(c)
      ensures !e.finalizing || evenIfFinalizing ==> commons == Dropped(old(commons), e)
      ensures Look() == if e.finalizing && !evenIfFinalizing then old(Look()) else Deleted(old(Look()), e)
    {
      hide InsertedOk, ActiveOk, CountOk, TimeoutOk, TimersOk, Unqueued, Less, Look, Noticed;
      Seen();
      result := 0;
      if !e.finalizing || evenIfFinalizing {
        result := Delete(e, ioResult);
        Seen();
      }
    }

    lemma NotFinalizing(e: Event)
      requires TimeoutOk() && e in all && e.finalizing
      ensures !e.timeout
    {
    }

    // ev->ev_res = res
    method SetResults(e: Event, res: set<Flag>)
      requires Core() && e in all
      modifies e`res
      ensures Core() && e.res == res && Look() == old(Look()).(res := old(Look()).res[e := res])
      ensures forall c :: 0 <= c < |commons| && old(Noticed(c)) ==> Noticed(c)
    {
      hide InsertedOk, ActiveOk, TimeoutOk, TimersOk, CountOk, Finalizing, Deadlines, Intervals, Noticed;
      e.res := res;
    }

    // Flags are set memberships.
    lemma FlagFacts(e: Event)
      requires Core() && e in all
      ensures (e.inserted <==> e in ins) && (e.timeout <==> e in tmo) && (e.active <==> e in act) && (e.later <==> e in lat)
      ensures !(e.active && e.later)
      ensures !e.inserted ==> ins - {e} == ins
      ensures !e.active ==> act - {e} == act
      ensures !e.later ==> lat - {e} == lat
    {
      hide Queued, NoDup, Total, Counted;
    }

    // event_callback_activate_nolock_: 1 if the callback was neither active nor active later.
    method CallbackActivate(e: Event) returns (r: int)
      requires Core() && e in all
      modifies this`queues, this`laterQueue, this`eventCount, this`eventCountActive, this`act, this`lat, e`active, e`later
      ensures Core() && (e.finalizing ==> r == 0 && unchanged(this) && unchanged(e))
      ensures !e.finalizing ==> e.active && !e.later && act == old(act) + {e} && lat == old(lat) - {e}
      ensures !e.finalizing ==> (r == 1 <==> !old(e.active) && !old(e.later)) && (r == 0 || r == 1)
      ensures !e.finalizing ==> queues == (if old(e.active) then old(queues) else Pushed(old(queues), e)) && laterQueue == Less(old(laterQueue), e)
      ensures Look() == if e.finalizing then old(Look()) else Activated(old(Look()), e)
      ensures forall c :: 0 <= c < |commons| && old(Noticed(c)) ==> Noticed(c)
    {
      hide InsertedOk, ActiveOk, CountOk, TimeoutOk, TimersOk, Finalizing, Deadlines, Intervals, Reasons;
      r := 1;
      if e.finalizing {
        return 0;
      }
      FlagFacts(e);
      NotQueued(e);
      if e.later {
        InLater(e);
        RemoveLater(e);
        r := 0;
      } else if e.active {
        assert act == act + {e};
        return 0;
      }
      InsertActive(e);
    }

    lemma DueOf(e: Event)
      requires e in all
      ensures e in Look().deadlines && Look().deadlines[e] == e.deadline && DueAt(Look().deadlines, e) == e.deadline.us
    {
    }

    lemma ReasonOf(e: Event)
      requires e in all
      ensures Results(Look(), e) == e.res
    {
    }

    // event_active_nolock_
    method EventActive(e: Event, res: set<Flag>)
      requires Core() && e in all
      modifies this`queues, this`laterQueue, this`eventCount, this`eventCountActive, this`eventContinue, this`act, this`lat,
               e`active, e`later, e`res
      ensures Core() && (e.finalizing ==> unchanged(this) && unchanged(e))
      ensures !e.finalizing ==> e.active && !e.later && act == old(act) + {e} && lat == old(lat) - {e}
      ensures !e.finalizing ==> e.res == res + if old(e.active || e.later) then old(e.res) else {}
      ensures !e.finalizing ==> queues == (if old(e.active) then old(queues) else Pushed(old(queues), e)) && laterQueue == Less(old(laterQueue), e)
      ensures Look() == if e.finalizing then old(Look()) else ActivatedFor(old(Look()), e, res)
      ensures forall c :: 0 <= c < |commons| && old(Noticed(c)) ==> Noticed(c)
    {
      hide InsertedOk, ActiveOk, CountOk, TimeoutOk, TimersOk, Less, Unqueued, Pushed, Noticed, Look;
      Seen();
      ReasonOf(e);
      if e.finalizing {
        return;
      }
      FlagFacts(e);
      NotQueued(e);
      if e.active {
        SetResults(e, e.res + res);
        assert act == act + {e};
        return;
      }
      SetResults(e, if e.later then e.res + res else res);
      Queue(e);
    }

    // The end of event_active_nolock_: an event of a higher priority than the one running ends the loop over its queue.
    method Queue(e: Event)
      requires Core() && e in all && !e.finalizing && !e.active
      modifies this`queues, this`laterQueue, this`eventCount, this`eventCountActive, this`eventContinue, this`act, this`lat, e`active, e`later
      ensures Core() && e.active && !e.later && act == old(act) + {e} && lat == old(lat) - {e}
      ensures queues == Pushed(old(queues), e) && laterQueue == Less(old(laterQueue), e) && Look() == Activated(old(Look()), e)
      ensures forall c :: 0 <= c < |commons| && old(Noticed(c)) ==> Noticed(c)
    {
      hide InsertedOk, ActiveOk, CountOk, TimeoutOk, TimersOk, Less, Pushed, Look, Activated;
      if e.pri < runningPriority {
        eventContinue := true;
      }
      label L:
      var _ := CallbackActivate(e);
      forall c | 0 <= c < |commons| && old(Noticed(c)) ensures Noticed(c) {
        assert old@L(Noticed(c));
      }
    }

    // event_callback_activate_later_nolock_
    method CallbackActivateLater(e: Event) returns (r: int)
      requires Core() && e in all && NotTimer(e)
      modifies this`laterQueue, this`eventCount, this`eventCountActive, this`lat, e`later
      ensures Core() && (e.active || e.later) && lat == (if e.active then old(lat) else old(lat) + {e})
      ensures r == if old(e.active || e.later) then 0 else 1
      ensures laterQueue == if old(e.later || e.active) then old(laterQueue) else old(laterQueue) + [e]
      ensures Look() == PutOff(old(Look()), e)
      ensures forall c :: 0 <= c < |commons| && old(Noticed(c)) ==> Noticed(c)
    {
      hide InsertedOk, ActiveOk, CountOk, TimeoutOk, TimersOk, Finalizing, Deadlines, Intervals, Reasons;
      FlagFacts(e);
      if e.active || e.later {
        assert e.later ==> lat == lat + {e};
        return 0;
      }
      InsertLater(e);
      FlagFacts(e);
      r := 1;
    }

    // event_active_later_nolock_
    method EventActiveLater(e: Event, res: set<Flag>)
      requires Core() && e in all && NotTimer(e)
      modifies this`laterQueue, this`eventCount, this`eventCountActive, this`lat, e`later, e`res
      ensures Core() && (e.active || e.later) && lat == (if e.active then old(lat) else old(lat) + {e})
      ensures e.res == res + if old(e.active || e.later) then old(e.res) else {}
      ensures laterQueue == if old(e.later || e.active) then old(laterQueue) else old(laterQueue) + [e]
      ensures Look() == PutOff(old(Look()), e).(res := Reasoned(old(Look()), e, res))
      ensures forall c :: 0 <= c < |commons| && old(Noticed(c)) ==> Noticed(c)
    {
      hide InsertedOk, ActiveOk, CountOk, TimeoutOk, TimersOk, Look;
      Seen();
      ReasonOf(e);
      FlagFacts(e);
      if e.active || e.later {
        SetResults(e, e.res + res);
        assert e.later ==> lat == lat + {e};
        return;
      }
      SetResults(e, res);
      Seen();
      var _ := CallbackActivateLater(e);
    }

    // event_callback_cancel_nolock_
    method CallbackCancel(e: Event, evenIfFinalizing: bool, ioResult: int) returns (r: int)
      requires Core() && e in all && NotTimer(e)
      modifies this`queues, this`laterQueue, this`heap, this`commons, this`eventCount, this`eventCountActive,
               this`ins, this`tmo, this`act, this`lat, e`inserted, e`timeout, e`active, e`later
      ensures Core() && |commons| == |old(commons)|
      ensures if e.finalizing && !evenIfFinalizing then r == 0 && unchanged(this) && unchanged(e)
              else !e.active && !e.later && act == old(act) - {e} && lat == old(lat) - {e} && (e.isEvent ==> !e.timeout && !e.inserted)
                   && queues == Unqueued(old(queues), e) && laterQueue == Less(old(laterQueue), e)
      ensures !e.finalizing || evenIfFinalizing ==> r == if e.isEvent && old(e.inserted) && ioResult != 1 then ioResult else 0
      ensures Look() == if e.finalizing && !evenIfFinalizing then old(Look()) else Removed(old(Look()), e)
      ensures forall c {:trigger commons[c]} :: 0 <= c < |commons| ==> commons[c].timer == old(commons)[c].timer
      ensures forall c :: 0 <= c < |commons| && old(Noticed(c)) ==> Noticed(c)
    {
      hide InsertedOk, ActiveOk, CountOk, TimeoutOk, TimersOk, Finalizing, Deadlines, Intervals, Reasons;
      if e.finalizing && !evenIfFinalizing {
        return 0;
      }
      if e.isEvent {
        r := EventDel(e, evenIfFinalizing, ioResult);
        forall c | 0 <= c < |commons| && old(Noticed(c)) ensures Noticed(c) {
          assert commons[c].timer == old(commons)[c].timer;
        }
        return;
      }
      FlagFacts(e);
      NotQueued(e);
      if e.active {
        RemoveActive(e);
      } else if e.later {
        InLater(e);
        RemoveLater(e);
      }
      forall c | 0 <= c < |commons| && old(Noticed(c)) ensures Noticed(c) {
        assert commons[c].timer != e;
      }
      return 0;
    }

    // ev->ev_flags |= EVLIST_FINALIZING
    method SetFinalizing(e: Event)
      requires Core() && e in all && NotTimer(e) && !e.timeout
      modifies e`finalizing
      ensures Core() && e.finalizing && Look() == old(Look()).(fin := old(Look()).fin + {e})
    {
      hide InsertedOk, ActiveOk, CountOk, NoDup, Sorted, Deadlines, Intervals, Reasons;
      e.finalizing := true;
    }

    // event_finalize_nolock_
    method EventFinalize(e: Event, ioResult: int)
      requires Core() && e in all && e.isEvent && NotTimer(e)
      modifies this`queues, this`laterQueue, this`heap, this`commons, this`eventCount, this`eventCountActive, this`eventContinue,
               this`ins, this`tmo, this`act, this`lat, e`inserted, e`timeout, e`active, e`later, e`res, e`finalizing
      ensures Core() && |commons| == |old(commons)| && e.finalizing
      ensures if old(e.finalizing) then unchanged(this) && unchanged(e)
              else e.active && !e.later && !e.timeout && !e.inserted && e.res == {Finalize}
                   && queues == Pushed(Unqueued(old(queues), e), e) && laterQueue == Less(old(laterQueue), e)
      ensures Look() == if old(e.finalizing) then old(Look())
                        else ActivatedFor(Deleted(old(Look()), e), e, {Finalize}).(fin := old(Look()).fin + {e})
      ensures forall c {:trigger commons[c]} :: 0 <= c < |commons| ==> commons[c].timer == old(commons)[c].timer
      ensures forall c :: 0 <= c < |commons| && old(Noticed(c)) ==> Noticed(c)
    {
      hide InsertedOk, ActiveOk, CountOk, TimeoutOk, TimersOk, Look;
      Seen();
      var _ := EventDel(e, false, ioResult);
      NotQueued(e);
      label L:
      EventActive(e, {Finalize});
      forall c | 0 <= c < |commons| && old(Noticed(c)) ensures Noticed(c) {
        assert commons[c].timer == old(commons)[c].timer && old@L(Noticed(c));
      }
      label M:
      if e.finalizing {
        NotFinalizing(e);
      }
      SetFinalizing(e);
      forall c | 0 <= c < |commons| && old(Noticed(c)) ensures Noticed(c) {
        assert old@M(Noticed(c));
      }
    }

    // An event that is not inserted, active or active later is inserted in the event map.
    method AddWatch(e: Event, ioResult: int) returns (res: int)
      requires Core() && e in all
      modifies this`eventCount, this`ins, e`inserted
      ensures Core() && (res == -1 ==> unchanged(this) && unchanged(e))
      ensures var adds := e.watches && !old(e.inserted) && !e.active && !e.later;
              res == (if adds && ioResult == -1 then -1 else if adds && ioResult != 1 then ioResult else 0) &&
              e.inserted == (old(e.inserted) || (adds && ioResult != -1)) &&
              ins == if adds && ioResult != -1 then old(ins) + {e} else old(ins)
      ensures if res == -1 then Look() == old(Look()) else Look() == Watched(old(Look()), e)
    {
      hide Look;
      Seen();
      FlagFacts(e);
      hide InsertedOk, ActiveOk, CountOk, TimeoutOk, TimersOk;
      res := 0;
      if e.watches && !e.inserted && !e.active && !e.later {
        res := ioResult;
        if res != -1 {
          InsertInserted(e);
        }
        if res == 1 {
          res := 0;
        }
      }
    }

    // The timer of a common timeout is set no later than its first deadline.
    ghost predicate Set(c: nat)
      requires c < |commons|
      reads this`all, this`heap, this`commons, all`deadline
    {
      var l, t := commons[c].events, commons[c].timer;
      l == [] || (t in heap && t in all && l[0] in all && t.deadline.us <= l[0].deadline.us)
    }

    // Take the event out of the timeout structures, and off the active queue if it is active
    // because of its timeout.
    method ClearTimeout(e: Event)
      requires Core() && e in all
      modifies this`heap, this`commons, this`queues, this`eventCount, this`eventCountActive, this`tmo, this`act, e`timeout, e`active
      ensures Core() && !e.timeout && |commons| == |old(commons)| && heap == old(heap) - {e} && tmo == old(tmo) - {e}
      ensures e.deadline.common < 0 ==> commons == old(commons)
      ensures e.active == (old(e.active) && Timeout !in e.res)
      ensures act == if old(e.active) && Timeout in e.res then old(act) - {e} else old(act)
      ensures Look() == Unexpired(old(Look()), e)
      ensures forall c {:trigger commons[c]} :: 0 <= c < |commons| ==> commons[c].timer == old(commons)[c].timer
      ensures forall c :: 0 <= c < |commons| && commons[c].timer != e && old(Noticed(c)) ==> Noticed(c)
    {
      hide InsertedOk, ActiveOk, CountOk, TimeoutOk, TimersOk, Look, Unqueued;
      Seen();
      ReasonOf(e);
      FlagFacts(e);
      DelTimeout(e);
      if e.active && Timeout in e.res {
        label L:
        RemoveActive(e);
        forall c | 0 <= c < |commons| && commons[c].timer != e && old(Noticed(c)) ensures Noticed(c) {
          assert old@L(Noticed(c));
        }
      }
    }

    // The timeout part of event_add_nolock_ for a deadline in the heap.
    method AddHeapTimeout(e: Event, deadline: Timeval)
      requires Core() && e in all && e.isEvent && !e.finalizing && deadline.common < 0
      modifies this`heap, this`commons, this`queues, this`eventCount, this`eventCountActive, this`tmo, this`act,
               e`timeout, e`active, e`deadline
      ensures Core() && e.timeout && e.deadline == deadline && e in heap && |commons| == |old(commons)|
      ensures e.active == (old(e.active) && Timeout !in e.res)
      ensures old(e.deadline.common) < 0 ==> commons == old(commons)
      ensures Look() == Timed(old(Look()), e, deadline)
      ensures forall c {:trigger commons[c]} :: 0 <= c < |commons| ==> commons[c].timer == old(commons)[c].timer
      ensures forall c :: 0 <= c < |commons| && commons[c].timer != e && old(Noticed(c)) ==> Noticed(c)
    {
      hide InsertedOk, ActiveOk, CountOk, TimeoutOk, TimersOk, Look, Entered, Unexpired;
      ClearTimeout(e);
      SetDeadline(e, deadline);
      label L:
      InsertTimeout(e);
      forall c | 0 <= c < |commons| && commons[c].timer != e && old(Noticed(c)) ensures Noticed(c) {
        assert old@L(Noticed(c));
      }
    }

    // The timer a new common-timeout deadline may have to set.
    ghost function TimerOf(tv: Option<Timeval>): set<Event>
      reads this`commons
    {
      if tv.Some? && 0 <= tv.value.common < |commons| then {commons[tv.value.common].timer} else {}
    }

    // Insert an event, which is in no timeout structure, in its common-timeout list.
    method EnterCommon(e: Event) returns (head: bool)
      requires Core() && e in all && e.isEvent && !e.timeout && !e.finalizing && 0 <= e.deadline.common < |commons|
      modifies this`heap, this`commons, this`eventCount, this`tmo, e`timeout
      ensures Core() && e.timeout && |commons| == |old(commons)| && heap == old(heap)
      ensures commons[e.deadline.common].events != [] && (head <==> commons[e.deadline.common].events[0] == e)
      ensures Look() == Entered(old(Look()), e, e.deadline.common)
      ensures forall c {:trigger commons[c]} :: 0 <= c < |commons| ==> commons[c].timer == old(commons)[c].timer
      ensures forall c :: 0 <= c < |commons| && (c != e.deadline.common || !head) && old(Noticed(c)) ==> Noticed(c)
    {
      hide InsertedOk, ActiveOk, CountOk, TimeoutOk, TimersOk, Look, Entered;
      Heads();
      InsertTimeout(e);
      head := commons[e.deadline.common].events[0] == e;
      assert heap == old(heap);
      Heads();
      forall c | 0 <= c < |commons| && (c != e.deadline.common || !head) && old(Noticed(c)) ensures Noticed(c) {
        if c == e.deadline.common {
          assert commons[c].events[0] == old(commons)[c].events[0];
        } else {
          assert commons[c] == old(commons)[c];
        }
      }
    }

    // The timer is now in the heap with the deadline of the first event of its list.
    lemma NowNoticed(c: nat)
      requires Core() && c < |commons| && commons[c].timer in heap && commons[c].events != []
      requires commons[c].timer.deadline.us == commons[c].events[0].deadline.us
      ensures Noticed(c) && Set(c)
    {
      hide InsertedOk, ActiveOk, CountOk, TimersOk;
      Heads();
    }

    // ev->ev_io_timeout = *tv
    method SetInterval(e: Event, tv: Timeval)
      requires Core() && e in all
      modifies e`interval
      ensures Core() && e.interval == tv && Look() == old(Look()).(intervals := old(Look()).intervals[e := tv])
      ensures forall c :: 0 <= c < |commons| && old(Noticed(c)) ==> Noticed(c)
    {
      hide InsertedOk, ActiveOk, CountOk, TimeoutOk, TimersOk, Finalizing, Deadlines, Reasons, Noticed;
      e.interval := tv;
    }

    // event_add_nolock_. Without a failure of the event map it always succeeds, unless the event is
    // being finalized; and every common timeout stays noticed.
    method EventAdd(e: Event, tv: Option<Timeval>, absolute: bool, now: int, ioResult: int) returns (result: int)
      requires Core() && e in all && e.isEvent && (tv.Some? ==> tv.value.common < |commons|)
      requires tv.Some? && tv.value.common >= 0 ==> NotTimer(e)
      modifies this`queues, this`heap, this`commons, this`eventCount, this`eventCountActive, this`ins, this`tmo, this`act,
               e`inserted, e`timeout, e`active, e`deadline, e`interval, TimerOf(tv)`inserted, TimerOf(tv)`timeout, TimerOf(tv)`active,
               TimerOf(tv)`deadline, TimerOf(tv)`interval
      ensures Core() && |commons| == |old(commons)|
      ensures result == -1 <==> e.finalizing || (ioResult == -1 && e.watches && !old(e.inserted) && !old(e.active) && !e.later)
      ensures result == -1 ==> unchanged(this) && unchanged(all)
      ensures Look() == if result == -1 then old(Look()) else Added(old(Look()), e, tv, absolute, now)
      ensures result != -1 && tv.Some? ==> e.timeout && e.deadline == if absolute then tv.value else Timeval(now + tv.value.us, tv.value.common)
      ensures result != -1 && tv.Some? ==> e.active == (old(e.active) && Timeout !in e.res)
      ensures e.interval == if result != -1 && tv.Some? && e.persist && !absolute then tv.value else old(e.interval)
      ensures result != -1 && tv.None? ==> e.timeout == old(e.timeout) && e.active == old(e.active) && e.deadline == old(e.deadline) && heap == old(heap) && commons == old(commons)
      ensures result != -1 && tv.Some? && tv.value.common < 0 ==> e in heap && (old(e.deadline.common) < 0 ==> commons == old(commons))
      ensures result != -1 ==> ins == if e.watches && !old(e.inserted) && !old(e.active) && !e.later then old(ins) + {e} else old(ins)
      ensures forall c {:trigger commons[c]} :: 0 <= c < |commons| ==> commons[c].timer == old(commons)[c].timer
      ensures forall c :: 0 <= c < |commons| && commons[c].timer != e && old(Noticed(c)) ==> Noticed(c)
      decreases if tv.Some? && tv.value.common >= 0 then 1 else 0, 0
    {
      hide InsertedOk, ActiveOk, CountOk, TimeoutOk, TimersOk, Noticed, Look, Timed, Watched, Scheduled;
      if e.finalizing {
        return -1;
      }
      FlagFacts(e);
      result := AddWatch(e, ioResult);
      if result == -1 || tv.None? {
        return;
      }
      if e.persist && !absolute {
        SetInterval(e, tv.value);
      }
      var deadline := if absolute then tv.value else Timeval(now + tv.value.us, tv.value.common);
      assert forall c :: 0 <= c < |commons| && old(Noticed(c)) ==> Noticed(c);
      if deadline.common < 0 {
        AddHeapTimeout(e, deadline);
        return;
      }
      AddCommonTimeout(e, deadline, now);
    }

    // ... and for one in a common-timeout list.
    method AddCommonTimeout(e: Event, deadline: Timeval, now: int)
      requires Core() && e in all && e.isEvent && !e.finalizing && 0 <= deadline.common < |commons| && NotTimer(e)
      modifies this`queues, this`heap, this`commons, this`eventCount, this`eventCountActive, this`ins, this`tmo, this`act,
               e`timeout, e`active, e`deadline, commons[deadline.common].timer`inserted, commons[deadline.common].timer`timeout,
               commons[deadline.common].timer`active, commons[deadline.common].timer`deadline, commons[deadline.common].timer`interval
      ensures Core() && e.timeout && e.deadline == deadline && |commons| == |old(commons)| && ins == old(ins)
      ensures e.active == (old(e.active) && Timeout !in e.res)
      ensures forall c {:trigger commons[c]} :: 0 <= c < |commons| ==> commons[c].timer == old(commons)[c].timer
      ensures forall c :: 0 <= c < |commons| && old(Noticed(c)) ==> Noticed(c)
      ensures Look() == Led(Timed(old(Look()), e, deadline), deadline.common, e)
      decreases 0, 2
    {
      hide InsertedOk, ActiveOk, CountOk, TimeoutOk, TimersOk, Noticed, Look, Entered, Unexpired, Scheduled;
      ClearTimeout(e);
      SetDeadline(e, deadline);
      var head := EnterCommon(e);
      Seen();
      if head {
        Schedule(deadline.common, e, now);
      }
    }

    // common_timeout_schedule
    method Schedule(c: nat, head: Event, now: int)
      requires Core() && c < |commons| && commons[c].events != [] && commons[c].events[0] == head
      modifies this`queues, this`heap, this`commons, this`eventCount, this`eventCountActive, this`ins, this`tmo, this`act,
               commons[c].timer`inserted, commons[c].timer`timeout, commons[c].timer`active, commons[c].timer`deadline, commons[c].timer`interval
      ensures Core() && commons == old(commons) && Noticed(c) && Set(c) && (old(NoneLost()) ==> NoneLost())
      ensures commons[c].timer in heap && commons[c].timer.deadline == Timeval(head.deadline.us, -1)
      ensures ins == old(ins)
      ensures forall d :: 0 <= d < |commons| && old(Noticed(d)) ==> Noticed(d)
      ensures Look() == Scheduled(old(Look()), c)
      decreases 0, 1
    {
      hide InsertedOk, ActiveOk, CountOk, TimeoutOk, TimersOk, Noticed, Look, Timed;
      TimerFacts(c);
      HeadNotTimer(c);
      Seen();
      DueOf(head);
      var r := EventAdd(commons[c].timer, Some(Timeval(head.deadline.us, -1)), true, now, 0);
      NowNoticed(c);
      forall d | 0 <= d < |commons| && old(Noticed(d)) ensures Noticed(d) {
        if d != c {
          OtherTimer(c, d);
        }
      }
      if old(NoneLost()) {
        forall d | 0 <= d < |commons| ensures Noticed(d) {
          assert old(commons[d]) == commons[d] && old(Noticed(d));
        }
        assert NoneLost();
      }
    }

    // The events of a common timeout are not timers.
    lemma HeadNotTimer(c: nat)
      requires Core() && c < |commons|
      ensures forall e :: e in commons[c].events ==> NotTimer(e) && e in all && e.deadline.common == c && e.timeout && !e.finalizing
    {
      hide InsertedOk, ActiveOk, CountOk;
    }

    lemma TimerFacts(c: nat)
      requires TimersOk() && c < |commons|
      ensures var t := commons[c].timer;
              t in all && t.isEvent && t.internal && !t.watches && !t.finalizing && t.deadline.common < 0
    {
    }

    lemma OtherTimer(c: nat, d: nat)
      requires TimersOk() && c < |commons| && d < |commons| && c != d
      ensures commons[c].timer != commons[d].timer
    {
    }

    static ghost predicate IsMin(e: Event, s: set<Event>)
      reads s`deadline, e`deadline
    {
      e in s && forall x :: x in s ==> e.deadline.us <= x.deadline.us
    }

    static lemma {:induction false} MinExists(s: set<Event>) returns (m: Event)
      requires s != {}
      ensures IsMin(m, s)
    {
      var a :| a in s;
      m := a;
      var rest := s - {a};
      assert forall x :: x in s ==> x == a || x in rest;
      if rest != {} {
        var b := MinExists(rest);
        m := if b.deadline.us < a.deadline.us then b else a;
        assert forall x :: x in rest ==> b.deadline.us <= x.deadline.us;
      }
    }

    // min_heap_top_
    method Top() returns (e: Event)
      requires heap != {}
      ensures e in heap && forall x :: x in heap ==> e.deadline.us <= x.deadline.us
    {
      ghost var m := MinExists(heap);
      assert forall x :: x in heap ==> m.deadline.us <= x.deadline.us;
      e :| e in heap && forall x :: x in heap ==> e.deadline.us <= x.deadline.us;
    }

    // An event whose timeout has elapsed becomes active: event_del_nolock_, event_active_nolock_.
    method Fire(e: Event)
      requires Core() && e in all && e.isEvent && e.timeout
      modifies this`queues, this`laterQueue, this`heap, this`commons, this`eventCount, this`eventCountActive, this`eventContinue,
               this`ins, this`tmo, this`act, this`lat, e`inserted, e`timeout, e`active, e`later, e`res
      ensures Core() && |commons| == |old(commons)| && heap == old(heap) - {e} && tmo == old(tmo) - {e} && act == old(act) + {e}
      ensures e.active && !e.timeout && !e.inserted && !e.later && e.res == {Timeout}
      ensures forall c {:trigger commons[c]} :: 0 <= c < |commons| ==> commons[c].timer == old(commons)[c].timer
      ensures forall c :: 0 <= c < |commons| && (old(Noticed(c)) || commons[c].timer == e) ==> Noticed(c)
      ensures commons == Dropped(old(commons), e) && Look() == Expired(old(Look()), e)
    {
      hide InsertedOk, ActiveOk, CountOk, TimeoutOk, TimersOk, Look, Deleted;
      assert !e.finalizing by { if e.finalizing { NotFinalizing(e); } }
      var _ := EventDel(e, false, 0);
      label L:
      EventActive(e, {Timeout});
      FlagFacts(e);
      forall c | 0 <= c < |commons| && (old(Noticed(c)) || commons[c].timer == e) ensures Noticed(c) {
        if commons[c].timer != e {
          assert old@L(Noticed(c));
        }
      }
    }

    // An event that timeout_process has made active.
    ghost predicate Fired(e: Event)
      reads e`active, e`timeout, e`res
    {
      e.active && !e.timeout && e.res == {Timeout}
    }

    // One round of timeout_process.
    method FireTop(now: int) returns (done: bool, ghost e: Event)
      requires Core() && NoneLost() && heap != {}
      modifies this`queues, this`laterQueue, this`heap, this`commons, this`eventCount, this`eventCountActive, this`eventContinue,
               this`ins, this`tmo, this`act, this`lat, all`inserted, all`timeout, all`active, all`later, all`res
      ensures Core() && NoneLost() && |commons| == |old(commons)|
      ensures forall c {:trigger commons[c]} :: 0 <= c < |commons| ==> commons[c].timer == old(commons)[c].timer
      ensures e in old(heap) && forall x :: x in all && x != e ==> unchanged(x)
      ensures if done then heap == old(heap) && unchanged(e) && forall x :: x in heap ==> x.deadline.us > now
              else heap == old(heap) - {e} && e.deadline.us <= now && Fired(e)
      ensures Look() == if done then old(Look()) else Expired(old(Look()), e)
      ensures !done ==> e in old(Look()).heap && Earliest(old(Look()), e) && DueAt(old(Look()).deadlines, e) <= now
    {
      hide InsertedOk, ActiveOk, CountOk, TimeoutOk, TimersOk, Noticed, Look, Expired, Expires;
      HeapFacts();
      Seen();
      ghost var p := Look();
      forall x | x in heap ensures DueAt(p.deadlines, x) == x.deadline.us {
        DueOf(x);
      }
      var top := Top();
      e := top;
      if top.deadline.us > now {
        return true, e;
      }
      Fire(top);
      forall c | 0 <= c < |commons| ensures Noticed(c) {
        assert commons[c].timer == old(commons[c]).timer && old(Noticed(c));
      }
      done := false;
    }

    // timeout_process: every event of the heap whose deadline has passed becomes active, and
    // nothing else changes.
    method TimeoutProcess(now: int)
      requires Core() && NoneLost()
      modifies this`queues, this`laterQueue, this`heap, this`commons, this`eventCount, this`eventCountActive, this`eventContinue,
               this`ins, this`tmo, this`act, this`lat, all`inserted, all`timeout, all`active, all`later, all`res
      ensures Core() && NoneLost() && |commons| == |old(commons)|
      ensures forall c {:trigger commons[c]} :: 0 <= c < |commons| ==> commons[c].timer == old(commons)[c].timer
      ensures Expires(old(Look()), Look(), now)
      ensures forall e :: e in heap <==> e in old(heap) && e.deadline.us > now
      ensures forall e :: e in old(heap) && e.deadline.us <= now ==> Fired(e)
      ensures forall e :: e in all && (e !in old(heap) || e.deadline.us > now) ==> unchanged(e)
    {
      hide InsertedOk, ActiveOk, CountOk, TimeoutOk, TimersOk, Noticed, NoneLost, Look, Expires, Expired, ExpiredAll, Earliest, InTurn;
      NoTurn(Look(), now);
      HeapFacts();
      ghost var p, fired := Look(), [];
      while heap != {}
        invariant Core() && NoneLost() && |commons| == |old(commons)| && heap <= old(heap)
        invariant forall c {:trigger commons[c]} :: 0 <= c < |commons| ==> commons[c].timer == old(commons)[c].timer
        invariant forall e :: e in old(heap) && e !in heap ==> e.deadline.us <= now && Fired(e)
        invariant forall e :: e in all && (e !in old(heap) || e in heap) ==> unchanged(e)
        invariant Look() == ExpiredAll(p, fired) && InTurn(p, fired, now)
        decreases |heap|
      {
        HeapFacts();
        label L:
        var done, e := FireTop(now);
        forall x | x in old(heap) && x !in heap ensures Fired(x) {
          if x != e {
            assert x in all && old@L(Fired(x));
          }
        }
        if done {
          break;
        }
        OneMoreTurn(p, fired, e, now);
        fired := fired + [e];
      }
      NoneDue(now);
      ExpiresAll(p, fired, now, 0);
      assert fired[..0] == [];
    }

    lemma NoneDue(now: int)
      requires heap <= all && forall e :: e in heap ==> e.deadline.us > now
      ensures Expires(Look(), Look(), now)
    {
      hide Expired;
      forall x | x in heap ensures DueAt(Look().deadlines, x) > now {
        DueOf(x);
      }
    }

    lemma HeapFacts()
      requires Core()
      ensures forall e :: e in heap ==> e in all && e.timeout && !e.finalizing && e.deadline.common < 0 && e.isEvent
    {
      hide InsertedOk, ActiveOk, CountOk, TimersOk;
    }

    // The first event of a common timeout, whose deadline has passed, becomes active.
    method FireHead(c: nat, e: Event)
      requires Core() && NoneLost() && c < |commons| && commons[c].events != [] && e == commons[c].events[0]
      requires current == commons[c].timer
      modifies this`queues, this`laterQueue, this`heap, this`commons, this`eventCount, this`eventCountActive, this`eventContinue,
               this`ins, this`tmo, this`act, this`lat, e`inserted, e`timeout, e`active, e`later, e`res
      ensures Core() && NoneLost() && |commons| == |old(commons)|
      ensures Fired(e) && commons[c].events == old(commons)[c].events[1..]
      ensures Look() == Expired(old(Look()), e)
      ensures forall d {:trigger commons[d]} :: 0 <= d < |commons| ==> commons[d].timer == old(commons)[d].timer
    {
      hide InsertedOk, ActiveOk, CountOk, TimeoutOk, TimersOk, Noticed, Look, Expired;
      assert e in commons[c].events;
      HeadNotTimer(c);
      TimeoutFacts();
      Fire(e);
      forall d | 0 <= d < |commons| ensures Noticed(d) {
        assert commons[d].timer == old(commons[d]).timer && old(Noticed(d));
      }
    }

    lemma TimeoutFacts()
      requires TimeoutOk()
      ensures forall e :: e in all && e.timeout ==> e.isEvent
      ensures forall c {:trigger commons[c]} :: 0 <= c < |commons| ==> Sorted(commons[c].events) && NoDup(commons[c].events)
    {
    }

    // One round of the loop: the event in place k, which is the first now, becomes active.
    method FireNext(c: nat, e: Event, ghost p: Shot, ghost l: seq<Event>, ghost k: nat)
      requires Core() && NoneLost() && c < |commons| && current == commons[c].timer && NoDup(l) && forall x :: x in l ==> x in all
      requires k < |l| && commons[c].events == l[k..] && e == l[k]
      requires Look() == ExpiredAll(p, l[..k]) && forall i :: 0 <= i < k ==> Fired(l[i])
      modifies this`queues, this`laterQueue, this`heap, this`commons, this`eventCount, this`eventCountActive, this`eventContinue,
               this`ins, this`tmo, this`act, this`lat, e`inserted, e`timeout, e`active, e`later, e`res
      ensures Core() && NoneLost() && |commons| == |old(commons)|
      ensures forall d {:trigger commons[d]} :: 0 <= d < |commons| ==> commons[d].timer == old(commons)[d].timer
      ensures commons[c].events == l[k + 1..] && Look() == ExpiredAll(p, l[..k + 1]) && forall i :: 0 <= i <= k ==> Fired(l[i])
    {
      hide InsertedOk, ActiveOk, CountOk, TimeoutOk, TimersOk, Noticed, NoDup, NotTimer, Look, Expired, ExpiredAll;
      HeadNotTimer(c);
      assert forall i :: 0 <= i < k ==> l[i] != e by { NoDupAt(l, k); }
      FireHead(c, e);
      AllButLast(p, l[..k], e);
      assert l[..k] + [e] == l[..k + 1];
    }

    // The loop of common_timeout_callback: the first k events of the list, which are due, become active.
    method FireDue(c: nat, now: int) returns (ghost k: nat)
      requires Core() && NoneLost() && c < |commons| && current == commons[c].timer
      modifies this`queues, this`laterQueue, this`heap, this`commons, this`eventCount, this`eventCountActive, this`eventContinue,
               this`ins, this`tmo, this`act, this`lat, all`inserted, all`timeout, all`active, all`later, all`res
      ensures Core() && NoneLost() && |commons| == |old(commons)|
      ensures forall d {:trigger commons[d]} :: 0 <= d < |commons| ==> commons[d].timer == old(commons)[d].timer
      ensures k <= |old(commons)[c].events| && commons[c].events == old(commons)[c].events[k..]
      ensures forall i :: 0 <= i < k ==> old(commons)[c].events[i].deadline.us <= now && Fired(old(commons)[c].events[i])
      ensures k < |old(commons)[c].events| ==> old(commons)[c].events[k].deadline.us > now
      ensures Look() == ExpiredAll(old(Look()), old(commons)[c].events[..k])
      ensures forall x :: x in all && x !in old(commons)[c].events ==> unchanged(x)
    {
      hide InsertedOk, ActiveOk, CountOk, TimeoutOk, TimersOk, Noticed, NoDup, NotTimer, Look, Expired, ExpiredAll;
      ghost var l := commons[c].events;
      ghost var p := Look();
      k := 0;
      ListedOnceEach(c);
      HeadNotTimer(c);
      NoTurn(p, now);
      assert l[..0] == [];
      while commons[c].events != [] && commons[c].events[0].deadline.us <= now
        invariant Core() && NoneLost() && |commons| == |old(commons)| && current == commons[c].timer
        invariant k <= |l| && commons[c].events == l[k..] && (forall i :: 0 <= i < k ==> l[i].deadline.us <= now)
        invariant forall i :: 0 <= i < k ==> Fired(l[i])
        invariant Look() == ExpiredAll(p, l[..k])
        invariant forall x :: x in all && x !in l ==> unchanged(x)
        invariant forall d {:trigger commons[d]} :: 0 <= d < |commons| ==> commons[d].timer == old(commons)[d].timer
        decreases |l| - k
      {
        FireNext(c, commons[c].events[0], p, l, k);
        k := k + 1;
      }
    }

    lemma ListedOnceEach(c: nat)
      requires Core() && c < |commons|
      ensures NoDup(commons[c].events)
    {
      hide InsertedOk, ActiveOk, CountOk, TimersOk;
    }

    // common_timeout_callback: the events whose deadline has passed become active, and the timer is
    // set for the first of the others. The common timeout is noticed without its timer running.
    method CommonTimeoutCallback(c: nat, now: int)
      requires Core() && NoneLost() && c < |commons| && current == commons[c].timer
      modifies this`queues, this`laterQueue, this`heap, this`commons, this`eventCount, this`eventCountActive, this`eventContinue,
               this`ins, this`tmo, this`act, this`lat, all`inserted, all`timeout, all`active, all`later, all`res,
               commons[c].timer`deadline, commons[c].timer`interval, commons[c].timer`inserted, commons[c].timer`timeout, commons[c].timer`active
      ensures Core() && NoneLost() && |commons| == |old(commons)| && Set(c)
      ensures forall d {:trigger commons[d]} :: 0 <= d < |commons| ==> commons[d].timer == old(commons)[d].timer
      ensures Due(old(commons)[c].events, commons[c].events, now)
      ensures Look() == Elapsed(old(Look()), c, now)
      ensures forall x :: x in all && x !in old(commons)[c].events && x != commons[c].timer ==> unchanged(x)
    {
      hide Core, Noticed, NoneLost, Sorted, NoDup, Look, Expired, ExpiredAll, Scheduled, Set, Fired, Due;
      ghost var l := commons[c].events;
      HeadNotTimer(c);
      Seen();
      DuesOf(l);
      ghost var k := FireDue(c, now);
      DueCountIs(l, old(Look()).deadlines, now, k);
      ScheduleNext(c, now);
      assert Due(l, commons[c].events, now) by { DueIs(l, k, now); }
    }

    lemma DueIs(l: seq<Event>, k: nat, now: int)
      requires k <= |l| && (forall i :: 0 <= i < k ==> l[i].deadline.us <= now && Fired(l[i])) && (k < |l| ==> l[k].deadline.us > now)
      ensures Due(l, l[k..], now)
    {
    }

    // The timer of a common timeout is set for the first of its events, if there is one.
    method ScheduleNext(c: nat, now: int)
      requires Core() && NoneLost() && c < |commons|
      modifies this`queues, this`heap, this`commons, this`eventCount, this`eventCountActive, this`ins, this`tmo, this`act,
               commons[c].timer`inserted, commons[c].timer`timeout, commons[c].timer`active, commons[c].timer`deadline, commons[c].timer`interval
      ensures Core() && NoneLost() && commons == old(commons) && Set(c) && Look() == Scheduled(old(Look()), c)
    {
      hide Core, Noticed, NoneLost, Look, Scheduled;
      if commons[c].events != [] {
        Schedule(c, commons[c].events[0], now);
      } else {
        NothingToSchedule(c);
      }
    }

    lemma DuesOf(l: seq<Event>)
      requires forall e :: e in l ==> e in all
      ensures forall i :: 0 <= i < |l| ==> DueAt(Look().deadlines, l[i]) == l[i].deadline.us
    {
      hide Look;
      forall i | 0 <= i < |l| ensures DueAt(Look().deadlines, l[i]) == l[i].deadline.us {
        DueOf(l[i]);
      }
    }

    lemma NothingToSchedule(c: nat)
      requires c < |commons| && commons[c].events == []
      ensures Scheduled(Look(), c) == Look()
    {
    }

    static lemma NoDupAt(l: seq<Event>, k: nat)
      requires NoDup(l) && k < |l|
      ensures forall i :: 0 <= i < k ==> l[i] != l[k]
    {
    }

    // The first callback of the later queue becomes active.
    method MoveLater(e: Event)
      requires Core() && laterQueue != [] && e == laterQueue[0]
      modifies this`queues, this`laterQueue, this`act, this`lat, e`active, e`later
      ensures Core() && laterQueue == old(laterQueue)[1..] && e in all && e.pri < |old(queues)|
      ensures queues == old(queues)[e.pri := old(queues)[e.pri] + [e]] && act == old(act) + {e} && lat == old(lat) - {e} && e in old(lat)
      ensures forall c :: 0 <= c < |commons| && old(Noticed(c)) ==> Noticed(c)
    {
      hide InsertedOk, TimeoutOk, Total, Counted, Queued, NoDup, Holds, Without;
      LaterHead();
      CountedRemove(lat, e);
      CountedAdd(act, e);
      HoldsRemove(laterQueue, lat, e);
      QueuedPush(queues, act, e);
      laterQueue := laterQueue[1..];
      e.later, e.active := false, true;
      queues := queues[e.pri := queues[e.pri] + [e]];
      act, lat := act + {e}, lat - {e};
    }

    lemma LaterHead()
      requires ActiveOk() && laterQueue != []
      ensures var e := laterQueue[0];
        e in all && e in lat && e !in act && !e.active && e.later && e.pri < |queues| && Without(laterQueue, e) == laterQueue[1..]
    {
      hide Queued, NoDup, Total;
      assert laterQueue[0] in laterQueue;
    }

    // event_queue_make_later_events_active: in order, and nothing is counted twice.
    method MakeLaterActive()
      requires Core() && NoneLost()
      modifies this`queues, this`laterQueue, this`act, this`lat, all`active, all`later
      ensures Core() && NoneLost() && laterQueue == [] && act == old(act) + old(lat) && lat == {}
      ensures (forall e :: e in old(laterQueue) ==> e.pri < |old(queues)|) && queues == Enqueue(old(queues), old(laterQueue))
      ensures Look() == old(Look()).(queues := queues, later := [], act := act, lat := {})
    {
      hide Look, Noticed;
      EnqueueNone(queues);
      Seen();
      hide InsertedOk, TimeoutOk, TimersOk, CountOk, ActiveOk, Enqueue;
      LaterFacts();
      ghost var l, k: nat := laterQueue, 0;
      assert l[..0] == [];
      while laterQueue != []
        invariant Core() && NoneLost() && k <= |l| && laterQueue == l[k..] && |queues| == |old(queues)|
        invariant forall e :: e in l ==> e.pri < |old(queues)| && e in all
        invariant queues == Enqueue(old(queues), l[..k]) && act + lat == old(act) + old(lat)
        decreases |laterQueue|
      {
        var e := laterQueue[0];
        assert e == l[k];
        EnqueueOne(old(queues), l, k);
        label L:
        MoveLater(e);
        forall c | 0 <= c < |commons| ensures Noticed(c) {
          assert old@L(Noticed(c));
        }
        k := k + 1;
      }
      assert l[..k] == l;
      LaterFacts();
      Seen();
    }

    lemma LaterFacts()
      requires ActiveOk()
      ensures forall e :: e in laterQueue ==> e.pri < |queues| && e in all
      ensures laterQueue == [] ==> lat == {}
    {
      hide Queued, NoDup, Total;
    }

    lemma HasQueue()
      requires Core()
      ensures |queues| > 0
    {
    }

    // event_base_init_common_timeout: the index of the common timeout for a duration.
    method InitCommonTimeout(duration: Duration) returns (index: int)
      requires Core() && NoneLost()
      modifies this`commons, this`all
      ensures Core() && NoneLost() && |old(commons)| <= |commons| <= |old(commons)| + 1
      ensures forall c {:trigger commons[c]} :: 0 <= c < |old(commons)| ==> commons[c] == old(commons)[c]
      ensures if index < 0 then index == -1 && commons == old(commons) && |commons| >= 256
              else index < |commons| && commons[index].duration == Carried(duration, |old(commons)|)
      ensures if exists c :: 0 <= c < |old(commons)| && old(commons)[c].duration == Carried(duration, |old(commons)|)
              then 0 <= index < |old(commons)| && commons == old(commons)
              else index == if |old(commons)| >= 256 then -1 else |old(commons)|
      ensures Look() == if |commons| == |old(commons)| then old(Look()) else Lengthened(old(Look()), commons[|commons| - 1].timer, Carried(duration, |old(commons)|))
      ensures if |commons| == |old(commons)| then all == old(all)
              else fresh(commons[|commons| - 1].timer) && all == old(all) + {commons[|commons| - 1].timer} && commons[|commons| - 1].events == []
    {
      hide Core, NoneLost, Look, Lengthened, Carried;
      HasQueue();
      var tv := Carried(duration, |commons|);
      for i := 0 to |commons|
        invariant forall c :: 0 <= c < i ==> commons[c].duration != tv
      {
        if commons[i].duration == tv {
          return i;
        }
      }
      if |commons| >= 256 {
        return -1;
      }
      index := |commons|;
      var timer := new Event(true, true, 0, false, false);
      NewTimer(timer, tv);
    }

    // Nothing but the set of callbacks has changed: e is new.
    twostate predicate Joined(e: Event)
      reads this, all
    {
      && all == old(all) + {e} && unchanged(old(all)) && unchanged(e)
      && unchanged(this`queues, this`laterQueue, this`heap, this`commons, this`eventCount, this`eventCountActive, this`current,
                   this`ins, this`tmo, this`act, this`lat)
      && e !in old(all) && !e.inserted && !e.timeout && !e.active && !e.later && !e.finalizing
    }

    twostate lemma JoinedInserted(e: Event)
      requires Joined(e) && old(InsertedOk())
      ensures InsertedOk()
    {
    }

    twostate lemma JoinedActive(e: Event)
      requires Joined(e) && old(ActiveOk()) && e.pri < |queues|
      ensures ActiveOk()
    {
      hide Queued, NoDup, Total;
    }

    twostate lemma JoinedTimeout(e: Event)
      requires Joined(e) && old(TimeoutOk())
      ensures TimeoutOk()
    {
      hide NoDup;
    }

    twostate lemma JoinedTimers(e: Event)
      requires Joined(e) && old(TimersOk()) && old(NoneLost())
      ensures TimersOk() && NotTimer(e) && NoneLost()
    {
      forall c | 0 <= c < |commons| ensures Noticed(c) {
        assert commons[c] == old(commons[c]) && old(Noticed(c));
      }
    }

    twostate lemma JoinedTimes(e: Event)
      requires Joined(e)
      ensures Deadlines() == old(Deadlines())[e := e.deadline] && Intervals() == old(Intervals())[e := e.interval]
    {
    }

    twostate lemma JoinedRest(e: Event)
      requires Joined(e)
      ensures Finalizing() == old(Finalizing()) && Reasons() == old(Reasons())[e := e.res]
    {
    }

    twostate lemma JoinedLook(e: Event)
      requires Joined(e)
      ensures Look() == Assigned(old(Look()), e, e.deadline, e.interval, e.res)
    {
      hide Finalizing, Deadlines, Intervals, Reasons;
      JoinedTimes(e);
      JoinedRest(e);
    }

    // event_assign: a callback that has no flags yet.
    method Register(e: Event)
      requires Core() && NoneLost() && e !in all && e.pri < |queues|
      requires !e.inserted && !e.timeout && !e.active && !e.later && !e.finalizing
      modifies this`all
      ensures Core() && NoneLost() && all == old(all) + {e} && NotTimer(e)
      ensures Look() == Assigned(old(Look()), e, e.deadline, e.interval, e.res)
    {
      hide Look;
      hide InsertedOk, ActiveOk, TimeoutOk, TimersOk, NoneLost, NotTimer;
      all := all + {e};
      JoinedInserted(e);
      JoinedActive(e);
      JoinedTimeout(e);
      JoinedTimers(e);
      JoinedLook(e);
    }

    // Nothing but the list of common timeouts has changed: a new one is behind the others.
    twostate predicate Appended(ctl: CommonTimeouts)
      reads this, all
    {
      && commons == old(commons) + [ctl] && ctl.events == [] && all == old(all) && unchanged(old(all))
      && unchanged(this`heap, this`tmo, this`act, this`current)
    }

    twostate lemma AppendedTimeout(ctl: CommonTimeouts)
      requires Appended(ctl) && old(TimeoutOk())
      ensures TimeoutOk()
    {
      forall c {:trigger commons[c]} | 0 <= c < |commons| ensures NoDup(commons[c].events) && Sorted(commons[c].events) {
        if c < |old(commons)| {
          assert commons[c] == old(commons)[c];
        }
      }
    }

    twostate lemma AppendedTimers(ctl: CommonTimeouts)
      requires Appended(ctl) && old(TimersOk()) && old(NoneLost()) && old(NotTimer(ctl.timer)) && ctl.timer in all
      requires ctl.timer.isEvent && ctl.timer.internal && ctl.timer.pri == 0 && !ctl.timer.watches && !ctl.timer.persist
      requires ctl.timer.deadline.common < 0 && !ctl.timer.later && !ctl.timer.finalizing
      ensures TimersOk() && NoneLost()
    {
      forall c | 0 <= c < |commons| ensures Noticed(c) {
        if c < |old(commons)| {
          assert commons[c] == old(commons)[c] && old(Noticed(c));
        }
      }
    }

    // A new common timeout, without events.
    method NewTimer(timer: Event, duration: Duration)
      requires Core() && NoneLost() && |queues| > 0 && timer !in all
      requires timer.isEvent && timer.internal && timer.pri == 0 && !timer.watches && !timer.persist && timer.deadline.common < 0
      requires !timer.inserted && !timer.timeout && !timer.active && !timer.later && !timer.finalizing
      requires timer.deadline == timer.interval == Timeval(0, -1) && timer.res == {}
      modifies this`commons, this`all
      ensures Core() && NoneLost() && all == old(all) + {timer} && commons == old(commons) + [CommonTimeouts([], timer, duration)]
      ensures Look() == Lengthened(old(Look()), timer, duration)
    {
      hide InsertedOk, ActiveOk, TimeoutOk, TimersOk, CountOk, NoneLost, NotTimer, Look;
      Seen();
      Register(timer);
      Seen();
      AppendTimer(CommonTimeouts([], timer, duration));
      Seen();
    }

    // ctl becomes the last common timeout.
    method AppendTimer(ctl: CommonTimeouts)
      requires Core() && NoneLost() && NotTimer(ctl.timer) && ctl.timer in all && ctl.events == []
      requires ctl.timer.isEvent && ctl.timer.internal && ctl.timer.pri == 0 && !ctl.timer.watches && !ctl.timer.persist
      requires ctl.timer.deadline.common < 0 && !ctl.timer.later && !ctl.timer.finalizing
      modifies this`commons
      ensures Core() && NoneLost() && commons == old(commons) + [ctl] && Look() == old(Look()).(commons := commons)
    {
      hide InsertedOk, ActiveOk, TimeoutOk, TimersOk, CountOk, NoneLost, NotTimer, Finalizing, Deadlines, Intervals, Reasons;
      commons := commons + [ctl];
      AppendedTimeout(ctl);
      AppendedTimers(ctl);
    }

    // event_remove_timer_nolock_: a pending timeout goes, and with it the interval it came from.
    method RemoveTimer(e: Event)
      requires Core() && e in all && e.isEvent && NotTimer(e)
      modifies this`heap, this`commons, this`eventCount, this`tmo, e`timeout, e`interval
      ensures Core() && !e.timeout && tmo == old(tmo) - {e} && heap == old(heap) - {e} && |commons| == |old(commons)|
      ensures e.interval == if old(e.timeout) then Timeval(0, -1) else old(e.interval)
      ensures forall c {:trigger commons[c]} :: 0 <= c < |commons| ==>
                commons[c].timer == old(commons)[c].timer && commons[c].events == Less(old(commons)[c].events, e)
      ensures Look() == Disarmed(old(Look()), e)
      ensures forall c :: 0 <= c < |commons| && old(Noticed(c)) ==> Noticed(c)
    {
      hide InsertedOk, ActiveOk, CountOk, TimeoutOk, TimersOk, Noticed, Look;
      Seen();
      FlagFacts(e);
      var timed := e.timeout;
      DelTimeout(e);
      forall c | 0 <= c < |commons| && old(Noticed(c)) ensures Noticed(c) {
        assert commons[c].timer == old(commons)[c].timer;
      }
      if timed {
        SetInterval(e, Timeval(0, -1));
      }
    }

    // The events with EV_PERSIST remember the common timeout they were added with, if any.
    ghost predicate Persistent()
      reads this`all, this`commons, all`deadline, all`interval
    {
      forall e :: e in all && e.persist ==>
        -1 <= e.interval.common < |commons| && (NoInterval(e) || e.deadline.common == e.interval.common)
    }

    // The first callback of a queue leaves it, before it is run.
    method Dequeue(i: nat, ioResult: int) returns (e: Event)
      requires Core() && NoneLost() && i < |queues| && queues[i] != [] && current == null
      modifies this`queues, this`laterQueue, this`heap, this`commons, this`eventCount, this`eventCountActive, this`current,
               this`ins, this`tmo, this`act, this`lat, all`inserted, all`timeout, all`active, all`later
      ensures Core() && NoneLost() && |commons| == |old(commons)| && |queues| == |old(queues)| && current == e
      ensures e == old(queues)[i][0] && e in all && !e.active && e.pri == i
      ensures forall c {:trigger commons[c]} :: 0 <= c < |commons| ==> commons[c].timer == old(commons)[c].timer
      ensures queues == old(queues)[i := old(queues)[i][1..]]
      ensures if e.isEvent && !e.persist && !e.finalizing then !e.inserted && !e.timeout && !e.later
              else e.inserted == old(e.inserted) && e.timeout == old(e.timeout) && e.later == old(e.later) && heap == old(heap) && commons == old(commons)
      ensures Look() == Taken(old(Look()), e)
      ensures forall x :: x in all && x != e ==> unchanged(x)
    {
      hide InsertedOk, CountOk, TimeoutOk, TimersOk, ActiveOk, Look, Deleted, Noticed;
      Seen();
      e := queues[i][0];
      HeadFacts(i);
      IntervalIs(e);
      AllTimers();
      if e.isEvent && !e.persist && !e.finalizing {
        var _ := EventDel(e, false, ioResult);
      } else {
        RemoveActive(e);
      }
      forall c | 0 <= c < |commons| && commons[c].timer != e ensures Noticed(c) {
        assert commons[c].timer == old(commons[c]).timer && old(Noticed(c));
      }
      Begin(e);
    }

    // base->current_event = evcb
    method Begin(e: Event)
      requires Core() && current == null && forall c :: 0 <= c < |commons| && commons[c].timer != e ==> Noticed(c)
      modifies this`current
      ensures Core() && NoneLost() && current == e && Look() == old(Look()).(current := e)
    {
      hide InsertedOk, CountOk, TimeoutOk, TimersOk, ActiveOk, Finalizing, Deadlines, Intervals, Reasons;
      current := e;
      forall c | 0 <= c < |commons| ensures Noticed(c) {
        if commons[c].timer != e {
          assert old(Noticed(c));
        }
      }
    }

    lemma AllTimers()
      requires TimersOk()
      ensures forall c {:trigger commons[c]} :: 0 <= c < |commons| ==>
                commons[c].timer.isEvent && !commons[c].timer.persist && !commons[c].timer.finalizing
    {
    }

    lemma HeadFacts(i: nat)
      requires Core() && i < |queues| && queues[i] != []
      ensures var e := queues[i][0]; e in all && e.active && !e.later && e.pri == i && queues[i := Without(queues[i], e)] == queues[i := queues[i][1..]]
    {
      hide InsertedOk, CountOk, TimeoutOk, TimersOk, NoDup, Total;
      assert queues[i][0] in queues[i];
    }

    function NextRun(e: Event, now: int): int
      reads e`deadline, e`interval, e`res
    {
      Next(e.deadline.us, e.interval.us, e.res, now)
    }

    lemma IntervalIs(e: Event)
      requires e in all
      ensures IntervalOf(Look(), e) == e.interval && (e in Look().fin <==> e.finalizing)
    {
    }

    // A persistent event without a timeout.
    predicate NoInterval(e: Event)
      reads e`interval
    {
      e.interval.us == 0 && e.interval.common < 0
    }

    // The first part of event_persist_closure.
    method Reschedule(e: Event, now: int, ioResult: int)
      requires Core() && NoneLost() && Persistent() && e in all && e.isEvent && e.persist && current == e
      modifies this`queues, this`heap, this`commons, this`eventCount, this`eventCountActive, this`ins, this`tmo, this`act,
               all`inserted, all`timeout, all`active, all`deadline, all`interval
      ensures Core() && NoneLost() && Persistent() && |commons| == |old(commons)|
      ensures forall c {:trigger commons[c]} :: 0 <= c < |commons| ==> commons[c].timer == old(commons)[c].timer
      ensures old(NoInterval(e)) ==> unchanged(this) && unchanged(all)
      ensures (e.active ==> old(e.active)) && e.interval == old(e.interval) && forall x :: x in all && x != e && old(NotTimer(x)) ==> unchanged(x)
      ensures Look() == Readded(old(Look()), e, now, ioResult)
      ensures !old(NoInterval(e)) && !e.finalizing && !(ioResult == -1 && e.watches && !old(e.inserted) && !old(e.active) && !old(e.later)) ==>
                e.timeout && e.deadline == Timeval(old(NextRun(e, now)), old(e.interval.common))
    {
      hide InsertedOk, CountOk, TimeoutOk, TimersOk, ActiveOk, Noticed, Look, Added, Next;
      Seen();
      DueOf(e);
      ReasonOf(e);
      IntervalIs(e);
      FlagFacts(e);
      if NoInterval(e) {
        return;
      }
      PersistNotTimer(e);
      var r := EventAdd(e, Some(Timeval(NextRun(e, now), e.interval.common)), true, now, ioResult);
      forall c | 0 <= c < |commons| ensures Noticed(c) {
        assert commons[c].timer == old(commons[c]).timer && old(Noticed(c));
      }
    }

    lemma PersistNotTimer(e: Event)
      requires TimersOk() && e.persist
      ensures NotTimer(e)
      ensures forall c {:trigger commons[c]} :: 0 <= c < |commons| ==> !commons[c].timer.persist && commons[c].timer in all
    {
    }

    lemma PersistNot(c: nat)
      requires TimersOk() && c < |commons|
      ensures !commons[c].timer.persist
    {
    }

    // The first events of a common timeout were due and have fired; what is left is not due.
    ghost predicate Due(was: seq<Event>, left: seq<Event>, now: int)
      reads was
    {
      exists k :: 0 <= k <= |was| && left == was[k..] && (forall i :: 0 <= i < k ==> was[i].deadline.us <= now && Fired(was[i])) && (k < |was| ==> was[k].deadline.us > now)
    }

    // The callback that has been dequeued is run, and done. What a user's callback does to the base is
    // not part of the step: those are steps of their own.
    method RunCurrent(now: int)
      requires Core() && NoneLost() && Persistent() && current != null && current in all
      modifies this, all
      ensures Core() && NoneLost() && Persistent() && current == null && |commons| == |old(commons)| && all == old(all)
      ensures forall c {:trigger commons[c]} :: 0 <= c < |commons| ==> commons[c].timer == old(commons)[c].timer
      ensures old(NotTimer(current)) ==> Look() == old(Look()).(current := null)
      ensures old(NotTimer(current)) ==> unchanged(all) && unchanged(this`queues, this`laterQueue, this`heap, this`commons, this`ins, this`tmo, this`act, this`lat)
      ensures forall c :: 0 <= c < |old(commons)| && old(commons)[c].timer == old(current) ==>
                && Look() == Elapsed(old(Look()), c, now).(current := null)
                && Due(old(commons)[c].events, commons[c].events, now)
                && forall x :: x in all && x !in old(commons)[c].events && x != old(current) ==> unchanged(x)
    {
      hide InsertedOk, CountOk, TimeoutOk, TimersOk, ActiveOk, Due, Elapsed, Look, Noticed;
      Seen();
      var e := current;
      if exists c :: 0 <= c < |commons| && commons[c].timer == e {
        var c :| 0 <= c < |commons| && commons[c].timer == e;
        PersistNot(c);
        forall d | 0 <= d < |commons| && d != c ensures commons[d].timer != e {
          OtherTimer(c, d);
        }
        CommonTimeoutCallback(c, now);
        Finish(c);
      } else {
        Leave();
      }
    }

    // Any other callback has run.
    method Leave()
      requires Core() && NoneLost() && forall c {:trigger commons[c]} :: 0 <= c < |commons| ==> commons[c].timer != current
      modifies this`current
      ensures Core() && NoneLost() && current == null && Look() == old(Look()).(current := null)
    {
      hide InsertedOk, CountOk, TimeoutOk, TimersOk, ActiveOk, Finalizing, Deadlines, Intervals, Reasons;
      current := null;
      forall c | 0 <= c < |commons| ensures Noticed(c) {
        assert old(Noticed(c)) && commons[c].timer != old(current);
      }
    }

    // The callback of a common timeout has run.
    method Finish(c: nat)
      requires Core() && NoneLost() && c < |commons| && Set(c) && current == commons[c].timer
      modifies this`current
      ensures Core() && NoneLost() && current == null && Look() == old(Look()).(current := null)
    {
      hide InsertedOk, CountOk, TimeoutOk, ActiveOk, Finalizing, Deadlines, Intervals, Reasons;
      current := null;
      forall d | 0 <= d < |commons| ensures Noticed(d) {
        assert old(Noticed(d));
        if d != c {
          OtherTimer(c, d);
        }
      }
    }

    // event_callback_finalize_nolock_
    method CallbackFinalize(e: Event, ioResult: int)
      requires Core() && e in all && NotTimer(e)
      modifies this`queues, this`laterQueue, this`heap, this`commons, this`eventCount, this`eventCountActive,
               this`ins, this`tmo, this`act, this`lat, e`inserted, e`timeout, e`active, e`later, e`finalizing
      ensures Core() && |commons| == |old(commons)| && e.finalizing
      ensures if old(e.finalizing) then unchanged(this) && unchanged(e)
              else e.active && !e.later && !e.timeout && (e.isEvent ==> !e.inserted)
                   && queues == Pushed(Unqueued(old(queues), e), e) && laterQueue == Less(old(laterQueue), e)
      ensures Look() == if old(e.finalizing) then old(Look())
                        else Activated(Removed(old(Look()), e), e).(fin := old(Look()).fin + {e})
      ensures forall c {:trigger commons[c]} :: 0 <= c < |commons| ==> commons[c].timer == old(commons)[c].timer
      ensures forall c :: 0 <= c < |commons| && old(Noticed(c)) ==> Noticed(c)
    {
      hide InsertedOk, ActiveOk, CountOk, TimeoutOk, TimersOk, Look, Noticed, Unqueued, Pushed, Less, Dropped;
      Seen();
      TimeoutFacts();
      if e.isEvent {
        var _ := EventDel(e, false, ioResult);
      } else {
        var _ := CallbackCancel(e, false, ioResult);
      }
      NotQueued(e);
      label L:
      var _ := CallbackActivate(e);
      if e.finalizing {
        NotFinalizing(e);
      }
      TimeoutFacts();
      label M:
      SetFinalizing(e);
      forall c | 0 <= c < |commons| && old(Noticed(c)) ensures Noticed(c) {
        assert commons[c].timer == old(commons)[c].timer && commons[c].timer != e;
        assert old@L(Noticed(c));
        assert old@M(Noticed(c));
      }
    }

    // event_process_active looks for the first queue that is not empty.
    method FirstQueue() returns (i: nat)
      ensures i <= |queues| && (forall j :: 0 <= j < i ==> queues[j] == []) && (i < |queues| ==> queues[i] != [])
    {
      i := 0;
      while i < |queues| && queues[i] == []
        invariant i <= |queues| && forall j :: 0 <= j < i ==> queues[j] == []
      {
        i := i + 1;
      }
    }
  }
}
