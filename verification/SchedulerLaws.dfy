// What the expiry of timeouts means: who fires leaves every structure and goes to the end of the queue
// of its priority, in the order of the deadlines; all others stay as they are and keep their order.
module SchedulerLaws {
  import opened Scheduler

  // The elements of s that are not in l, in their order.
  function Others(s: seq<Event>, l: seq<Event>): seq<Event> {
    if s == [] then []
    else
      var e := s[|s| - 1];
      Others(s[..|s| - 1], l) + if e in l then [] else [e]
  }

  // The callbacks of l with priority i, in their order.
  function OfPriority(l: seq<Event>, i: nat): seq<Event> {
    if l == [] then []
    else
      var e := l[|l| - 1];
      OfPriority(l[..|l| - 1], i) + if e.pri == i then [e] else []
  }

  // Each queue holds callbacks of its priority, once.
  ghost predicate Orderly(p: Shot) {
    forall i {:trigger p.queues[i]} :: 0 <= i < |p.queues| ==> NoDup(p.queues[i]) && forall e :: e in p.queues[i] ==> e.pri == i
  }

  // The state of a base is.
  lemma LooksOrderly(base: Base)
    requires base.Core()
    ensures Orderly(base.Look())
  {
    hide Total, NoDup;
  }

  // Nothing but its place in the queues has changed for callback x.
  ghost predicate Same(p: Shot, q: Shot, x: Event) {
    && (x in p.ins <==> x in q.ins) && (x in p.tmo <==> x in q.tmo) && (x in p.act <==> x in q.act) && (x in p.lat <==> x in q.lat)
    && (x in p.heap <==> x in q.heap) && Results(p, x) == Results(q, x)
  }

  // Callback x is active because of its timeout, and in no other structure.
  ghost predicate Fired(q: Shot, x: Event) {
    x in q.act && x !in q.ins && x !in q.tmo && x !in q.lat && x !in q.heap && Results(q, x) == {Timeout}
  }

  // Exactly event e has fired.
  lemma ExactlyThis(p: Shot, e: Event)
    ensures var q := Expired(p, e);
      && Fired(q, e) && (forall x :: x != e ==> Same(p, q, x)) && q.heap == p.heap - {e}
      && q.all == p.all && q.fin == p.fin && q.deadlines == p.deadlines && q.intervals == p.intervals && q.current == p.current
  {
    hide Dropped, Less, Unqueued, Pushed;
  }

  lemma StillSame(p: Shot, m: Shot, q: Shot, x: Event)
    requires Same(m, q, x)
    ensures Fired(m, x) ==> Fired(q, x)
    ensures Same(p, m, x) ==> Same(p, q, x)
  {
  }

  // Exactly the events of l have fired.
  lemma {:induction false} ExactlyThese(p: Shot, l: seq<Event>)
    ensures var q := ExpiredAll(p, l);
      && (forall x :: x in l ==> Fired(q, x)) && (forall x :: x !in l ==> Same(p, q, x))
      && q.all == p.all && q.fin == p.fin && q.deadlines == p.deadlines && q.intervals == p.intervals && q.current == p.current
  {
    if l == [] {
    } else {
      var before, e := l[..|l| - 1], l[|l| - 1];
      hide Expired, Fired, Same;
      ExactlyThese(p, before);
      var m := ExpiredAll(p, before);
      ExactlyThis(m, e);
      forall x | x != e ensures (Fired(m, x) ==> Fired(Expired(m, e), x)) && (Same(p, m, x) ==> Same(p, Expired(m, e), x)) {
        StillSame(p, m, Expired(m, e), x);
      }
      assert forall x :: x in l <==> x in before || x == e;
    }
  }

  lemma {:induction false} OthersNone(s: seq<Event>)
    ensures Others(s, []) == s
  {
    if s != [] {
      OthersNone(s[..|s| - 1]);
    }
  }

  // One element more is left out.
  lemma {:induction false} OthersOne(s: seq<Event>, l: seq<Event>, e: Event)
    requires NoDup(s)
    ensures Others(s, l + [e]) == Less(Others(s, l), e) && forall x :: x in Others(s, l) <==> x in s && x !in l
  {
    if s != [] {
      var t, x := s[..|s| - 1], s[|s| - 1];
      hide Less;
      OthersOne(t, l, e);
      assert s == t + [x] && (x in l + [e] <==> x in l || x == e);
      assert x !in t && x !in Others(t, l);
      LessPush(Others(t, l), x, e);
      assert Others(s, l) == Others(t, l) + if x in l then [] else [x];
      assert Others(s, l + [e]) == Others(t, l + [e]) + if x in l + [e] then [] else [x];
      assert Others(t, l) + [] == Others(t, l) && Less(Others(t, l), e) + [] == Less(Others(t, l), e);
    }
  }

  lemma {:induction false} WithoutPush(s: seq<Event>, t: seq<Event>, e: Event)
    requires e in s
    ensures Without(s + t, e) == Without(s, e) + t
  {
    if s[0] != e {
      WithoutPush(s[1..], t, e);
      assert (s + t)[1..] == s[1..] + t;
    } else {
      assert (s + t)[1..] == s[1..] + t;
    }
  }

  lemma {:induction false} WithoutLast(s: seq<Event>, e: Event)
    requires e !in s
    ensures Without(s + [e], e) == s
  {
    if s != [] {
      WithoutLast(s[1..], e);
      assert (s + [e])[1..] == s[1..] + [e];
    }
  }

  lemma LessPush(s: seq<Event>, x: Event, e: Event)
    requires x !in s
    ensures Less(s + [x], e) == Less(s, e) + if x == e then [] else [x]
  {
    hide Without;
    if e in s {
      WithoutPush(s, [x], e);
    } else if x == e {
      WithoutLast(s, e);
    }
  }

  lemma LessFront(s: seq<Event>, t: seq<Event>, e: Event)
    requires e !in t
    ensures Less(s + t, e) == Less(s, e) + t
  {
    hide Without;
    if e in s {
      WithoutPush(s, t, e);
    }
  }

  lemma {:induction false} OfPriorityIn(l: seq<Event>, i: nat)
    ensures forall x :: x in OfPriority(l, i) <==> x in l && x.pri == i
  {
    if l != [] {
      OfPriorityIn(l[..|l| - 1], i);
    }
  }

  // The queue of priority i when the events of l have fired: those that have not keep their order, and the
  // others are behind them, in the order they fired in.
  lemma {:induction false} QueueAfter(p: Shot, l: seq<Event>, i: nat)
    requires Orderly(p) && NoDup(l) && i < |p.queues|
    ensures |ExpiredAll(p, l).queues| == |p.queues|
    ensures ExpiredAll(p, l).queues[i] == Others(p.queues[i], l) + OfPriority(l, i)
  {
    if l == [] {
      OthersNone(p.queues[i]);
    } else {
      var before, e := l[..|l| - 1], l[|l| - 1];
      QueueAfter(p, before, i);
      assert l == before + [e] && e !in before;
      OthersOne(p.queues[i], before, e);
      OfPriorityIn(before, i);
      var m := ExpiredAll(p, before);
      ExpiredQueue(m, e, i);
      LessFront(Others(p.queues[i], before), OfPriority(before, i), e);
    }
  }

  lemma ExpiredQueue(m: Shot, e: Event, i: nat)
    requires i < |m.queues| && (e in m.queues[i] ==> e.pri == i)
    ensures |Expired(m, e).queues| == |m.queues|
    ensures Expired(m, e).queues[i] == Less(m.queues[i], e) + if e.pri == i then [e] else []
  {
  }

  lemma {:induction false} FirstAndRest(p: Shot, e: Event, l: seq<Event>)
    ensures ExpiredAll(p, [e] + l) == ExpiredAll(Expired(p, e), l)
  {
    hide Expired;
    if l == [] {
      assert [e] + l == [] + [e];
      AllButLast(p, [], e);
    } else {
      var before, x := l[..|l| - 1], l[|l| - 1];
      FirstAndRest(p, e, before);
      assert [e] + l == ([e] + before) + [x] && l == before + [x];
      AllButLast(p, [e] + before, x);
      AllButLast(Expired(p, e), before, x);
    }
  }

  // The events of a heap that are due, the earliest first.
  ghost predicate InOrder(l: seq<Event>, heap: set<Event>, deadlines: map<Event, Timeval>, now: int) {
    && NoDup(l) && (forall x :: x in l ==> x in heap && DueAt(deadlines, x) <= now)
    && (forall x :: x in heap && DueAt(deadlines, x) <= now ==> x in l)
    && forall i, j :: 0 <= i < j < |l| ==> DueAt(deadlines, l[i]) <= DueAt(deadlines, l[j])
  }

  lemma InOrderCons(l: seq<Event>, e: Event, heap: set<Event>, deadlines: map<Event, Timeval>, now: int)
    requires InOrder(l, heap - {e}, deadlines, now) && e in heap && DueAt(deadlines, e) <= now
    requires forall x :: x in heap ==> DueAt(deadlines, e) <= DueAt(deadlines, x)
    ensures InOrder([e] + l, heap, deadlines, now)
  {
    assert forall j :: 0 <= j < |l| ==> l[j] in l;
  }

  lemma FirstToExpire(p: Shot, q: Shot, now: int) returns (e: Event)
    requires Expires(p, q, now) && exists x :: x in p.heap && DueAt(p.deadlines, x) <= now
    ensures e in p.heap && Earliest(p, e) && DueAt(p.deadlines, e) <= now && Expires(Expired(p, e), q, now)
  {
    hide Expired;
    e :| e in p.heap && Earliest(p, e) && Expires(Expired(p, e), q, now);
    var x :| x in p.heap && DueAt(p.deadlines, x) <= now;
  }

  lemma NoneToExpire(p: Shot, q: Shot, now: int)
    requires Expires(p, q, now) && forall x :: x in p.heap ==> DueAt(p.deadlines, x) > now
    ensures q == ExpiredAll(p, []) && InOrder([], p.heap, p.deadlines, now)
  {
  }

  // timeout_process lets exactly the events of the heap fire that are due, the earliest first.
  lemma {:induction false} ExpiresInOrder(p: Shot, q: Shot, now: int) returns (l: seq<Event>)
    requires Expires(p, q, now)
    ensures q == ExpiredAll(p, l) && InOrder(l, p.heap, p.deadlines, now)
    decreases |p.heap|
  {
    hide ExpiredAll, Same, Fired, Expired, Expires, InOrder;
    if forall x :: x in p.heap ==> DueAt(p.deadlines, x) > now {
      l := [];
      NoneToExpire(p, q, now);
    } else {
      var e := FirstToExpire(p, q, now);
      ExactlyThis(p, e);
      var rest := ExpiresInOrder(Expired(p, e), q, now);
      FirstAndRest(p, e, rest);
      InOrderCons(rest, e, p.heap, p.deadlines, now);
      l := [e] + rest;
    }
  }

  // Whatever order events with one deadline fire in, each queue holds who did not fire, in the old order, and then
  // who did; and these are the same.
  lemma TimeoutsMean(p: Shot, q: Shot, now: int, i: nat) returns (l: seq<Event>)
    requires Expires(p, q, now) && Orderly(p) && i < |p.queues|
    ensures forall x :: if x in p.heap && DueAt(p.deadlines, x) <= now then Fired(q, x) else Same(p, q, x)
    ensures |q.queues| == |p.queues| && q.queues[i] == Others(p.queues[i], l) + OfPriority(l, i)
    ensures InOrder(l, p.heap, p.deadlines, now)
  {
    hide ExpiredAll, Expires, Same, Fired, NoDup, Orderly;
    l := ExpiresInOrder(p, q, now);
    ExactlyThese(p, l);
    QueueAfter(p, l, i);
  }

  // common_timeout_callback lets exactly the first events of its list fire, as far as they are due.
  lemma ElapsedMeans(p: Shot, c: nat, now: int, i: nat) returns (k: nat)
    requires Orderly(p) && c < |p.commons| && NoDup(p.commons[c].events) && i < |p.queues|
    ensures var l := p.commons[c].events;
      k <= |l| && (forall j :: 0 <= j < k ==> DueAt(p.deadlines, l[j]) <= now) && (k < |l| ==> DueAt(p.deadlines, l[k]) > now)
    ensures var m := ExpiredAll(p, p.commons[c].events[..k]);
      && Elapsed(p, c, now) == Scheduled(m, c)
      && (forall x :: if x in p.commons[c].events[..k] then Fired(m, x) else Same(p, m, x))
      && |m.queues| == |p.queues| && m.queues[i] == Others(p.queues[i], p.commons[c].events[..k]) + OfPriority(p.commons[c].events[..k], i)
  {
    hide ExpiredAll, Same, Fired, Orderly, Scheduled;
    var l := p.commons[c].events;
    k := DueCount(l, p.deadlines, now);
    ExactlyThese(p, l[..k]);
    QueueAfter(p, l[..k], i);
  }

  // The later queue goes to the ends of the queues of its priorities, in its order.
  lemma {:induction false} LaterInOrder(queues: seq<seq<Event>>, l: seq<Event>, i: nat)
    requires (forall e :: e in l ==> e.pri < |queues|) && i < |queues|
    ensures Enqueue(queues, l)[i] == queues[i] + OfPriority(l, i)
  {
    if l != [] {
      LaterInOrder(queues, l[..|l| - 1], i);
    }
  }
}
