// The timeout heap of minheap-internal.h: an array in which every event knows its place, and which
// stands for a set of events with a least one.
module MinHeap {
  const UINT_MAX: nat := 0xffff_ffff

  // The largest size for which the place of a child fits an unsigned int.
  const CHILD_MAX: nat := 0x7fff_ffff

  // struct event, as far as the heap is concerned: the time of its timeout in microseconds, and
  // ev_timeout_pos.min_heap_idx.
  class Event {
    var time: int
    var idx: int

    // min_heap_elem_init_
    constructor (time: int)
      ensures this.time == time && idx == -1
    {
      this.time, idx := time, -1;
    }
  }

  predicate IsChild(i: nat, j: nat) {
    j == 2 * i + 1 || j == 2 * i + 2
  }

  function Parent(j: nat): (i: nat)
    requires j > 0
    ensures i < j && IsChild(i, j)
  {
    (j - 1) / 2
  }

  // min_heap_elt_is_top_
  predicate IsTop(e: Event)
    reads e
  {
    e.idx == 0
  }

  // The events are in the order of their times, each once.
  ghost predicate InOrder(s: seq<Event>)
    reads s`time
  {
    forall i, j :: 0 <= i < j < |s| ==> s[i].time <= s[j].time && s[i] != s[j]
  }

  // The events of all are in due, the earliest first, or in rest; none in rest is before one in due.
  ghost predicate Parted(due: seq<Event>, rest: set<Event>, all: set<Event>)
    reads due`time, all`time
  {
    && InOrder(due)
    && rest <= all
    && (forall x :: x in due ==> x in all)
    && (forall x :: x in all ==> (x in rest <==> x !in due))
    && (forall x, y :: x in due && y in rest ==> x.time <= y.time)
  }

  lemma Unparted(all: set<Event>)
    ensures Parted([], all, all)
  {
  }

  lemma PartedOne(due: seq<Event>, rest: set<Event>, all: set<Event>, e: Event)
    requires Parted(due, rest, all) && e in rest && forall x :: x in rest ==> e.time <= x.time
    ensures Parted(due + [e], rest - {e}, all)
  {
    var due' := due + [e];
    forall i, j | 0 <= i < j < |due'|
      ensures due'[i].time <= due'[j].time && due'[i] != due'[j]
    {
      assert due'[i] in due;
    }
  }

  class Heap {
    var p: array<Event?>
    var n: nat
    ghost var events: set<Event>

    // The events of rest are those in the array, each where its index says; place h is left out.
    ghost predicate Placed(h: nat, rest: set<Event>)
      reads this`p, this`n, p, rest
    {
      && n <= p.Length <= UINT_MAX
      && (forall e :: e in rest ==> 0 <= e.idx < n && e.idx != h && p[e.idx] == e)
      && (forall i {:trigger p[i]} :: 0 <= i < n && i != h ==> p[i] in rest && p[i].idx == i)
    }

    // No event is later than its children, nor, at the gap h, than the children of the gap.
    ghost predicate Ordered(h: nat, rest: set<Event>)
      requires Placed(h, rest)
      reads this`p, this`n, p, rest
    {
      && (forall i: nat, j: nat {:trigger IsChild(i, j)} ::
            IsChild(i, j) && j < n && i != h && j != h ==> p[i].time <= p[j].time)
      && (forall i: nat, j: nat {:trigger IsChild(i, h), IsChild(h, j)} ::
            IsChild(i, h) && IsChild(h, j) && j < n ==> p[i].time <= p[j].time)
    }

    ghost predicate Valid()
      reads this`p, this`n, this`events, p, events
    {
      && Placed(n, events)
      && Ordered(n, events)
    }

    // The children of place h are not before e.
    ghost predicate Above(e: Event, h: nat, rest: set<Event>)
      requires Placed(h, rest)
      reads this`p, this`n, p, rest, e
    {
      forall j: nat {:trigger IsChild(h, j)} :: IsChild(h, j) && j < n ==> e.time <= p[j].time
    }

    // The parent of place h is not after e.
    ghost predicate Beneath(e: Event, h: nat, rest: set<Event>)
      requires h < n && Placed(h, rest)
      reads this`p, this`n, p, rest, e
    {
      h > 0 ==> p[Parent(h)].time <= e.time
    }

    // min_heap_ctor_
    constructor ()
      ensures Valid() && events == {} && n == 0 && fresh(p)
    {
      p, n, events := new Event?[0], 0, {};
    }

    // The event in place i is not before the one on top.
    lemma {:induction false} TopLeast(i: nat)
      requires Valid() && i < n
      ensures p[0].time <= p[i].time
    {
      if i > 0 {
        TopLeast(Parent(i));
      }
    }

    // What event_base_assert_ok_nolock_ checks of the heap.
    lemma AssertOk(i: nat)
      requires Valid() && 0 < i < n
      ensures p[(i - 1) / 2].time <= p[i].time && p[i].idx == i
    {
      assert IsChild(Parent(i), i);
    }

    // min_heap_top_
    method Top() returns (e: Event?)
      requires Valid()
      ensures e == null <==> events == {}
      ensures e != null ==> e in events && IsTop(e) && forall x :: x in events ==> e.time <= x.time
      ensures e != null ==> n > 0 && e == p[0]
    {
      if n == 0 {
        assert events == {};
        return null;
      }
      e := p[0];
      forall x | x in events
        ensures e.time <= x.time
      {
        TopLeast(x.idx);
      }
    }

    // The event in place k moves to the gap h, so that place k is the gap.
    method Move(h: nat, k: nat, ghost rest: set<Event>)
      requires h < n && k < n && k != h && Placed(h, rest)
      modifies p, rest`idx
      ensures Placed(k, rest) && p[h] == old(p[k])
      ensures forall i :: 0 <= i < n && i != h && i != k ==> p[i] == old(p[i])
      ensures forall i :: n <= i < p.Length ==> p[i] == old(p[i])
    {
      p[h] := p[k];
      p[h].idx := h;
    }

    // The gap h moves to its parent, which is after e.
    method Up(h: nat, e: Event, ghost rest: set<Event>)
      requires 0 < h < n && Placed(h, rest) && Ordered(h, rest) && e !in rest && e.time < p[Parent(h)].time
      modifies p, rest`idx
      ensures Placed(Parent(h), rest) && Ordered(Parent(h), rest) && Above(e, Parent(h), rest)
    {
      Move(h, Parent(h), rest);
    }

    // The gap h moves to the first of its children, k, which is before e.
    method Down(h: nat, k: nat, e: Event, ghost rest: set<Event>)
      requires h < n && k < n && IsChild(h, k) && Placed(h, rest) && Ordered(h, rest) && e !in rest
      requires p[k].time < e.time
      requires forall j: nat {:trigger IsChild(h, j)} :: IsChild(h, j) && j < n ==> p[k].time <= p[j].time
      modifies p, rest`idx
      ensures Placed(k, rest) && Ordered(k, rest) && p[h].time < e.time
    {
      Move(h, k, rest);
    }

    // Put e in the gap.
    method Put(h: nat, e: Event, ghost rest: set<Event>)
      requires h < n && Placed(h, rest) && e !in rest
      modifies p, e`idx
      ensures Placed(n, rest + {e}) && p[h] == e
      ensures forall i :: 0 <= i < n && i != h ==> p[i] == old(p[i])
    {
      p[h] := e;
      e.idx := h;
    }

    // Put e in the gap, where it belongs.
    method Fill(h: nat, e: Event, ghost rest: set<Event>)
      requires h < n && Placed(h, rest) && Ordered(h, rest) && e !in rest && Above(e, h, rest) && Beneath(e, h, rest)
      modifies p, e`idx
      ensures Placed(n, rest + {e}) && Ordered(n, rest + {e})
    {
      Put(h, e, rest);
    }

    // min_heap_shift_up_: place hole is a gap at the end of the heap.
    method ShiftUp(hole: nat, e: Event, ghost rest: set<Event>)
      requires hole < n && Placed(hole, rest) && Ordered(hole, rest) && e !in rest && Above(e, hole, rest)
      modifies p, (rest + {e})`idx
      ensures Placed(n, rest + {e}) && Ordered(n, rest + {e})
    {
      var h: nat := hole;
      while h > 0 && p[Parent(h)].time > e.time
        invariant h < n && Placed(h, rest) && Ordered(h, rest) && Above(e, h, rest)
      {
        Up(h, e, rest);
        h := Parent(h);
      }
      Fill(h, e, rest);
    }

    // min_heap_shift_up_unconditional_: the first step is made without looking.
    method ShiftUpUnconditional(hole: nat, e: Event, ghost rest: set<Event>)
      requires 0 < hole < n && Placed(hole, rest) && Ordered(hole, rest) && e !in rest && e.time < p[Parent(hole)].time
      modifies p, (rest + {e})`idx
      ensures Placed(n, rest + {e}) && Ordered(n, rest + {e})
    {
      Up(hole, e, rest);
      var h: nat := Parent(hole);
      while h > 0 && p[Parent(h)].time > e.time
        invariant h < n && Placed(h, rest) && Ordered(h, rest) && Above(e, h, rest)
      {
        Up(h, e, rest);
        h := Parent(h);
      }
      Fill(h, e, rest);
    }

    // The first of the children of place h, which has one.
    method First(h: nat, ghost rest: set<Event>) returns (minChild: nat)
      requires 2 * h + 1 < n && Placed(h, rest)
      ensures IsChild(h, minChild) && minChild < n
      ensures forall j: nat {:trigger IsChild(h, j)} :: IsChild(h, j) && j < n ==> p[minChild].time <= p[j].time
    {
      minChild := 2 * (h + 1);
      if minChild == n || p[minChild].time > p[minChild - 1].time {
        minChild := minChild - 1;
      }
    }

    // One round of min_heap_shift_down_: the gap moves down to place k, or e belongs where the gap is.
    method Descend(h: nat, e: Event, ghost rest: set<Event>) returns (k: nat)
      requires 2 * h + 1 < n && Placed(h, rest) && Ordered(h, rest) && e !in rest && Beneath(e, h, rest)
      modifies p, rest`idx
      ensures h <= k < n && Placed(k, rest) && Ordered(k, rest) && Beneath(e, k, rest)
      ensures k == h ==> Above(e, k, rest)
    {
      k := First(h, rest);
      if e.time <= p[k].time {
        k := h;
      } else {
        Down(h, k, e, rest);
      }
    }

    // The loop of min_heap_shift_down_.
    method Sink(hole: nat, e: Event, ghost rest: set<Event>)
      requires hole < n < CHILD_MAX && Placed(hole, rest) && Ordered(hole, rest) && e !in rest && Beneath(e, hole, rest)
      modifies p, (rest + {e})`idx
      ensures Placed(n, rest + {e}) && Ordered(n, rest + {e})
    {
      hide Heap.Ordered, Heap.Placed, Heap.Beneath;
      var h: nat := hole;
      while 2 * (h + 1) <= n
        invariant h < n && Placed(h, rest) && Ordered(h, rest) && Beneath(e, h, rest)
        decreases n - h
      {
        var k := Descend(h, e, rest);
        if k == h {
          break;
        }
        h := k;
      }
      Fill(h, e, rest);
    }

    // min_heap_shift_down_: a gap behind the last place takes e out of the heap.
    method ShiftDown(hole: nat, e: Event, ghost rest: set<Event>)
      requires hole <= n < CHILD_MAX && hole < p.Length && Placed(hole, rest) && Ordered(hole, rest) && e !in rest
      requires hole < n ==> Beneath(e, hole, rest)
      modifies p, (rest + {e})`idx
      ensures hole < n ==> Placed(n, rest + {e}) && Ordered(n, rest + {e})
      ensures hole == n ==> Placed(n, rest) && Ordered(n, rest)
    {
      if hole < n {
        Sink(hole, e, rest);
      } else {
        p[hole] := e;
        e.idx := hole;
      }
    }

    // An event that leaves the heap leaves a gap.
    lemma Gap(i: nat)
      requires Valid() && i < n
      ensures Placed(i, events - {p[i]}) && Ordered(i, events - {p[i]})
    {
    }

    // The last place is given up, and its event is to be put in the gap that another one leaves.
    method TakeLast(hole: nat) returns (last: Event)
      requires Valid() && hole < n
      modifies this`n
      ensures n == old(n) - 1 < p.Length && last == p[n] && last in events && p[hole] in events
      ensures Placed(hole, events - {p[hole], last}) && Ordered(hole, events - {p[hole], last})
      ensures hole < n ==> p[hole] != last
      ensures hole == n > 0 ==> p[Parent(hole)].time <= last.time
    {
      last := p[n - 1];
      n := n - 1;
    }

    // min_heap_reserve_: room says whether there is memory for a larger array.
    method Reserve(size: nat, room: bool) returns (result: int)
      requires Valid() && size <= UINT_MAX
      modifies this`p
      ensures Valid() && (p == old(p) || fresh(p))
      ensures result == (if size <= old(p.Length) || room then 0 else -1)
      ensures result == 0 ==> size <= p.Length
    {
      if p.Length < size {
        var a := if p.Length > 0 then p.Length * 2 % (UINT_MAX + 1) else 8;
        if a < size {
          a := size;
        }
        if !room {
          return -1;
        }
        var q := new Event?[a];
        forall i | 0 <= i < n {
          q[i] := p[i];
        }
        p := q;
      }
      return 0;
    }

    // e gets the next place, and is shifted up from there.
    method Append(e: Event)
      requires Valid() && e !in events && n < p.Length
      modifies this`n, this`events, p, (events + {e})`idx
      ensures Valid() && events == old(events) + {e} && n == old(n) + 1
    {
      n := n + 1;
      ShiftUp(n - 1, e, events);
      events := events + {e};
    }

    // min_heap_push_
    method Push(e: Event, room: bool) returns (result: int)
      requires Valid() && e !in events
      modifies this, p, (events + {e})`idx
      ensures Valid() && (p == old(p) || fresh(p))
      ensures result == (if old(n) < UINT_MAX && (old(n) < old(p.Length) || room) then 0 else -1)
      ensures events == old(events) + (if result == 0 then {e} else {})
      ensures result == -1 ==> e.idx == old(e.idx)
    {
      hide Heap.Ordered;
      if n == UINT_MAX {
        return -1;
      }
      result := Reserve(n + 1, room);
      if result == 0 {
        Append(e);
      }
    }

    // The event leaves place hole, and the last one is shifted down from there.
    method Replace(hole: nat, ghost e: Event, last: Event)
      requires hole <= n < CHILD_MAX && hole < p.Length && e in events && last in events && (hole == n <==> e == last)
      requires Placed(hole, events - {e, last}) && Ordered(hole, events - {e, last})
      requires hole < n ==> Beneath(last, hole, events - {e, last})
      modifies p, events`idx
      ensures Placed(n, events - {e}) && Ordered(n, events - {e})
    {
      hide Heap.Ordered, Heap.Placed;
      ghost var rest := events - {e, last};
      ShiftDown(hole, last, rest);
      assert events - {e} == if e == last then rest else rest + {last};
    }

    // min_heap_pop_
    method Pop() returns (e: Event?)
      requires Valid() && n <= CHILD_MAX
      modifies this`n, this`events, p, events`idx
      ensures Valid() && (e == null <==> old(events) == {})
      ensures e == null ==> events == old(events)
      ensures e != null ==> e in old(events) && events == old(events) - {e} && e.idx == -1
      ensures e != null ==> forall x :: x in events ==> e.time <= x.time
    {
      hide Heap.Ordered, Heap.Placed;
      e := Top();
      if e != null {
        var last := TakeLast(0);
        Replace(0, e, last);
        events := events - {e};
        e.idx := -1;
      }
    }

    // min_heap_erase_
    method Erase(e: Event) returns (result: int)
      requires Valid() && n <= CHILD_MAX && (e in events <==> e.idx != -1)
      modifies this`n, this`events, p, (events + {e})`idx
      ensures Valid() && events == old(events) - {e} && e.idx == -1
      ensures result == if e in old(events) then 0 else -1
      ensures n == if result == 0 then old(n) - 1 else old(n)
    {
      hide Heap.Ordered;
      if e.idx == -1 {
        return -1;
      }
      var hole := e.idx;
      var last := TakeLast(hole);
      if hole > 0 && p[Parent(hole)].time > last.time {
        ghost var rest := events - {e, last};
        ShiftUpUnconditional(hole, last, rest);
        assert events - {e} == rest + {last};
      } else {
        Replace(hole, e, last);
      }
      events := events - {e};
      e.idx := -1;
      return 0;
    }

    // min_heap_adjust_ for an event of the heap, whose time may be another one than before.
    method Resettle(e: Event)
      requires n < CHILD_MAX && e in events && Placed(n, events)
      requires Placed(e.idx, events - {e}) && Ordered(e.idx, events - {e})
      modifies p, events`idx
      ensures Valid()
    {
      hide Heap.Ordered;
      ghost var rest := events - {e};
      var hole := e.idx;
      if hole > 0 && p[Parent(hole)].time > e.time {
        ShiftUpUnconditional(hole, e, rest);
      } else {
        ShiftDown(hole, e, rest);
      }
      assert events == rest + {e};
    }

    // min_heap_adjust_, for an event that has just got its time.
    method Adjust(e: Event, time: int, room: bool) returns (result: int)
      requires Valid() && n < CHILD_MAX && (e in events <==> e.idx != -1)
      modifies this, p, (events + {e})`idx, e`time
      ensures Valid() && (p == old(p) || fresh(p)) && e.time == time
      ensures result == (if e in old(events) || old(n) < old(p.Length) || room then 0 else -1)
      ensures events == old(events) + (if result == 0 then {e} else {})
    {
      hide Heap.Ordered;
      if e.idx == -1 {
        e.time := time;
        result := Push(e, room);
      } else {
        Gap(e.idx);
        e.time := time;
        Resettle(e);
        assert old(events) + {e} == events;
        return 0;
      }
    }

    // The loop of timeout_process over the top of the heap: the events that are due leave the heap, the
    // earliest first.
    method TakeDue(now: int) returns (due: seq<Event>)
      requires Valid() && n <= CHILD_MAX
      modifies this`n, this`events, p, events`idx
      ensures Valid()
      ensures Parted(due, events, old(events))
      ensures forall e :: e in due ==> e.time <= now
      ensures forall e :: e in events ==> now < e.time
    {
      hide Heap.Ordered, Heap.Placed, Parted;
      due := [];
      var e := Top();
      Unparted(events);
      while e != null && e.time <= now
        invariant Valid() && n <= CHILD_MAX && Parted(due, events, old(events))
        invariant e == null <==> events == {}
        invariant e != null ==> e in events && IsTop(e) && forall x :: x in events ==> e.time <= x.time
        invariant forall x :: x in due ==> x.time <= now
        decreases events
      {
        PartedOne(due, events, old(events), e);
        due := due + [e];
        var _ := Erase(e);
        e := Top();
      }
    }
  }
}
