// The index of requests in flight: hashed circular lists, looked up by transaction id
// (evdns_request_insert, evdns_request_remove, request_find_from_trans_id,
// evdns_base_set_max_requests_inflight).
module Inflight {
  // struct request, as far as its list is concerned.
  class Request {
    const transId: nat
    var next: Request?
    var prev: Request?

    constructor (transId: nat)
      ensures this.transId == transId && next == null && prev == null
    {
      this.transId, next, prev := transId, null, null;
    }
  }

  ghost predicate NoDup(l: seq<Request>) {
    forall i, j :: 0 <= i < j < |l| ==> l[i] != l[j]
  }

  // The place behind, and before, place i of a circular list of n.
  function Behind(i: nat, n: nat): (j: nat)
    requires i < n
    ensures j < n
  {
    if i + 1 < n then i + 1 else 0
  }

  function Before(i: nat, n: nat): (j: nat)
    requires i < n
    ensures j < n
  {
    if i > 0 then i - 1 else n - 1
  }

  // `head` is the first of the requests l, which are linked in a circle.
  ghost predicate Ring(l: seq<Request>, head: Request?)
    reads l
  {
    && head == (if l == [] then null else l[0]) && NoDup(l)
    && (forall i {:trigger l[i].next} :: 0 <= i < |l| ==> l[i].next == l[Behind(i, |l|)])
    && (forall i {:trigger l[i].prev} :: 0 <= i < |l| ==> l[i].prev == l[Before(i, |l|)])
  }

  // evdns_request_insert: insert at the tail.
  method RingInsert(req: Request, head: Request?, ghost l: seq<Request>) returns (h: Request)
    requires Ring(l, head) && req !in l
    modifies req, l
    ensures Ring(l + [req], h)
  {
    if head == null {
      req.next, req.prev := req, req;
      return req;
    }
    req.prev := head.prev;
    req.prev.next := req;
    req.next := head;
    head.prev := req;
    return head;
  }

  // The requests without the one at place k.
  ghost function Drop(l: seq<Request>, k: nat): (r: seq<Request>)
    requires k < |l|
    ensures |r| == |l| - 1 && forall i :: 0 <= i < |r| ==> r[i] == l[if i < k then i else i + 1]
  {
    l[..k] + l[k + 1..]
  }

  // Once the neighbours of request k are linked to each other, the others are in a circle.
  lemma Unlinked(l: seq<Request>, k: nat)
    requires NoDup(l) && k < |l| && |l| > 1
    requires forall i {:trigger l[i].next} :: 0 <= i < |l| && i != k ==> l[i].next == l[if i == Before(k, |l|) then Behind(k, |l|) else Behind(i, |l|)]
    requires forall i {:trigger l[i].prev} :: 0 <= i < |l| && i != k ==> l[i].prev == l[if i == Behind(k, |l|) then Before(k, |l|) else Before(i, |l|)]
    ensures Ring(Drop(l, k), if k == 0 then l[1] else l[0])
  {
    hide Drop;
    var r := Drop(l, k);
    forall i | 0 <= i < |r| ensures r[i].next == r[Behind(i, |r|)] && r[i].prev == r[Before(i, |r|)] {
      var j := if i < k then i else i + 1;
      assert r[i] == l[j] && j != k;
    }
  }

  lemma OneOf(l: seq<Request>, k: nat)
    requires NoDup(l) && k < |l|
    ensures forall i :: 0 <= i < |l| && i != k ==> l[i] != l[k]
  {
  }

  // req->next->prev = req->prev; req->prev->next = req->next.
  method Unlink(req: Request, head: Request?, ghost l: seq<Request>, ghost k: nat) returns (h: Request?)
    requires Ring(l, head) && k < |l| && l[k] == req && |l| > 1
    modifies l
    ensures Ring(Drop(l, k), h) && forall i :: 0 <= i < |l| - 1 ==> Drop(l, k)[i] != req
  {
    hide Drop, NoDup, Behind, Before;
    ghost var n, a, b := |l|, Before(k, |l|), Behind(k, |l|);
    Neighbours(n, k);
    OneOf(l, k);
    OneOf(l, a);
    OneOf(l, b);
    assert req.next == l[b] && req.prev == l[a];
    h := if head == req then req.next else head;
    req.next.prev := req.prev;
    req.prev.next := req.next;
    Unlinked(l, k);
  }

  lemma Neighbours(n: nat, k: nat)
    requires k < n && n > 1
    ensures Behind(k, n) != k && Before(k, n) != k
    ensures k == 0 ==> Behind(k, n) == 1
    ensures forall i :: 0 <= i < n ==> (Behind(i, n) == k <==> i == Before(k, n)) && (Before(i, n) == k <==> i == Behind(k, n))
  {
  }

  // evdns_request_remove; k is the place of the request.
  method RingRemove(req: Request, head: Request?, ghost l: seq<Request>, ghost k: nat) returns (h: Request?)
    requires Ring(l, head) && k < |l| && l[k] == req
    modifies l
    ensures Ring(Drop(l, k), h) && req.next == null && req.prev == null
  {
    hide Drop;
    if req.next == req {
      assert |l| == 1 by { Alone(l, k); }
      h := null;
    } else {
      h := Unlink(req, head, l, k);
    }
    req.next, req.prev := null, null;
  }

  lemma Alone(l: seq<Request>, k: nat)
    requires NoDup(l) && k < |l| && l[Behind(k, |l|)] == l[k]
    ensures |l| == 1
  {
  }

  // The bucket of a transaction id: REQ_HEAD.
  function Bucket(transId: nat, n: nat): (b: nat)
    requires n > 0
    ensures b < n
  {
    transId % n
  }

  // All the requests of the lists.
  ghost function Members(lists: seq<seq<Request>>): set<Request> {
    set i, r | 0 <= i < |lists| && r in lists[i] :: r
  }

  // Each request is in the list of its bucket.
  ghost predicate Bucketed(lists: seq<seq<Request>>) {
    |lists| > 0 && forall i, r :: 0 <= i < |lists| && r in lists[i] ==> Bucket(r.transId, |lists|) == i
  }

  // The lists are circular.
  ghost predicate Rings(heads: seq<Request?>, lists: seq<seq<Request>>)
    reads Members(lists)
  {
    && |heads| == |lists|
    && forall i {:trigger lists[i]} :: 0 <= i < |lists| ==> (forall r :: r in lists[i] ==> r in Members(lists)) && Ring(lists[i], heads[i])
  }

  ghost predicate Indexed(heads: seq<Request?>, lists: seq<seq<Request>>)
    reads Members(lists)
  {
    Bucketed(lists) && Rings(heads, lists)
  }

  lemma MembersPush(lists: seq<seq<Request>>, b: nat, req: Request)
    requires b < |lists|
    ensures Members(lists[b := lists[b] + [req]]) == Members(lists) + {req}
  {
    var next := lists[b := lists[b] + [req]];
    forall r | r in Members(lists) + {req} ensures r in Members(next) {
      if r == req {
        assert r in next[b];
      } else {
        var j :| 0 <= j < |lists| && r in lists[j];
        assert r in next[j];
      }
    }
    forall r | r in Members(next) ensures r in Members(lists) + {req} {
      var j :| 0 <= j < |next| && r in next[j];
      assert r != req ==> r in lists[j];
    }
  }

  lemma MembersDrop(lists: seq<seq<Request>>, b: nat, k: nat)
    requires Bucketed(lists) && b < |lists| && k < |lists[b]| && NoDup(lists[b])
    ensures Members(lists[b := Drop(lists[b], k)]) == Members(lists) - {lists[b][k]}
  {
    hide Drop, Bucket;
    var l, req := lists[b], lists[b][k];
    var d := Drop(l, k);
    var next := lists[b := d];
    forall r | r in Members(lists) - {req} ensures r in Members(next) {
      var j :| 0 <= j < |lists| && r in lists[j];
      if j == b {
        var i :| 0 <= i < |l| && l[i] == r;
        assert d[if i < k then i else i - 1] == r;
        assert r in next[b];
      } else {
        assert r in next[j];
      }
    }
    forall r | r in Members(next) ensures r in Members(lists) - {req} {
      var j :| 0 <= j < |next| && r in next[j];
      if j == b {
        var i :| 0 <= i < |d| && d[i] == r;
        assert r == l[if i < k then i else i + 1] && r in lists[b];
      } else {
        assert r in lists[j] && Bucket(r.transId, |lists|) == j;
        assert req in lists[b] && Bucket(req.transId, |lists|) == b;
      }
    }
  }

  // A request in one bucket's list is in no other's.
  lemma OtherBuckets(lists: seq<seq<Request>>, b: nat)
    requires Bucketed(lists) && b < |lists|
    ensures forall i, x {:trigger lists[i][x]} :: 0 <= i < |lists| && i != b && 0 <= x < |lists[i]| ==>
              lists[i][x] !in lists[b] && lists[i][x] in Members(lists)
  {
    hide Bucket;
    forall i, x | 0 <= i < |lists| && i != b && 0 <= x < |lists[i]|
      ensures lists[i][x] !in lists[b] && lists[i][x] in Members(lists)
    {
      var r := lists[i][x];
      assert r in lists[i] && Bucket(r.transId, |lists|) == i;
    }
  }

  // evdns_request_insert(req, &REQ_HEAD(base, req->trans_id))
  method Insert(heads: seq<Request?>, req: Request, ghost lists: seq<seq<Request>>)
    returns (heads': seq<Request?>, ghost lists': seq<seq<Request>>)
    requires Indexed(heads, lists) && req !in Members(lists)
    modifies req, Members(lists)
    ensures Indexed(heads', lists') && Members(lists') == Members(lists) + {req} && |lists'| == |lists|
  {
    hide Ring, Bucket;
    var b := Bucket(req.transId, |heads|);
    ghost var l := lists[b];
    assert req !in l;
    OtherBuckets(lists, b);
    var h := RingInsert(req, heads[b], l);
    heads' := heads[b := h];
    lists' := lists[b := l + [req]];
    MembersPush(lists, b, req);
    forall i | 0 <= i < |lists| ensures Ring(lists'[i], heads'[i]) && forall r :: r in lists'[i] ==> r in Members(lists') {
      if i != b {
        assert lists'[i] == lists[i];
        assert forall x :: 0 <= x < |lists[i]| ==> unchanged(lists[i][x]);
      }
    }
  }

  // evdns_request_remove(req, &heads[b])
  method RemoveAt(heads: seq<Request?>, b: nat, req: Request, ghost lists: seq<seq<Request>>)
    returns (heads': seq<Request?>, ghost lists': seq<seq<Request>>)
    requires Indexed(heads, lists) && b < |lists| && req in lists[b]
    modifies Members(lists)
    ensures Indexed(heads', lists') && Members(lists') == Members(lists) - {req} && |lists'| == |lists|
    ensures forall i :: 0 <= i < |lists| && i != b ==> lists'[i] == lists[i]
    ensures req.next == null && req.prev == null
  {
    hide Bucket, Drop;
    ghost var l := lists[b];
    ghost var k :| 0 <= k < |l| && l[k] == req;
    OtherBuckets(lists, b);
    var h := RingRemove(req, heads[b], l, k);
    heads' := heads[b := h];
    lists' := lists[b := Drop(l, k)];
    MembersDrop(lists, b, k);
    forall i | 0 <= i < |lists| ensures Ring(lists'[i], heads'[i]) && forall r :: r in lists'[i] ==> r in Members(lists') {
      if i != b {
        assert lists'[i] == lists[i];
        assert forall x :: 0 <= x < |lists[i]| ==> unchanged(lists[i][x]);
      }
    }
  }

  lemma InItsBucket(lists: seq<seq<Request>>, r: Request)
    requires Bucketed(lists) && r in Members(lists)
    ensures r in lists[Bucket(r.transId, |lists|)]
  {
    hide Bucket;
    var j :| 0 <= j < |lists| && r in lists[j];
    assert Bucket(r.transId, |lists|) == j;
  }

  // request_find_from_trans_id
  method Find(heads: seq<Request?>, transId: nat, ghost lists: seq<seq<Request>>) returns (found: Request?)
    requires Indexed(heads, lists)
    ensures found != null ==> found in Members(lists) && found.transId == transId
    ensures found == null ==> forall r :: r in Members(lists) ==> r.transId != transId
  {
    hide Bucket;
    var started := heads[Bucket(transId, |heads|)];
    ghost var l := lists[Bucket(transId, |lists|)];
    assert Ring(l, started) && forall r :: r in l ==> r in Members(lists);
    ghost var i: nat := 0;
    var req := started;
    if req != null {
      while true
        invariant i < |l| && req == l[i] && forall j :: 0 <= j < i ==> l[j].transId != transId
        decreases |l| - i
      {
        assert l[i] in l;
        if req.transId == transId {
          return req;
        }
        req := req.next;
        if req == started {
          break;
        }
        i := i + 1;
      }
    }
    forall r | r in Members(lists) ensures r.transId != transId {
      InItsBucket(lists, r);
      assert r in l ==> r.transId != transId;
    }
    return null;
  }

  // The lists as mm_calloc leaves them.
  lemma NoneYet(n: nat)
    requires n > 0
    ensures var lists := seq(n, _ => []); Members(lists) == {} && Indexed(seq(n, _ => null), lists)
  {
    AllEmpty(seq(n, _ => []));
  }

  // Everything is in one of the two indexes.
  ghost predicate Moving(all: set<Request>, rest: seq<Request?>, left: seq<seq<Request>>, heads: seq<Request?>, lists: seq<seq<Request>>)
    reads Members(left), Members(lists)
  {
    Indexed(rest, left) && Indexed(heads, lists) && Members(left) !! Members(lists) && Members(left) + Members(lists) == all
  }

  // One request, the first of old list i, is moved.
  method Move(i: nat, rest: seq<Request?>, heads: seq<Request?>, ghost all: set<Request>, ghost left: seq<seq<Request>>, ghost lists: seq<seq<Request>>)
    returns (rest': seq<Request?>, heads': seq<Request?>, ghost left': seq<seq<Request>>, ghost lists': seq<seq<Request>>)
    requires Moving(all, rest, left, heads, lists) && i < |left| && |rest| == |left| && rest[i] != null
    modifies all
    ensures Moving(all, rest', left', heads', lists')
    ensures |rest'| == |rest| == |left'| && |heads'| == |heads| && |Members(left')| < |Members(left)|
    ensures forall j :: 0 <= j < |left| && j != i ==> left'[j] == left[j]
  {
    hide Indexed, Bucketed, Rings, Members, Ring, Bucket;
    var req := rest[i];
    Sizes(heads, lists);
    First(rest, left, i);
    rest', left' := RemoveAt(rest, i, req, left);
    Fewer(Members(left'), Members(left));
    heads', lists' := Insert(heads, req, lists);
    Sizes(rest', left');
    Sizes(heads', lists');
  }

  // evdns_base_set_max_requests_inflight: the requests are moved one by one to a new index.
  method Resize(heads: seq<Request?>, maxInflight: int, ghost lists: seq<seq<Request>>)
    returns (heads': seq<Request?>, max: nat, ghost lists': seq<seq<Request>>)
    requires if heads == [] then lists == [] else Indexed(heads, lists)
    modifies Members(lists)
    ensures Indexed(heads', lists') && Members(lists') == Members(lists)
    ensures max == (if maxInflight < 1 then 1 else maxInflight) && |heads'| == (max + 4) / 5
  {
    hide Indexed, Bucketed, Rings, Members, Ring, Bucket;
    max := if maxInflight < 1 then 1 else maxInflight;
    var n := (max + 4) / 5;
    NoneYet(n);
    heads' := seq(n, _ => null);
    lists' := seq(n, _ => []);
    if heads != [] {
      Sizes(heads, lists);
      var rest := heads;
      ghost var left, all := lists, Members(lists);
      for i := 0 to |heads|
        invariant |rest| == |heads| == |left| && |heads'| == n && Moving(all, rest, left, heads', lists')
        invariant forall j :: 0 <= j < i ==> left[j] == []
      {
        while rest[i] != null
          invariant |rest| == |heads| == |left| && |heads'| == n && Moving(all, rest, left, heads', lists')
          invariant forall j :: 0 <= j < i ==> left[j] == []
          decreases |Members(left)|
        {
          rest, heads', left, lists' := Move(i, rest, heads', all, left, lists');
        }
        First(rest, left, i);
      }
      AllEmpty(left);
    } else {
      AllEmpty(lists);
    }
  }

  lemma Sizes(heads: seq<Request?>, lists: seq<seq<Request>>)
    requires Indexed(heads, lists)
    ensures |heads| == |lists| > 0
  {
  }

  lemma First(heads: seq<Request?>, lists: seq<seq<Request>>, i: nat)
    requires Indexed(heads, lists) && i < |lists|
    ensures |heads| == |lists| && (heads[i] == null <==> lists[i] == [])
    ensures heads[i] != null ==> heads[i] in lists[i] && heads[i] in Members(lists)
  {
    assert Ring(lists[i], heads[i]);
    if heads[i] != null {
      assert lists[i][0] in lists[i];
    }
  }

  lemma Fewer(a: set<Request>, b: set<Request>)
    requires a < b
    ensures |a| < |b|
  {
    var x :| x in b && x !in a;
    assert b == a + (b - a);
    assert |b - a| > 0 by { assert x in b - a; }
    assert |b| == |a| + |b - a| by { assert a !! (b - a); }
  }

  lemma AllEmpty(lists: seq<seq<Request>>)
    requires forall j :: 0 <= j < |lists| ==> lists[j] == []
    ensures Members(lists) == {}
  {
    assert forall j, r :: 0 <= j < |lists| ==> r !in lists[j];
  }

  // What happens to a base's index.
  datatype Cmd =
    | Submit(transId: nat)   // a request becomes in flight
    | Answer(transId: nat)   // a reply: the request found is finished
    | Finish(k: nat)         // the request submitted as number k is finished: it has timed out, or is cancelled
    | SetMax(max: int)

  // A request in flight is linked.
  lemma LinkedIn(heads: seq<Request?>, lists: seq<seq<Request>>, r: Request)
    requires Indexed(heads, lists) && r in Members(lists)
    ensures r.next != null
  {
    hide Bucketed;
    var j :| 0 <= j < |lists| && r in lists[j];
    var i :| 0 <= i < |lists[j]| && lists[j][i] == r;
    assert Ring(lists[j], heads[j]) && lists[j][i].next == lists[j][Behind(i, |lists[j]|)];
  }

  // struct evdns_base, as far as its index is concerned.
  class Base {
    var heads: seq<Request?>
    var maxInflight: nat
    ghost var lists: seq<seq<Request>>

    ghost predicate Valid()
      reads this, Members(lists)
    {
      Indexed(heads, lists) && |heads| == (maxInflight + 4) / 5
    }

    ghost function InFlight(): set<Request>
      reads this
    {
      Members(lists)
    }

    // Of the requests, exactly those in flight are linked.
    ghost predicate Links(made: seq<Request>)
      reads this, made
    {
      forall r :: r in made ==> (r.next != null <==> r in InFlight())
    }

    // evdns_base_new sets the option max-inflight.
    constructor (max: int)
      ensures Valid() && InFlight() == {} && maxInflight == if max < 1 then 1 else max
    {
      heads, lists := [], [];
      new;
      heads, maxInflight, lists := Resize(heads, max, lists);
    }

    // request_finished, as far as the index is concerned.
    method Remove(req: Request)
      requires Valid() && req in InFlight()
      modifies this`heads, this`lists, InFlight()
      ensures Valid() && InFlight() == old(InFlight()) - {req} && req.next == null
    {
      hide Bucket, Ring;
      Sizes(heads, lists);
      var b := Bucket(req.transId, |heads|);
      InItsBucket(lists, req);
      heads, lists := RemoveAt(heads, b, req, lists);
    }

    // `made` are the requests submitted so far; found is the one that joins or leaves.
    method Perform(c: Cmd, made: seq<Request>) returns (found: Request?)
      requires Valid() && Links(made)
      modifies this, InFlight()
      ensures Valid() && fresh(InFlight() - old(InFlight()))
      ensures c.Submit? ==> found != null && fresh(found) && found.transId == c.transId && InFlight() == old(InFlight()) + {found}
      ensures c.Answer? ==> (found != null <==> exists r :: r in old(InFlight()) && r.transId == c.transId)
      ensures c.Answer? && found != null ==> found in old(InFlight()) && found.transId == c.transId
      ensures c.Finish? ==> found == if c.k < |made| && made[c.k] in old(InFlight()) then made[c.k] else null
      ensures c.Answer? || c.Finish? ==> InFlight() == old(InFlight()) - (if found != null then {found} else {})
      ensures c.SetMax? ==> found == null && InFlight() == old(InFlight()) && maxInflight == (if c.max < 1 then 1 else c.max)
      ensures !c.SetMax? ==> maxInflight == old(maxInflight)
      ensures found != null && !c.Submit? ==> found.next == null
    {
      hide Bucket, Ring;
      found := null;
      match c {
        case Submit(id) =>
          Sizes(heads, lists);
          found := new Request(id);
          heads, lists := Insert(heads, found, lists);
        case Answer(id) =>
          found := Find(heads, id, lists);
          if found != null {
            Remove(found);
          }
        case Finish(k) =>
          if k < |made| && made[k].next != null {
            found := made[k];
            Remove(found);
          }
        case SetMax(max) =>
          heads, maxInflight, lists := Resize(heads, max, lists);
      }
    }
  }

  // A base's state, as a value: the requests submitted so far, in order, those of them in flight, and the limit.
  datatype State = State(made: seq<Request>, live: set<Request>, max: nat)

  // What a command does.
  ghost predicate Step(s: State, c: Cmd, t: State) {
    match c
    case Submit(id) =>
      && |t.made| == |s.made| + 1 && t.made[..|s.made|] == s.made && t.max == s.max
      && var r := t.made[|s.made|]; r !in s.made && r !in s.live && r.transId == id && t.live == s.live + {r}
    case Answer(id) =>
      && t.made == s.made && t.max == s.max
      && if exists r :: r in s.live && r.transId == id then exists r {:trigger s.live - {r}} :: r in s.live && r.transId == id && t.live == s.live - {r}
         else t.live == s.live
    case Finish(k) => t == if k < |s.made| then s.(live := s.live - {s.made[k]}) else s
    case SetMax(max) => t == s.(max := if max < 1 then 1 else max)
  }

  ghost predicate History(cmds: seq<Cmd>, trace: seq<State>) {
    |trace| == |cmds| + 1 && forall k :: 0 <= k < |cmds| ==> Step(trace[k], cmds[k], trace[k + 1])
  }

  // How many requests with each id are in flight after the commands.
  ghost function Ideal(cmds: seq<Cmd>, trace: seq<State>): multiset<nat>
    requires |trace| == |cmds| + 1
  {
    if cmds == [] then multiset{}
    else
      var before, c, s := Ideal(cmds[..|cmds| - 1], trace[..|cmds|]), cmds[|cmds| - 1], trace[|cmds| - 1];
      match c
      case Submit(id) => before + multiset{id}
      case Answer(id) => before - multiset{id}
      case Finish(k) => if k < |s.made| && s.made[k] in s.live then before - multiset{s.made[k].transId} else before
      case SetMax(_) => before
  }

  ghost function WithId(requests: set<Request>, transId: nat): set<Request> {
    set r | r in requests && r.transId == transId
  }

  lemma WithIdPlus(requests: set<Request>, r: Request, id: nat)
    requires r !in requests
    ensures |WithId(requests + {r}, id)| == |WithId(requests, id)| + if r.transId == id then 1 else 0
  {
    if r.transId == id {
      assert WithId(requests + {r}, id) == WithId(requests, id) + {r};
    } else {
      assert WithId(requests + {r}, id) == WithId(requests, id);
    }
  }

  // Any run: every command does what it should, and the index holds as many requests of each id as are in flight.
  method Run(cmds: seq<Cmd>, max: int) returns (base: Base, ghost trace: seq<State>)
    ensures base.Valid() && History(cmds, trace) && trace[0] == State([], {}, if max < 1 then 1 else max)
    ensures trace[|cmds|].live == base.InFlight() && trace[|cmds|].max == base.maxInflight
    ensures forall id: nat :: |WithId(base.InFlight(), id)| == Ideal(cmds, trace)[id]
  {
    hide Step, History, Indexed, Members;
    base := new Base(max);
    var made := [];
    trace := [State([], {}, base.maxInflight)];
    HistoryStarts(cmds, trace[0]);
    for i := 0 to |cmds|
      invariant base.Valid() && fresh(base) && fresh(base.InFlight()) && base.Links(made) && (forall r :: r in made ==> fresh(r))
      invariant base.InFlight() <= set r | r in made
      invariant |trace| == i + 1 && History(cmds[..i], trace) && trace[0] == State([], {}, if max < 1 then 1 else max)
      invariant trace[i] == State(made, base.InFlight(), base.maxInflight)
    {
      made := Next(base, cmds[i], made);
      HistoryGoes(cmds, i, trace, State(made, base.InFlight(), base.maxInflight));
      trace := trace + [State(made, base.InFlight(), base.maxInflight)];
    }
    assert cmds[..|cmds|] == cmds;
    Counted(cmds, trace);
  }

  lemma HistoryStarts(cmds: seq<Cmd>, s: State)
    ensures History(cmds[..0], [s])
  {
  }

  lemma HistoryGoes(cmds: seq<Cmd>, i: nat, trace: seq<State>, t: State)
    requires i < |cmds| && History(cmds[..i], trace) && Step(trace[i], cmds[i], t)
    ensures History(cmds[..i + 1], trace + [t])
  {
    hide Step;
  }

  // One command of a run.
  method Next(base: Base, c: Cmd, made: seq<Request>) returns (made': seq<Request>)
    requires base.Valid() && base.Links(made) && base.InFlight() <= set r | r in made
    modifies base, base.InFlight()
    ensures base.Valid() && base.Links(made') && (base.InFlight() <= set r | r in made') && fresh(base.InFlight() - old(base.InFlight()))
    ensures Step(old(State(made, base.InFlight(), base.maxInflight)), c, State(made', base.InFlight(), base.maxInflight))
    ensures forall r :: r in made' ==> r in made || fresh(r)
  {
    var found := base.Perform(c, made);
    made' := if c.Submit? then made + [found] else made;
    forall r | r in made' ensures r.next != null <==> r in base.InFlight() {
      if r in base.InFlight() {
        LinkedIn(base.heads, base.lists, r);
      }
    }
  }

  lemma {:induction false} Counted(cmds: seq<Cmd>, trace: seq<State>)
    requires History(cmds, trace) && trace[0].live == {}
    ensures forall id: nat :: |WithId(trace[|cmds|].live, id)| == Ideal(cmds, trace)[id]
  {
    hide Step, WithId;
    if cmds == [] {
      NoneWithId();
    } else {
      var n := |cmds| - 1;
      Counted(cmds[..n], trace[..|cmds|]);
      assert Step(trace[n], cmds[n], trace[n + 1]);
      forall id: nat ensures |WithId(trace[|cmds|].live, id)| == Ideal(cmds, trace)[id] {
        assert |WithId(trace[..|cmds|][n].live, id)| == Ideal(cmds[..n], trace[..|cmds|])[id];
        CountedStep(trace[n], cmds[n], trace[n + 1], id);
      }
    }
  }

  lemma NoneWithId()
    ensures forall id: nat :: WithId({}, id) == {}
  {
  }

  // What a command does to the number of requests with an id.
  lemma CountedStep(s: State, c: Cmd, t: State, id: nat)
    requires Step(s, c, t)
    ensures var n := |WithId(s.live, id)|;
      |WithId(t.live, id)| == match c
                              case Submit(i) => if i == id then n + 1 else n
                              case Answer(i) => if i == id && n > 0 then n - 1 else n
                              case Finish(k) => if k < |s.made| && s.made[k] in s.live && s.made[k].transId == id then n - 1 else n
                              case SetMax(_) => n
  {
    match c {
      case Submit(i) =>
        WithIdPlus(s.live, t.made[|s.made|], id);
      case Answer(i) =>
        if exists r :: r in s.live && r.transId == i {
          var r :| r in s.live && r.transId == i && t.live == s.live - {r};
          assert s.live == t.live + {r};
          WithIdPlus(t.live, r, id);
        } else if i == id {
          assert WithId(s.live, id) == {};
        }
      case Finish(k) =>
        if k < |s.made| && s.made[k] in s.live {
          assert s.live == t.live + {s.made[k]};
          WithIdPlus(t.live, s.made[k], id);
        } else {
          assert t.live == s.live;
        }
      case SetMax(_) =>
    }
  }
}
