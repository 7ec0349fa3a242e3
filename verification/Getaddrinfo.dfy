// An asynchronous getaddrinfo: two sub-requests, a timer for the slower one, and a user who may
// cancel (evdns_getaddrinfo_gotresolve, evdns_getaddrinfo_timeout_cb, evdns_getaddrinfo_cancel).
module Getaddrinfo {
  import opened Options

  type Address = nat

  // What a sub-request's callback is told: addresses, an error of the resolver, or that it was cancelled.
  datatype Reply = Answer(addresses: seq<Address>) | NotExist | Failed | Cancelled

  // What the user's callback is told.
  datatype Code = Success | NoData | NoName | Fail | Again | Cancel
  datatype Outcome = Outcome(code: Code, addresses: seq<Address>)

  // A sub-request: never made or over (its pointer is NULL), waiting for a reply, or with its
  // callback scheduled.
  datatype Sub = Over | Waiting | Due(reply: Reply)

  datatype Family = V4 | V6

  // evdns_cancel_request: does nothing if the callback is already scheduled.
  function Cancelling(s: Sub): Sub {
    if s.Waiting? then Due(Cancelled) else s
  }

  // The getaddrinfo error of a reply; None for an answer with addresses.
  function ErrorOf(r: Reply): Option<Code> {
    match r
    case Answer(addresses) => if addresses == [] then Some(NoData) else None
    case NotExist => Some(NoName)
    case Failed => Some(Fail)
    case Cancelled => Some(Fail)
  }

  // getaddrinfo_merge_err
  function MergeErr(e1: Option<Code>, e2: Option<Code>): Option<Code> {
    if e1.None? then e2 else e1
  }

  function AddressesOf(r: Option<Reply>): seq<Address> {
    if r.Some? && r.value.Answer? then r.value.addresses else []
  }

  function Other(f: Family): Family {
    if f == V4 then V6 else V4
  }

  // A request's state, and what has happened: the user's callback, the memory, the replies delivered,
  // and whether the skew timer has fired.
  datatype State = State(v4: Sub, v6: Sub, pendingResult: Option<seq<Address>>, pendingError: Option<Code>, timer: bool, userCb: bool,
                         userCanceled: bool, requestDone: bool, calls: seq<Outcome>, freed: nat, got4: Option<Reply>, got6: Option<Reply>,
                         expired: bool)
  {
    function Sub(f: Family): Sub {
      if f == V4 then v4 else v6
    }

    function With(f: Family, s: Sub): State {
      if f == V4 then this.(v4 := s) else this.(v6 := s)
    }

    function Got(f: Family): Option<Reply> {
      if f == V4 then got4 else got6
    }

    function Outstanding(): nat {
      (if v4.Over? then 0 else 1) + (if v6.Over? then 0 else 1)
    }

    // The invariant over every interleaving.
    predicate Good() {
      && freed <= 1
      && |calls| == (if userCb then 0 else 1)
      // The memory goes when, and only when, nothing is outstanding; by then the user knows.
      && (freed == 1 <==> Outstanding() == 0)
      && (freed == 1 ==> !userCb && !timer)
      // The user is told early only by the timer, for the sake of one slow sub-request.
      && (freed == 0 && !userCb ==> Outstanding() == 1 && !timer && expired)
      // The timer is set only while one sub-request is outstanding.
      && (timer ==> Outstanding() == 1 && userCb)
      && (pendingResult.Some? && freed == 0 && userCb ==> Outstanding() == 1)
      && (got4.Some? ==> v4.Over?) && (got6.Some? ==> v6.Over?)
      && (requestDone ==> freed == 1)
      // A user who cancels is told so, unless the timer is set and fires first.
      && (userCanceled && calls != [] ==> (calls[0].code == Cancel <==> !expired))
      && (userCanceled && timer ==> pendingResult.None? && pendingError.Some? && pendingError != Some(Cancel))
      && (expired ==> !userCb)
      // A cancellation comes from the user or from the timer.
      && (v4 == Due(Cancelled) || v6 == Due(Cancelled) ==> userCanceled || !userCb)
      && Pending()
    }

    // What is kept of the first reply, while the user waits for the second.
    predicate Pending() {
      userCb && !userCanceled ==>
        && (got4.Some? && got6.Some? ==> false)
        && (pendingResult == if got4.Some? && ErrorOf(got4.value).None? then Some(AddressesOf(got4))
                             else if got6.Some? && ErrorOf(got6.value).None? then Some(AddressesOf(got6)) else None)
        && (pendingError == if got4.Some? && ErrorOf(got4.value).Some? then ErrorOf(got4.value)
                            else if got6.Some? && ErrorOf(got6.value).Some? then ErrorOf(got6.value) else None)
    }

    // What the user is told when the last reply is there.
    function Verdict(last: Reply): Outcome {
      if userCanceled then Outcome(Cancel, [])
      else if AddressesOf(got4) + AddressesOf(got6) != [] then Outcome(Success, AddressesOf(got4) + AddressesOf(got6))
      else Outcome(if ErrorOf(last).Some? then ErrorOf(last).value else Fail, [])
    }
  }

  // What the delivery of a reply does: the user is told when it is the last one, and the memory is freed
  // then; before that the skew timer is set, for a user who still waits and has not cancelled, or for an error.
  predicate Delivers(s: State, f: Family, t: State)
    requires s.Sub(f).Due?
  {
    var reply := s.Sub(f).reply;
    && t.Sub(f) == Over && t.Sub(Other(f)) == s.Sub(Other(f))
    && t.Got(f) == Some(reply) && t.Got(Other(f)) == s.Got(Other(f))
    && t.userCanceled == s.userCanceled && t.expired == s.expired
    && t.calls == (if s.userCb && t.Outstanding() == 0 then [t.Verdict(reply)] else s.calls)
    && t.freed == (if t.Outstanding() == 0 then 1 else 0) && t.userCb == (s.userCb && t.Outstanding() > 0)
    && (t.timer <==> t.Outstanding() > 0 && s.userCb && (ErrorOf(reply).Some? || !s.userCanceled))
    && (t.timer ==> if ErrorOf(reply).Some? then t.pendingError == ErrorOf(reply) && t.pendingResult == s.pendingResult
                    else t.pendingResult == Some(AddressesOf(Some(reply))) && t.pendingError == s.pendingError)
  }

  // What the skew timer does: the user is told about the reply that is there, and the other
  // sub-request is cancelled.
  function Expired(s: State): State {
    s.(timer := false, userCb := false, expired := true, v4 := Cancelling(s.v4), v6 := Cancelling(s.v6), pendingResult := None,
       calls := [if s.pendingResult.Some? then Outcome(Success, s.pendingResult.value)
                 else Outcome(if s.pendingError.Some? then s.pendingError.value else Again, [])])
  }

  // What a cancellation by the user does.
  function UserCanceled(s: State): State {
    s.(timer := false, userCanceled := true, v4 := Cancelling(s.v4), v6 := Cancelling(s.v6))
  }

  // A state in which the last reply has come, to a user who has been told before.
  predicate Silent(s: State, f: Family, t: State)
    requires s.Sub(f).Due?
  {
    t == if f == V4 then s.(v4 := Over, got4 := Some(s.v4.reply), requestDone := true, freed := 1, timer := false, userCb := false)
         else s.(v6 := Over, got6 := Some(s.v6.reply), requestDone := true, freed := 1, timer := false, userCb := false)
  }

  lemma SilentDelivers(s: State, f: Family, t: State)
    requires s.Good() && s.Sub(f).Due? && !s.userCb && Silent(s, f, t)
    ensures t.Good() && Delivers(s, f, t)
  {
  }

  // What is known when a reply is delivered.
  lemma DueFacts(s: State, f: Family)
    requires s.Good() && s.Sub(f).Due?
    ensures s.freed == 0 && !s.requestDone
    ensures !s.userCb ==> s.Sub(Other(f)) == Over
    ensures s.Sub(f).reply == Cancelled && !s.userCanceled ==> !s.userCb
  {
  }

  // struct evdns_getaddrinfo_request
  class Request {
    var v4: Sub
    var v6: Sub
    var pendingResult: Option<seq<Address>>
    var pendingError: Option<Code>
    // Whether the skew timer is set, and whether user_cb is still there.
    var timer: bool
    var userCb: bool
    var userCanceled: bool
    var requestDone: bool

    // What has happened: the user's callback, the memory, the replies delivered, and whether the
    // skew timer has fired.
    ghost var calls: seq<Outcome>
    ghost var freed: nat
    ghost var got4: Option<Reply>
    ghost var got6: Option<Reply>
    ghost var expired: bool

    // The part of evdns_getaddrinfo that launches the sub-requests; at least one of them starts.
    constructor (v4: bool, v6: bool)
      requires v4 || v6
      ensures Valid() && freed == 0 && calls == [] && !userCanceled && userCb && pendingResult == None && (this.v4.Waiting? <==> v4) && (this.v6.Waiting? <==> v6)
    {
      this.v4 := if v4 then Waiting else Over;
      this.v6 := if v6 then Waiting else Over;
      pendingResult, pendingError := None, None;
      timer, userCb, userCanceled, requestDone := false, true, false, false;
      calls, freed, got4, got6, expired := [], 0, None, None, false;
    }

    ghost function View(): State
      reads this
    {
      State(v4, v6, pendingResult, pendingError, timer, userCb, userCanceled, requestDone, calls, freed, got4, got6, expired)
    }

    ghost predicate Valid()
      reads this
    {
      View().Good()
    }

    // data->user_cb(code, addresses)
    method Tell(code: Code, addresses: seq<Address>)
      requires userCb && calls == []
      modifies this`calls
      ensures calls == [Outcome(code, addresses)]
    {
      calls := [Outcome(code, addresses)];
    }

    // free_getaddrinfo_request; the caller never looks at the request again.
    method Free()
      requires freed == 0 && View().Outstanding() == 0
      modifies this`freed, this`timer, this`userCb
      ensures freed == 1 && !timer && !userCb
    {
      timer := false;
      freed := 1;
      userCb := false;
    }

    // The reply of a sub-request is delivered: evdns_getaddrinfo_gotresolve. The user is told when
    // it is the last one: all the addresses, those of version 4 first.
    method GotResolve(f: Family)
      requires Valid() && freed == 0 && (if f == V4 then v4 else v6).Due?
      modifies this
      ensures Valid() && Delivers(old(View()), f, View())
    {
      var reply := if f == V4 then v4.reply else v6.reply;
      var other := if f == V4 then v6 else v4;
      ghost var s := View();
      DueFacts(s, f);
      if other == Over {
        requestDone := true;
      }
      if f == V4 {
        v4, got4 := Over, Some(reply);
      } else {
        v6, got6 := Over, Some(reply);
      }
      if reply == Cancelled && !userCanceled {
        hide State.Good, Delivers;
        if other == Over {
          Free();
        }
        SilentDelivers(s, f, View());
        return;
      }
      if !userCb {
        hide State.Good, Delivers;
        Free();
        SilentDelivers(s, f, View());
        return;
      }
      Report(f, reply, other);
    }

    // What is kept of the reply of the other sub-request.
    ghost predicate Kept(got: Option<Reply>)
      reads this
    {
      && pendingResult == (if got.Some? && ErrorOf(got.value).None? then Some(AddressesOf(got)) else None)
      && pendingError == if got.Some? then ErrorOf(got.value) else None
    }

    // The rest of evdns_getaddrinfo_gotresolve, when the user has not been told yet.
    method Report(f: Family, reply: Reply, other: Sub)
      requires freed == 0 && userCb && calls == [] && !expired && (requestDone <==> other == Over)
      requires if f == V4 then v4 == Over && other == v6 && got4 == Some(reply) else v6 == Over && other == v4 && got6 == Some(reply)
      requires (if f == V4 then got6 else got4).Some? ==> other == Over
      requires (reply == Cancelled || other == Due(Cancelled)) ==> userCanceled
      requires timer || pendingResult.Some? ==> other == Over
      requires !userCanceled ==> Kept(if f == V4 then got6 else got4)
      modifies this`timer, this`pendingError, this`pendingResult, this`calls, this`freed, this`userCb
      ensures Valid()
      ensures calls == (if other == Over then [View().Verdict(reply)] else []) && userCb == (other != Over) && freed == (if other == Over then 1 else 0)
      ensures timer <==> other != Over && (ErrorOf(reply).Some? || !userCanceled)
      ensures timer ==> if ErrorOf(reply).Some? then pendingError == ErrorOf(reply) && pendingResult == old(pendingResult)
                        else pendingResult == Some(AddressesOf(Some(reply))) && pendingError == old(pendingError)
    {
      NoneAdded(AddressesOf(got4));
      NoneAdded(AddressesOf(got6));
      var err := ErrorOf(reply);
      if err.Some? {
        if other != Over {
          timer := true;
          pendingError := err;
          return;
        }
        if userCanceled {
          Tell(Cancel, []);
        } else if pendingResult.Some? {
          Tell(Success, pendingResult.value);
          pendingResult := None;
        } else {
          if pendingError.Some? {
            err := MergeErr(err, pendingError);
          }
          Tell(err.value, []);
        }
        Free();
        return;
      }
      if userCanceled {
        if other != Over {
          return;
        }
        Tell(Cancel, []);
        Free();
        return;
      }
      var res := reply.addresses;
      if other != Over {
        timer := true;
        pendingResult := Some(res);
        return;
      }
      if pendingResult.Some? {
        res := if f == V4 then res + pendingResult.value else pendingResult.value + res;
        pendingResult := None;
      }
      Tell(Success, res);
      Free();
    }

    static lemma NoneAdded(s: seq<Address>)
      ensures s + [] == s && [] + s == s
    {
    }

    // A reply arrives from the network; its callback is scheduled.
    method Arrive(f: Family, reply: Reply)
      requires Valid() && (if f == V4 then v4 else v6).Waiting? && reply != Cancelled
      modifies this`v4, this`v6
      ensures Valid() && View() == old(View()).With(f, Due(reply))
    {
      if f == V4 {
        v4 := Due(reply);
      } else {
        v6 := Due(reply);
      }
    }

    // The skew timer fires: evdns_getaddrinfo_timeout_cb. The user is told about the reply that is
    // there; the other sub-request is cancelled.
    method TimeoutCb()
      requires Valid() && timer
      modifies this
      ensures Valid() && freed == 0 && View() == Expired(old(View()))
      ensures !userCanceled && AddressesOf(got4) + AddressesOf(got6) != [] ==>
                calls == [Outcome(Success, AddressesOf(got4) + AddressesOf(got6))]
    {
      NoneAdded(AddressesOf(got4));
      NoneAdded(AddressesOf(got6));
      timer, expired := false, true;
      var v4TimedOut, v6TimedOut := false, false;
      if v4 != Over {
        v4 := Cancelling(v4);
        v4TimedOut := true;
      }
      if v6 != Over {
        v6 := Cancelling(v6);
        v6TimedOut := true;
      }
      assert !v4TimedOut || !v6TimedOut;
      if pendingResult.Some? {
        Tell(Success, pendingResult.value);
        pendingResult := None;
      } else {
        Tell(if pendingError.Some? then pendingError.value else Again, []);
      }
      userCb := false;
      assert v4TimedOut || v6TimedOut;
    }

    // evdns_getaddrinfo_cancel, which must not be called once the user has been told.
    method CancelByUser()
      requires Valid() && userCb && freed == 0
      modifies this`timer, this`userCanceled, this`v4, this`v6
      ensures Valid() && View() == UserCanceled(old(View()))
    {
      if requestDone {
        return;
      }
      timer := false;
      userCanceled := true;
      if v4 != Over {
        v4 := Cancelling(v4);
      }
      if v6 != Over {
        v6 := Cancelling(v6);
      }
    }
  }

  datatype Event = Arrives(f: Family, reply: Reply) | Delivered(f: Family) | TimerFires | UserCancels

  // What an event does. What cannot happen in a state does not happen.
  predicate Step(s: State, e: Event, t: State) {
    match e
    case Arrives(f, reply) => t == if s.Sub(f).Waiting? && reply != Cancelled then s.With(f, Due(reply)) else s
    case Delivered(f) => if s.Sub(f).Due? then Delivers(s, f, t) else t == s
    case TimerFires => t == if s.timer then Expired(s) else s
    case UserCancels => t == if s.userCb then UserCanceled(s) else s
  }

  predicate History(events: seq<Event>, trace: seq<State>) {
    |trace| == |events| + 1 && forall k :: 0 <= k < |events| ==> Step(trace[k], events[k], trace[k + 1])
  }

  method Perform(req: Request, e: Event)
    requires req.Valid()
    modifies req
    ensures req.Valid() && Step(old(req.View()), e, req.View())
  {
    match e {
      case Arrives(f, reply) =>
        if (if f == V4 then req.v4 else req.v6) == Waiting && reply != Cancelled {
          req.Arrive(f, reply);
        }
      case Delivered(f) =>
        if (if f == V4 then req.v4 else req.v6).Due? {
          req.GotResolve(f);
        }
      case TimerFires =>
        if req.timer {
          req.TimeoutCb();
        }
      case UserCancels =>
        if req.userCb {
          req.CancelByUser();
        }
    }
  }

  // Any interleaving: every event does what it should, and every state is good.
  method Run(req: Request, events: seq<Event>) returns (ghost trace: seq<State>)
    requires req.Valid()
    modifies req
    ensures History(events, trace) && trace[0] == old(req.View()) && trace[|events|] == req.View()
    ensures forall k :: 0 <= k < |trace| ==> trace[k].Good()
  {
    hide State.Good, Step;
    trace := [req.View()];
    for i := 0 to |events|
      invariant req.Valid() && History(events[..i], trace) && trace[0] == old(req.View()) && trace[i] == req.View()
      invariant forall k :: 0 <= k < |trace| ==> trace[k].Good()
    {
      Perform(req, events[i]);
      trace := trace + [req.View()];
    }
    assert events[..|events|] == events;
  }

  // Exactly once: when no sub-request is outstanding the user has been told once, and the memory
  // has been freed once; before that it has not been freed.
  lemma ExactlyOnce(s: State)
    requires s.Good()
    ensures s.Outstanding() == 0 ==> |s.calls| == 1 && s.freed == 1
    ensures s.Outstanding() > 0 ==> s.freed == 0 && |s.calls| <= 1
  {
  }

  // When a user cancels, this says whether something else may be told than the cancellation: both
  // sub-requests are outstanding, and not both have answered with addresses already.
  predicate MayTellOther(s: State) {
    s.Outstanding() == 2 && (Unanswered(s.v4) || Unanswered(s.v6))
  }

  predicate Unanswered(s: Sub) {
    s.Waiting? || (s.Due? && ErrorOf(s.reply).Some?)
  }

  // ... if not, the user who has cancelled will be told so.
  predicate WillTell(s: State) {
    && s.userCanceled
    && if s.userCb then s.calls == [] && !s.timer && s.Outstanding() > 0 && (s.Outstanding() == 2 ==> !Unanswered(s.v4) && !Unanswered(s.v6))
       else s.calls == [Outcome(Cancel, [])] && s.Outstanding() == 0 && !s.timer
  }

  // Whatever happens after a cancellation in a state that may not tell anything else: once the user has
  // been told, it was the cancellation.
  lemma {:induction false} CancelTold(events: seq<Event>, trace: seq<State>, i: nat, j: nat)
    requires History(events, trace) && i < |events| && events[i].UserCancels? && i < j < |trace|
    requires trace[i].Good() && trace[i].userCb && !MayTellOther(trace[i])
    ensures WillTell(trace[j])
    ensures trace[j].calls == [] || trace[j].calls == [Outcome(Cancel, [])]
  {
    assert Step(trace[j - 1], events[j - 1], trace[j]);
    if i + 1 < j {
      CancelTold(events, trace, i, j - 1);
    }
  }

  // In any other state in which a user cancels, something else may be told: the first cancellation to be
  // delivered sets the timer, which may fire before the second.
  method CancelNotTold(req: Request) returns (events: seq<Event>, ghost trace: seq<State>)
    requires req.Valid() && req.userCb && MayTellOther(req.View())
    modifies req
    ensures History(events, trace) && trace[0] == old(req.View()) && trace[|events|] == req.View() && |events| > 0 && events[0] == UserCancels
    ensures req.userCanceled && |req.calls| == 1 && req.calls[0].code != Cancel
  {
    var f := if req.v4.Waiting? || (req.v4.Due? && ErrorOf(req.v4.reply).Some?) then V4 else V6;
    events := [UserCancels, Delivered(f), TimerFires];
    trace := Run(req, events);
    assert Step(trace[0], events[0], trace[1]) && Step(trace[1], events[1], trace[2]) && Step(trace[2], events[2], trace[3]);
  }

  // For one, a failure.
  method CancelToldAsFailure() returns (req: Request)
    ensures req.Valid() && req.userCanceled && req.calls == [Outcome(Fail, [])]
  {
    req := new Request(true, true);
    req.CancelByUser();
    req.GotResolve(V4);
    req.TimeoutCb();
  }

  // A request for both families, before anything has happened.
  predicate Asked(s: State) {
    s.v4.Waiting? && s.v6.Waiting? && s.got4.None? && s.got6.None? && s.userCb && s.calls == [] && !s.userCanceled && !s.expired
  }

  // What a user is told of two replies, of which that of family `last` came last: all the addresses, those of
  // version 4 first, or if there are none what the last reply says.
  predicate Told(r4: Reply, r6: Reply, last: Family, calls: seq<Outcome>) {
    var a4 := if r4.Answer? then r4.addresses else [];
    var a6 := if r6.Answer? then r6.addresses else [];
    if a4 != [] || a6 != [] then calls == [Outcome(Success, a4 + a6)]
    else ToldError(if last == V4 then r4 else r6, calls)
  }

  // ... and of one reply without addresses.
  predicate ToldError(r: Reply, calls: seq<Outcome>) {
    match r
    case Answer(addresses) => calls == [Outcome(NoData, [])]
    case NotExist => calls == [Outcome(NoName, [])]
    case Failed => calls == [Outcome(Fail, [])]
    case Cancelled => calls == [Outcome(Fail, [])]
  }

  // The last of two replies is delivered to a user who still waits.
  lemma LastDelivered(s: State, f: Family, t: State)
    requires s.Good() && Step(s, Delivered(f), t) && s.Sub(f).Due? && s.Sub(Other(f)).Over? && s.userCb && !s.userCanceled
    requires s.Got(Other(f)).Some?
    ensures t.got4.Some? && t.got6.Some? && Told(t.got4.value, t.got6.value, f, t.calls)
  {
  }

  // When all is over nothing happens any more.
  lemma OverStays(s: State, e: Event, t: State)
    requires s.Good() && Step(s, e, t) && s.Outstanding() == 0
    ensures t == s
  {
  }

  // A step in which the second reply arrives.
  lemma SecondReply(s: State, e: Event, t: State)
    requires s.Good() && t.Good() && Step(s, e, t) && t.got4.Some? && t.got6.Some? && !(s.got4.Some? && s.got6.Some?)
    requires !t.userCanceled && !t.expired
    requires s.got4.Some? || s.v4.Waiting? || s.v4.Due?
    requires s.got6.Some? || s.v6.Waiting? || s.v6.Due?
    ensures e.Delivered? && s.Sub(e.f).Due? && s.Got(Other(e.f)).Some? && s.userCb && !s.userCanceled && Told(t.got4.value, t.got6.value, e.f, t.calls)
  {
    assert e.Delivered? && s.Sub(e.f).Due?;
    assert s.Got(Other(e.f)).Some? && s.Sub(Other(e.f)).Over?;
    assert s.userCb;
    LastDelivered(s, e.f, t);
  }

  lemma {:induction false} StillAsked(events: seq<Event>, trace: seq<State>, n: nat)
    requires History(events, trace) && n < |trace| && Asked(trace[0]) && forall k :: 0 <= k < |trace| ==> trace[k].Good()
    ensures trace[n].got4.Some? <==> trace[n].v4.Over?
    ensures trace[n].got6.Some? <==> trace[n].v6.Over?
  {
    if n > 0 {
      StillAsked(events, trace, n - 1);
      assert Step(trace[n - 1], events[n - 1], trace[n]);
      hide State.Good;
    }
  }

  // In any history of a request for both families, when both replies have been delivered and neither the user
  // nor the timer has interfered, the user has been told of them as said, once.
  lemma {:induction false} BothTold(events: seq<Event>, trace: seq<State>, n: nat)
    requires History(events, trace) && n < |trace| && Asked(trace[0]) && forall k :: 0 <= k < |trace| ==> trace[k].Good()
    requires trace[n].got4.Some? && trace[n].got6.Some? && !trace[n].userCanceled && !trace[n].expired
    ensures exists k :: 0 <= k < n && LastReply(events[k], trace[k]) && Told(trace[n].got4.value, trace[n].got6.value, events[k].f, trace[n].calls)
  {
    var s, e, t := trace[n - 1], events[n - 1], trace[n];
    assert Step(s, e, t) && s.Good() && t.Good();
    StillAsked(events, trace, n - 1);
    hide State.Good, Step;
    if s.got4.Some? && s.got6.Some? {
      OverStays(s, e, t);
      BothTold(events, trace, n - 1);
    } else {
      SecondReply(s, e, t);
      assert LastReply(e, s);
    }
  }

  // The event delivers the second of two replies.
  predicate LastReply(e: Event, s: State) {
    e.Delivered? && s.Sub(e.f).Due? && s.Got(Other(e.f)).Some?
  }

  // The first of two replies is delivered to a user who still waits: nothing is told, and the timer is set.
  lemma FirstDelivered(s: State, f: Family, t: State)
    requires s.Good() && Step(s, Delivered(f), t) && s.Sub(f).Due? && !s.Sub(Other(f)).Over? && s.userCb && !s.userCanceled
    ensures t.timer && t.userCb && t.calls == [] && t.freed == 0 && t.Sub(Other(f)) == s.Sub(Other(f)) && t.Got(f) == Some(s.Sub(f).reply)
  {
  }

  // The one reply of a request for one family.
  lemma OneTold(s: State, f: Family, t: State)
    requires s.Good() && Step(s, Delivered(f), t) && s.Sub(f).Due? && s.Sub(Other(f)).Over? && s.Got(Other(f)).None?
    requires s.userCb && !s.userCanceled
    ensures var r := s.Sub(f).reply; if r.Answer? && r.addresses != [] then t.calls == [Outcome(Success, r.addresses)] else ToldError(r, t.calls)
  {
    var a := AddressesOf(Some(s.Sub(f).reply));
    assert a + [] == a && [] + a == a;
  }

  // When the timer fires for a user who has not cancelled, that user is told of the one reply that is there, and the
  // other sub-request is cancelled if it still waits.
  lemma TimerTold(s: State, t: State, f: Family)
    requires s.Good() && Step(s, TimerFires, t) && s.timer && !s.userCanceled && s.Got(f).Some?
    ensures var r := s.Got(f).value; if r.Answer? && r.addresses != [] then t.calls == [Outcome(Success, r.addresses)] else ToldError(r, t.calls)
    ensures s.Sub(Other(f)).Waiting? ==> t.Sub(Other(f)) == Due(Cancelled)
    ensures s.Sub(Other(f)).Due? ==> t.Sub(Other(f)) == s.Sub(Other(f))
    ensures !t.userCb && !t.timer
  {
  }

  // A user who cancels cancels whatever still waits, and the timer.
  lemma CancelCancels(s: State, t: State, f: Family)
    requires s.Good() && Step(s, UserCancels, t) && s.userCb
    ensures t.userCanceled && !t.timer && t.calls == s.calls
    ensures t.Sub(f) == if s.Sub(f).Waiting? then Due(Cancelled) else s.Sub(f)
  {
  }
}
