// Whatever happens to a rate-limited bufferevent: it is never stuck, and in no window of time
// does it move more than its configuration allows.
module RateRun {
  import opened TokenBucket
  import opened RateLimit

  datatype What =
    | Move(isWrite: bool, want: nat, group: Group)   // read or write as much as is allowed
    | Look(isWrite: bool, group: Group)              // ask how much is allowed, and move nothing
    | Charge(isWrite: bool, bytes: int)              // the limit is lowered, or raised, by hand
    | Expire                                         // the refill timer's time comes
    | Begin                                          // its callback is begun
    | Callback                                       // and gets the bufferevent's lock

  datatype Cmd = Cmd(now: nat, what: What) {
    predicate Possible() {
      now < TWO_64 && ((what.Move? || what.Look?) && what.group.Open? ==> what.group.members > 0)
    }
  }

  // A bufferevent's state, as a value.
  datatype Picture = Picture(cfg: Config?, read: Bucket, write: Bucket, readSuspended: set<Why>, writeSuspended: set<Why>,
                             pending: bool, queued: bool, executing: bool)
  {
    function Tokens(isWrite: bool): Bucket {
      if isWrite then write else read
    }

    function Suspended(isWrite: bool): set<Why> {
      if isWrite then writeSuspended else readSuspended
    }

    // A limit brought up to date.
    function Fresh(isWrite: bool, now: nat): Bucket
      requires cfg != null && cfg.msecPerTick > 0
    {
      Update(Tokens(isWrite), cfg.For(isWrite), Tick(now, cfg.msecPerTick) % TWO_32)
    }
  }

  ghost function Shot(b: Bufferevent): (p: Picture)
    reads b
  {
    Picture(b.cfg, b.Tokens(false), b.Tokens(true), b.readSuspended, b.writeSuspended, b.pending, b.queued, b.executing)
  }

  // The bytes a command moves.
  function Bytes(c: Cmd, p: Picture): nat
    requires p.cfg != null && p.cfg.msecPerTick > 0 && c.Possible()
  {
    if !c.what.Move? then 0
    else
      var most := Allowance(p.Fresh(c.what.isWrite, c.now).limit, c.what.group);
      if c.what.want < most then c.what.want else most
  }

  function MovedBy(c: Cmd, p: Picture, d: bool): nat
    requires p.cfg != null && p.cfg.msecPerTick > 0 && c.Possible()
  {
    if c.what.Move? && c.what.isWrite == d then Bytes(c, p) else 0
  }

  // A change by hand that is made: one that would overflow, or lift a limit above its maximum, is not.
  predicate Made(c: Cmd, p: Picture)
    requires p.cfg != null && c.what.Charge?
  {
    var left := p.Tokens(c.what.isWrite).limit - c.what.bytes;
    IsSigned(left) && left <= p.cfg.For(c.what.isWrite).maximum
  }

  // What is done with the refill timer when the limit of direction w has gone down, or up.
  predicate Timed(p: Picture, q: Picture, w: bool) {
    if q.Tokens(w).limit <= 0 then q.pending && !q.queued
    else if Bandwidth in p.Suspended(w) && Bandwidth !in p.Suspended(!w) then !q.pending && !q.queued
    else q.pending == p.pending && q.queued == p.queued
  }

  // What a command does to the limits, the suspensions and the timer.
  ghost predicate Does(c: Cmd, p: Picture, q: Picture)
    requires p.cfg != null && p.cfg.msecPerTick > 0 && c.Possible()
  {
    && q.cfg == p.cfg
    && match c.what
       case Move(w, _, group) =>
         var left := p.Fresh(w, c.now).limit - Bytes(c, p);
         && q.Tokens(w) == Bucket(left, p.Fresh(w, c.now).last) && q.Tokens(!w) == p.Fresh(!w, c.now)
         && q.Suspended(w) - {Bandwidth} == p.Suspended(w) + (if group.Closed? then {GroupBandwidth} else {}) - {Bandwidth}
         && (Bandwidth in q.Suspended(w) <==> left <= 0)
         && q.Suspended(!w) == p.Suspended(!w) && q.executing == p.executing && Timed(p, q, w)
       case Look(w, group) =>
         && q.Tokens(false) == p.Fresh(false, c.now) && q.Tokens(true) == p.Fresh(true, c.now)
         && q.Suspended(w) == p.Suspended(w) + (if group.Closed? then {GroupBandwidth} else {}) && q.Suspended(!w) == p.Suspended(!w)
         && q.pending == p.pending && q.queued == p.queued && q.executing == p.executing
       case Charge(w, bytes) =>
         && q.Tokens(!w) == p.Tokens(!w) && q.Suspended(!w) == p.Suspended(!w)
         && q.Tokens(w) == (if Made(c, p) then Bucket(p.Tokens(w).limit - bytes, p.Tokens(w).last) else p.Tokens(w))
         && q.Suspended(w) - {Bandwidth} == p.Suspended(w) - {Bandwidth}
         && (Bandwidth in q.Suspended(w) <==> if (p.Tokens(w).limit <= 0) == (q.Tokens(w).limit <= 0) then Bandwidth in p.Suspended(w)
                                              else q.Tokens(w).limit <= 0)
         && (if (p.Tokens(w).limit <= 0) == (q.Tokens(w).limit <= 0) then q.pending == p.pending && q.queued == p.queued else Timed(p, q, w))
         && q.executing == p.executing
       case Expire => q == if p.pending then p.(pending := false, queued := true) else p
       case Begin => q == if p.queued && !p.executing then p.(queued := false, executing := true) else p
       case Callback =>
         if !p.executing then q == p
         else
           && !q.executing && q.Tokens(false) == p.Fresh(false, c.now) && q.Tokens(true) == p.Fresh(true, c.now)
           && q.Suspended(false) == (if q.Tokens(false).limit > 0 then p.Suspended(false) - {Bandwidth} else p.Suspended(false))
           && q.Suspended(true) == (if q.Tokens(true).limit > 0 then p.Suspended(true) - {Bandwidth} else p.Suspended(true))
           && if Bandwidth in q.Suspended(false) || Bandwidth in q.Suspended(true) then q.pending && !q.queued
              else q.pending == p.pending && q.queued == p.queued
  }

  // One limit's part of a command: a step of its bucket.
  function StepOf(c: Cmd, p: Picture, d: bool): Step
    requires p.cfg != null && p.cfg.msecPerTick > 0 && c.Possible()
  {
    Step(Tick(c.now, p.cfg.msecPerTick), c.what.Move? || c.what.Look? || (c.what.Callback? && p.executing), MovedBy(c, p, d),
         if c.what.Charge? && c.what.isWrite == d && Made(c, p) then c.what.bytes else 0)
  }

  // Perform a command.
  method Perform(b: Bufferevent, c: Cmd) returns (moved: nat)
    requires b.Valid() && b.cfg != null && c.Possible()
    modifies b
    ensures b.Valid() && b.cfg == old(b.cfg) && moved == Bytes(c, old(Shot(b))) && Does(c, old(Shot(b)), Shot(b))
  {
    moved := 0;
    if c.what.Move? {
      moved := PerformMove(b, c);
    } else if c.what.Look? {
      PerformLook(b, c);
    } else if c.what.Charge? {
      PerformCharge(b, c);
    } else if c.what.Expire? {
      if b.pending {
        b.Expire();
      }
    } else if c.what.Begin? {
      if b.queued && !b.executing {
        b.Begin();
      }
    } else if b.executing {
      b.RefillCallback(c.now);
    }
  }

  method PerformMove(b: Bufferevent, c: Cmd) returns (moved: nat)
    requires b.Valid() && b.cfg != null && c.Possible() && c.what.Move?
    modifies b
    ensures b.Valid() && b.cfg == old(b.cfg) && moved == Bytes(c, old(Shot(b))) && Does(c, old(Shot(b)), Shot(b))
  {
    hide Update, Tick, Allowance;
    var w := c.what.isWrite;
    var most := b.GetMax(w, c.now, c.what.group);
    moved := if c.what.want < most then c.what.want else most;
    AllowanceBound(b.Limit(w), c.what.group);
    b.Decrement(w, moved);
  }

  method PerformLook(b: Bufferevent, c: Cmd)
    requires b.Valid() && b.cfg != null && c.Possible() && c.what.Look?
    modifies b
    ensures b.Valid() && b.cfg == old(b.cfg) && Does(c, old(Shot(b)), Shot(b))
  {
    hide Update, Tick, Allowance;
    ShotIs(b);
    var _ := b.GetMax(c.what.isWrite, c.now, c.what.group);
    ShotIs(b);
    assert forall w: bool :: b.Suspended(w) == old(b.Suspended(w)) + if c.what.group.Closed? && w == c.what.isWrite then {GroupBandwidth} else {};
  }

  lemma AllowanceBound(own: int, g: Group)
    requires g.Open? ==> g.members > 0
    ensures Allowance(own, g) > 0 ==> Allowance(own, g) <= own
  {
  }

  method PerformCharge(b: Bufferevent, c: Cmd)
    requires b.Valid() && b.cfg != null && c.Possible() && c.what.Charge?
    modifies b
    ensures b.Valid() && b.cfg == old(b.cfg) && Does(c, old(Shot(b)), Shot(b))
  {
    var w := c.what.isWrite;
    if -TWO_63 <= b.Limit(w) - c.what.bytes < TWO_63 && b.Limit(w) - c.what.bytes <= b.cfg.For(w).maximum {
      b.DecrementLimit(w, c.what.bytes);
    }
  }

  // A command is a modest step for either limit.
  lemma IsStep(c: Cmd, p: Picture, q: Picture, d: bool)
    requires p.cfg != null && p.cfg.msecPerTick > 0 && c.Possible() && Does(c, p, q)
    ensures Modest(p.Tokens(d), p.cfg.For(d), StepOf(c, p, d)) && q.Tokens(d) == Apply(p.Tokens(d), p.cfg.For(d), StepOf(c, p, d))
  {
    hide Update, Tick, Allowance, IsSigned;
    if c.what.Move? {
      AllowanceBound(p.Fresh(c.what.isWrite, c.now).limit, c.what.group);
    }
  }

  // A change of the configuration (none: rate limiting ends), or a command.
  datatype Action = Do(cmd: Cmd) | Configure(at: nat, cfg: Config?)

  ghost predicate Possible(a: Action) {
    match a
    case Do(c) => c.Possible()
    case Configure(at, c) => at < TWO_64 && (c != null ==> c.Valid())
  }

  // What a configuration does: the suspensions follow the clipped or initial limits.
  ghost predicate Configures(at: nat, c: Config?, p: Picture, q: Picture)
    requires c != null ==> c.msecPerTick > 0
  {
    && q.cfg == c && q.executing == p.executing
    && (c != null && c != p.cfg ==> !q.queued && (q.pending <==> Bandwidth in q.readSuspended || Bandwidth in q.writeSuspended))
    && (c != null && c == p.cfg ==> q.pending == p.pending && q.queued == p.queued)
    && (c == null ==> !q.pending && !q.queued)
    && forall w: bool ::
         && q.Suspended(w) - {Bandwidth} == p.Suspended(w) - {Bandwidth}
         && (c == null ==> Bandwidth !in q.Suspended(w) && q.Tokens(w) == p.Tokens(w))
         && (c != null && c == p.cfg ==> q.Tokens(w) == p.Tokens(w) && q.Suspended(w) == p.Suspended(w))
         && (c != null && c != p.cfg ==>
              && q.Tokens(w) == (if p.cfg != null then p.Tokens(w).(limit := Min(p.Tokens(w).limit, c.For(w).maximum))
                                 else Bucket(c.For(w).rate, GetTick(at, c.msecPerTick)))
              && (Bandwidth in q.Suspended(w) <==> q.Tokens(w).limit <= 0))
  }

  // Without a configuration there is nothing to do but to let a callback that has begun return.
  ghost predicate Acts(a: Action, p: Picture, q: Picture) {
    if !Possible(a) || (p.cfg != null && p.cfg.msecPerTick == 0) then false
    else
      match a
      case Configure(at, c) => Configures(at, c, p, q)
      case Do(c) => if p.cfg != null then Does(c, p, q) else q == if c.what.Callback? then p.(executing := false) else p
  }

  // What is exhausted is suspended, and what is suspended will be looked at by the refill timer.
  predicate NotStuck(p: Picture) {
    forall w: bool ::
      && (p.cfg != null && p.Tokens(w).limit <= 0 ==> Bandwidth in p.Suspended(w))
      && (Bandwidth in p.Suspended(w) ==> p.cfg != null && (p.pending || p.queued || p.executing))
  }

  ghost predicate History(actions: seq<Action>, trace: seq<Picture>) {
    |trace| == |actions| + 1 && forall k :: 0 <= k < |actions| ==> Acts(actions[k], trace[k], trace[k + 1])
  }

  // Any commands and changes of configuration: a bufferevent is stuck in none of the states it goes through.
  method RunAny(b: Bufferevent, actions: seq<Action>) returns (ghost trace: seq<Picture>)
    requires b.Valid() && forall i :: 0 <= i < |actions| ==> Possible(actions[i])
    modifies b
    ensures b.Valid() && History(actions, trace) && trace[0] == old(Shot(b)) && trace[|actions|] == Shot(b)
    ensures forall k :: 0 <= k < |trace| ==> NotStuck(trace[k])
  {
    hide Acts, NotStuck, Possible;
    trace := [Shot(b)];
    ValidNotStuck(b);
    for i := 0 to |actions|
      invariant b.Valid() && History(actions[..i], trace) && trace[0] == old(Shot(b)) && trace[i] == Shot(b)
      invariant forall k :: 0 <= k < |trace| ==> NotStuck(trace[k])
    {
      Act(b, actions[i]);
      ValidNotStuck(b);
      trace := trace + [Shot(b)];
    }
    assert actions[..|actions|] == actions;
  }

  method Act(b: Bufferevent, a: Action)
    requires b.Valid() && Possible(a)
    modifies b
    ensures b.Valid() && Acts(a, old(Shot(b)), Shot(b))
  {
    hide Does;
    if a.Configure? {
      PerformConfigure(b, a.at, a.cfg);
    } else if b.cfg != null {
      var _ := Perform(b, a.cmd);
    } else if a.cmd.what.Callback? && b.executing {
      b.RefillCallback(a.cmd.now);
    }
  }

  method PerformConfigure(b: Bufferevent, at: nat, c: Config?)
    requires b.Valid() && at < TWO_64 && (c != null ==> c.Valid())
    modifies b
    ensures b.Valid() && Configures(at, c, old(Shot(b)), Shot(b))
  {
    ghost var p := Shot(b);
    ShotIs(b);
    b.SetRateLimit(c, at);
    ShotIs(b);
    ghost var q := Shot(b);
    forall w: bool
      ensures q.Suspended(w) - {Bandwidth} == p.Suspended(w) - {Bandwidth} && (c == null ==> Bandwidth !in q.Suspended(w))
      ensures c != null && c == p.cfg ==> q.Tokens(w) == p.Tokens(w) && q.Suspended(w) == p.Suspended(w)
      ensures c != null && c != p.cfg ==> (Bandwidth in q.Suspended(w) <==> q.Tokens(w).limit <= 0)
      ensures c != null && c != p.cfg ==>
        q.Tokens(w) == if p.cfg != null then p.Tokens(w).(limit := Min(p.Tokens(w).limit, c.For(w).maximum)) else Bucket(c.For(w).rate, GetTick(at, c.msecPerTick))
    {
      assert b.Suspended(w) - {Bandwidth} == old(b.Suspended(w)) - {Bandwidth};
    }
  }

  lemma ShotIs(b: Bufferevent)
    ensures forall w :: Shot(b).Tokens(w) == b.Tokens(w) && Shot(b).Suspended(w) == b.Suspended(w)
  {
  }

  lemma ValidNotStuck(b: Bufferevent)
    requires b.Valid()
    ensures NotStuck(Shot(b))
  {
  }

  ghost function Sum(l: seq<nat>): nat {
    if l == [] then 0 else Sum(l[..|l| - 1]) + l[|l| - 1]
  }

  // What commands may give back to a limit by hand.
  function Given(cmds: seq<Cmd>, d: bool): nat {
    if cmds == [] then 0
    else
      var w := cmds[|cmds| - 1].what;
      Given(cmds[..|cmds| - 1], d) + if w.Charge? && w.isWrite == d && w.bytes < 0 then -w.bytes else 0
  }

  ghost predicate InOrder(cmds: seq<Cmd>) {
    && (forall i :: 0 <= i < |cmds| ==> cmds[i].Possible())
    && (forall i, j :: 0 <= i <= j < |cmds| ==> cmds[i].now <= cmds[j].now)
  }

  // What the commands do under one configuration, and what they move in direction d.
  ghost predicate Traced(cfg: Config, cmds: seq<Cmd>, d: bool, trace: seq<Picture>, moved: seq<nat>)
    requires cfg.msecPerTick > 0 && InOrder(cmds)
  {
    && |trace| == |cmds| + 1 && |moved| == |cmds| && trace[0].cfg == cfg
    && forall k :: 0 <= k < |cmds| ==>
         trace[k].cfg == cfg && Does(cmds[k], trace[k], trace[k + 1]) && moved[k] == MovedBy(cmds[k], trace[k], d)
  }

  // What direction d moved between any two commands is bounded.
  ghost predicate Within(c: Rule, m: nat, cmds: seq<Cmd>, d: bool, moved: seq<nat>)
    requires m > 0
  {
    |moved| == |cmds| && forall i, j :: 0 <= i < j <= |cmds| ==>
      Sum(moved[i..j]) <= c.maximum + (Tick(cmds[j - 1].now, m) - Tick(cmds[i].now, m)) * c.rate + Given(cmds[i..j], d)
  }

  // A bufferevent under one configuration: the commands do what they should, one by one, and move no
  // more than the configuration allows in any window.
  method Run(b: Bufferevent, cmds: seq<Cmd>, d: bool) returns (moved: seq<nat>, ghost trace: seq<Picture>)
    requires b.Valid() && b.cfg != null && InOrder(cmds)
    modifies b
    ensures b.Valid() && b.cfg == old(b.cfg)
    ensures Traced(b.cfg, cmds, d, trace, moved) && trace[0] == old(Shot(b)) && trace[|cmds|] == Shot(b)
    ensures Within(b.cfg.For(d), b.cfg.msecPerTick, cmds, d, moved)
    ensures forall i :: 0 <= i < |trace| ==> IsSigned(trace[i].Tokens(d).limit) && trace[i].Tokens(d).limit <= b.cfg.For(d).maximum
  {
    hide Does, Bytes, Within, Allowed;
    moved, trace := [], [Shot(b)];
    ghost var c := b.cfg.For(d);
    for k := 0 to |cmds|
      invariant b.Valid() && b.cfg == old(b.cfg) && InOrder(cmds[..k])
      invariant Traced(b.cfg, cmds[..k], d, trace, moved) && trace[0] == old(Shot(b)) && trace[k] == Shot(b)
      invariant forall i :: 0 <= i < |trace| ==> IsSigned(trace[i].Tokens(d).limit) && trace[i].Tokens(d).limit <= c.maximum
    {
      var n := Perform(b, cmds[k]);
      LimitsOk(b, d);
      moved := moved + [if cmds[k].what.Move? && cmds[k].what.isWrite == d then n else 0];
      trace := trace + [Shot(b)];
    }
    assert cmds[..|cmds|] == cmds;
    IsWithin(b.cfg, cmds, d, trace, moved);
  }

  lemma LimitsOk(b: Bufferevent, d: bool)
    requires b.Valid() && b.cfg != null
    ensures IsSigned(b.Tokens(d).limit) && b.Tokens(d).limit <= b.cfg.For(d).maximum
  {
  }

  // The steps of direction d.
  ghost function Steps(cfg: Config, cmds: seq<Cmd>, d: bool, trace: seq<Picture>): (s: seq<Step>)
    requires cfg.msecPerTick > 0 && |trace| == |cmds| + 1
    requires forall k :: 0 <= k < |cmds| ==> cmds[k].Possible() && trace[k].cfg == cfg
    ensures |s| == |cmds| && forall k :: 0 <= k < |cmds| ==> s[k] == StepOf(cmds[k], trace[k], d)
  {
    if cmds == [] then []
    else Steps(cfg, cmds[..|cmds| - 1], d, trace[..|cmds|]) + [StepOf(cmds[|cmds| - 1], trace[|cmds| - 1], d)]
  }

  lemma {:induction false} StepsAllowed(cfg: Config, cmds: seq<Cmd>, d: bool, trace: seq<Picture>, moved: seq<nat>)
    requires cfg.Valid() && InOrder(cmds) && Traced(cfg, cmds, d, trace, moved)
    requires forall i :: 0 <= i < |trace| ==> IsSigned(trace[i].Tokens(d).limit) && trace[i].Tokens(d).limit <= cfg.For(d).maximum
    ensures var s := Steps(cfg, cmds, d, trace);
      Allowed(trace[0].Tokens(d), cfg.For(d), s) && After(trace[0].Tokens(d), cfg.For(d), s) == trace[|cmds|].Tokens(d)
  {
    hide Does, StepOf, Modest, Apply, IsSigned, MovedBy, Steps;
    if cmds != [] {
      var n := |cmds| - 1;
      StepsAllowed(cfg, cmds[..n], d, trace[..n + 1], moved[..n]);
      IsStep(cmds[n], trace[n], trace[n + 1], d);
      StepsLast(cfg, cmds, d, trace);
      if n > 0 {
        StepTick(cmds[n - 1], trace[n - 1], cmds[n], trace[n], d);
      }
    }
  }

  lemma StepsLast(cfg: Config, cmds: seq<Cmd>, d: bool, trace: seq<Picture>)
    requires cfg.msecPerTick > 0 && |trace| == |cmds| + 1 && cmds != []
    requires forall k :: 0 <= k < |cmds| ==> cmds[k].Possible() && trace[k].cfg == cfg
    ensures Steps(cfg, cmds, d, trace)[..|cmds| - 1] == Steps(cfg, cmds[..|cmds| - 1], d, trace[..|cmds|])
  {
    hide StepOf;
  }

  lemma StepTick(c: Cmd, p: Picture, e: Cmd, q: Picture, d: bool)
    requires p.cfg != null && p.cfg == q.cfg && p.cfg.msecPerTick > 0 && c.Possible() && e.Possible() && c.now <= e.now
    ensures StepOf(c, p, d).tick <= StepOf(e, q, d).tick
  {
    TickGrows(c.now, e.now, p.cfg.msecPerTick);
  }

  lemma IsWithin(cfg: Config, cmds: seq<Cmd>, d: bool, trace: seq<Picture>, moved: seq<nat>)
    requires cfg.Valid() && InOrder(cmds) && Traced(cfg, cmds, d, trace, moved)
    requires forall i :: 0 <= i < |trace| ==> IsSigned(trace[i].Tokens(d).limit) && trace[i].Tokens(d).limit <= cfg.For(d).maximum
    ensures Within(cfg.For(d), cfg.msecPerTick, cmds, d, moved)
  {
    hide Tick, Allowed, After, Does, Sum, Given, Bytes, Steps;
    var s := Steps(cfg, cmds, d, trace);
    StepsAllowed(cfg, cmds, d, trace, moved);
    forall i, j | 0 <= i < j <= |cmds|
      ensures Sum(moved[i..j]) <= cfg.For(d).maximum + (Tick(cmds[j - 1].now, cfg.msecPerTick) - Tick(cmds[i].now, cfg.msecPerTick)) * cfg.For(d).rate + Given(cmds[i..j], d)
    {
      OneWindow(trace[0].Tokens(d), cfg.For(d), s, cmds, moved, d, i, j);
    }
  }

  lemma OneWindow(start: Bucket, c: Rule, steps: seq<Step>, cmds: seq<Cmd>, moved: seq<nat>, d: bool, i: nat, j: nat)
    requires c.Valid() && IsSigned(start.limit) && start.limit <= c.maximum && Allowed(start, c, steps)
    requires i < j <= |steps| == |cmds| == |moved|
    requires forall k :: 0 <= k < |steps| ==> steps[k].moved == moved[k]
    requires forall k :: 0 <= k < |steps| ==>
      steps[k].charged == 0 || (cmds[k].what.Charge? && cmds[k].what.isWrite == d && steps[k].charged == cmds[k].what.bytes)
    ensures Sum(moved[i..j]) <= c.maximum + (steps[j - 1].tick - steps[i].tick) * c.rate + Given(cmds[i..j], d)
  {
    hide Allowed, Moved, Refunded, Sum, Given;
    BetweenTwo(start, c, steps, i, j);
    Summed(steps[i..j], moved[i..j]);
    GivenBack(cmds[i..j], steps[i..j], d);
  }

  lemma BetweenTwo(start: Bucket, c: Rule, steps: seq<Step>, i: nat, j: nat)
    requires c.Valid() && IsSigned(start.limit) && start.limit <= c.maximum && Allowed(start, c, steps)
    requires i < j <= |steps|
    ensures Moved(steps[i..j]) <= c.maximum + (steps[j - 1].tick - steps[i].tick) * c.rate + Refunded(steps[i..j])
  {
    hide Allowed, After, Moved, Refunded;
    AllowedUpTo(start, c, steps, j);
    Window(start, c, steps[..j], i);
    assert steps[..j][i..] == steps[i..j];
  }

  lemma {:induction false} AllowedUpTo(start: Bucket, c: Rule, steps: seq<Step>, j: nat)
    requires Allowed(start, c, steps) && j <= |steps|
    ensures Allowed(start, c, steps[..j])
  {
    if j < |steps| {
      AllowedUpTo(start, c, steps[..|steps| - 1], j);
      assert steps[..|steps| - 1][..j] == steps[..j];
    } else {
      assert steps[..j] == steps;
    }
  }

  lemma {:induction false} Summed(steps: seq<Step>, moved: seq<nat>)
    requires |moved| == |steps| && forall i :: 0 <= i < |steps| ==> steps[i].moved == moved[i]
    ensures Sum(moved) == Moved(steps)
  {
    if steps != [] {
      Summed(steps[..|steps| - 1], moved[..|steps| - 1]);
    }
  }

  // A step gives back no more than its command.
  lemma {:induction false} GivenBack(cmds: seq<Cmd>, steps: seq<Step>, d: bool)
    requires |cmds| == |steps|
    requires forall i :: 0 <= i < |steps| ==>
      steps[i].charged == 0 || (cmds[i].what.Charge? && cmds[i].what.isWrite == d && steps[i].charged == cmds[i].what.bytes)
    ensures Refunded(steps) <= Given(cmds, d)
  {
    if steps != [] {
      GivenBack(cmds[..|cmds| - 1], steps[..|steps| - 1], d);
    }
  }
}
