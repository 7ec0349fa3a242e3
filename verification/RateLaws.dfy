// Nothing gets lost: the tokens of every tick end up in what is moved, charged or left, unless the
// bucket was full.
module RateLaws {
  import opened TokenBucket
  import opened RateLimit
  import opened RateRun

  // The command brings the limits up to date.
  predicate Looks(c: Cmd, p: Picture) {
    c.what.Move? || c.what.Look? || (c.what.Callback? && p.executing)
  }

  // The tick of the last of the first n commands that did; at first it is `from`.
  ghost function LookTick(cmds: seq<Cmd>, trace: seq<Picture>, m: nat, from: nat, n: nat): nat
    requires m > 0 && n <= |cmds| < |trace|
  {
    if n == 0 then from
    else if Looks(cmds[n - 1], trace[n - 1]) then Tick(cmds[n - 1].now, m)
    else LookTick(cmds, trace, m, from, n - 1)
  }

  // What the first n commands have taken from the limit of direction d by hand.
  ghost function Taken(cmds: seq<Cmd>, trace: seq<Picture>, d: bool, n: nat): int
    requires n <= |cmds| < |trace|
  {
    if n == 0 then 0
    else Taken(cmds, trace, d, n - 1) + if cmds[n - 1].what.Charge? then trace[n - 1].Tokens(d).limit - trace[n].Tokens(d).limit else 0
  }

  // No look is more than the largest int of ticks behind the one before.
  ghost predicate Regular(cmds: seq<Cmd>, trace: seq<Picture>, m: nat, from: nat)
    requires m > 0 && |trace| == |cmds| + 1
  {
    forall k :: 0 <= k < |cmds| && Looks(cmds[k], trace[k]) ==>
      LookTick(cmds, trace, m, from, k) <= Tick(cmds[k].now, m) <= LookTick(cmds, trace, m, from, k) + INT_MAX
  }

  // Some look found the limit at its maximum.
  ghost predicate WasFull(c: Rule, cmds: seq<Cmd>, trace: seq<Picture>, d: bool, moved: seq<nat>)
    requires |trace| == |cmds| + 1 && |moved| == |cmds|
  {
    exists k :: 0 <= k < |cmds| && Looks(cmds[k], trace[k]) && trace[k + 1].Tokens(d).limit + moved[k] == c.maximum
  }

  lemma StepIs(cfg: Config, c: Cmd, p: Picture, q: Picture, d: bool)
    requires p.cfg == cfg && cfg.msecPerTick > 0 && c.Possible() && Does(c, p, q)
    ensures var s := StepOf(c, p, d);
      && s.tick == Tick(c.now, cfg.msecPerTick) && (s.look <==> Looks(c, p)) && s.moved == MovedBy(c, p, d)
      && s.charged == (if c.what.Charge? then p.Tokens(d).limit - q.Tokens(d).limit else 0)
      && (s.look ==> s.charged == 0)
  {
    hide Update, Tick, Allowance;
  }

  lemma {:induction false} SameTotals(cfg: Config, cmds: seq<Cmd>, d: bool, trace: seq<Picture>, moved: seq<nat>, steps: seq<Step>, from: nat, n: nat)
    requires cfg.msecPerTick > 0 && InOrder(cmds) && Traced(cfg, cmds, d, trace, moved) && n <= |cmds|
    requires |steps| == |cmds| && forall k :: 0 <= k < |cmds| ==> steps[k] == StepOf(cmds[k], trace[k], d)
    ensures Seen(from, steps[..n]) == LookTick(cmds, trace, cfg.msecPerTick, from, n) && Charged(steps[..n]) == Taken(cmds, trace, d, n)
    ensures Regular(cmds, trace, cfg.msecPerTick, from) ==> Dense(from, steps[..n])
  {
    hide Does, StepOf, Looks, MovedBy;
    if n > 0 {
      SameTotals(cfg, cmds, d, trace, moved, steps, from, n - 1);
      assert steps[..n][..n - 1] == steps[..n - 1] && Does(cmds[n - 1], trace[n - 1], trace[n]);
      StepIs(cfg, cmds[n - 1], trace[n - 1], trace[n], d);
    } else {
      assert steps[..0] == [];
    }
  }

  // A step of the bucket that found it full is a command that did.
  lemma FullThen(cfg: Config, cmds: seq<Cmd>, d: bool, trace: seq<Picture>, moved: seq<nat>, steps: seq<Step>, b: Bucket, k: nat)
    requires cfg.Valid() && InOrder(cmds) && Traced(cfg, cmds, d, trace, moved) && k < |cmds|
    requires |steps| == |cmds| && steps[k] == StepOf(cmds[k], trace[k], d)
    requires After(b, cfg.For(d), steps[..k]) == trace[k].Tokens(d) && FullAt(b, cfg.For(d), steps, k)
    ensures Looks(cmds[k], trace[k]) && trace[k + 1].Tokens(d).limit + moved[k] == cfg.For(d).maximum
  {
    hide Does, Looks, MovedBy, StepOf, Update, After;
    assert Does(cmds[k], trace[k], trace[k + 1]);
    StepIs(cfg, cmds[k], trace[k], trace[k + 1], d);
    IsStep(cmds[k], trace[k], trace[k + 1], d);
  }

  lemma {:induction false} AfterIs(cfg: Config, cmds: seq<Cmd>, d: bool, trace: seq<Picture>, moved: seq<nat>, steps: seq<Step>, n: nat)
    requires cfg.Valid() && InOrder(cmds) && Traced(cfg, cmds, d, trace, moved) && n <= |cmds|
    requires |steps| == |cmds| && forall k :: 0 <= k < |cmds| ==> steps[k] == StepOf(cmds[k], trace[k], d)
    ensures After(trace[0].Tokens(d), cfg.For(d), steps[..n]) == trace[n].Tokens(d)
  {
    hide Does, Looks, MovedBy, StepOf, Apply;
    if n > 0 {
      AfterIs(cfg, cmds, d, trace, moved, steps, n - 1);
      assert steps[..n][..n - 1] == steps[..n - 1] && Does(cmds[n - 1], trace[n - 1], trace[n]);
      IsStep(cmds[n - 1], trace[n - 1], trace[n], d);
    } else {
      assert steps[..0] == [];
    }
  }

  // A run under one configuration, of a bufferevent whose limits were last brought up to date in tick `from`: what is
  // left of a limit, and what has been moved and taken, is what there was at first and the tokens of all
  // ticks up to the last look, unless some look found the limit at its maximum; then it is no more.
  lemma NothingLost(cfg: Config, cmds: seq<Cmd>, d: bool, trace: seq<Picture>, moved: seq<nat>, from: nat)
    requires cfg.Valid() && InOrder(cmds) && Traced(cfg, cmds, d, trace, moved)
    requires forall i :: 0 <= i < |trace| ==> IsSigned(trace[i].Tokens(d).limit) && trace[i].Tokens(d).limit <= cfg.For(d).maximum
    requires trace[0].Tokens(d).last == from % TWO_32 && Regular(cmds, trace, cfg.msecPerTick, from)
    ensures var n, c := |cmds|, cfg.For(d);
      var had := trace[0].Tokens(d).limit + (LookTick(cmds, trace, cfg.msecPerTick, from, n) - from) * c.rate;
      && trace[n].Tokens(d).limit + Sum(moved) + Taken(cmds, trace, d, n) <= had
      && (!WasFull(c, cmds, trace, d, moved) ==> trace[n].Tokens(d).limit + Sum(moved) + Taken(cmds, trace, d, n) == had)
  {
    hide Does, Looks, MovedBy, StepOf, Allowed, After, Regular, Moved, Charged, Sum, Taken, Seen, LookTick, Dense, FullAt;
    var steps := Steps(cfg, cmds, d, trace);
    StepsAllowed(cfg, cmds, d, trace, moved);
    SameTotals(cfg, cmds, d, trace, moved, steps, from, |cmds|);
    assert steps[..|cmds|] == steps;
    StepsMoved(cfg, cmds, d, trace, moved, steps);
    Conserved(trace[0].Tokens(d), cfg.For(d), steps, from);
    if Full(trace[0].Tokens(d), cfg.For(d), steps) {
      var k :| 0 <= k < |steps| && FullAt(trace[0].Tokens(d), cfg.For(d), steps, k);
      AfterIs(cfg, cmds, d, trace, moved, steps, k);
      FullThen(cfg, cmds, d, trace, moved, steps, trace[0].Tokens(d), k);
    }
  }

  lemma StepsMoved(cfg: Config, cmds: seq<Cmd>, d: bool, trace: seq<Picture>, moved: seq<nat>, steps: seq<Step>)
    requires cfg.msecPerTick > 0 && InOrder(cmds) && Traced(cfg, cmds, d, trace, moved)
    requires |steps| == |cmds| && forall k :: 0 <= k < |cmds| ==> steps[k] == StepOf(cmds[k], trace[k], d)
    ensures Moved(steps) == Sum(moved)
  {
    hide Does, Looks, MovedBy, StepOf, Sum, Moved;
    forall k | 0 <= k < |steps| ensures steps[k].moved == moved[k] {
      assert Does(cmds[k], trace[k], trace[k + 1]);
      StepIs(cfg, cmds[k], trace[k], trace[k + 1], d);
    }
    Summed(steps, moved);
  }
}
