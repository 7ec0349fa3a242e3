// A rate-limited bufferevent: its limits, its suspensions and its refill timer
// (bufferevent_get_rlim_max_, bufferevent_decrement_*, bev_refill_callback_,
// bufferevent_set_rate_limit).
module RateLimit {
  import opened TokenBucket

  // struct ev_token_bucket_cfg: what holds for reading, and for writing.
  class Config {
    const read: Rule
    const write: Rule
    const msecPerTick: nat

    constructor (read: Rule, write: Rule, msecPerTick: nat)
      ensures this.read == read && this.write == write && this.msecPerTick == msecPerTick
    {
      this.read, this.write, this.msecPerTick := read, write, msecPerTick;
    }

    function For(isWrite: bool): Rule {
      if isWrite then write else read
    }

    predicate Valid() {
      read.Valid() && write.Valid() && msecPerTick > 0
    }
  }

  // ev_token_bucket_cfg_new; a configuration is made exactly when its rates and bursts make sense.
  method NewConfig(readRate: nat, readBurst: nat, writeRate: nat, writeBurst: nat, sec: nat, usec: nat) returns (c: Config?)
    ensures c != null <==> 1 <= readRate <= readBurst < TWO_63 && 1 <= writeRate <= writeBurst < TWO_63
    ensures c != null ==> c.read == Rule(readBurst, readRate) && c.write == Rule(writeBurst, writeRate)
    ensures c != null && 0 < sec * 1000 + usec / 1000 < TWO_32 && usec < 1_000_000 ==> c.Valid() && c.msecPerTick == sec * 1000 + usec / 1000
  {
    if readRate > readBurst || writeRate > writeBurst || readRate < 1 || writeRate < 1 {
      return null;
    }
    if readRate >= TWO_63 || writeRate >= TWO_63 || readBurst >= TWO_63 || writeBurst >= TWO_63 {
      return null;
    }
    c := new Config(Rule(readBurst, readRate), Rule(writeBurst, writeRate), (sec * 1000 + usec % 0x10_0000 / 1000) % TWO_32);
  }

  // Why reading or writing is suspended: the BEV_SUSPEND_ bits.
  datatype Why = Watermark | Bandwidth | GroupBandwidth | Lookup | FilterRead

  // What the group allows.
  datatype Group = NoGroup | Closed | Open(limit: int, members: nat, minShare: nat)

  // C's division truncates toward zero.
  function Truncated(a: int, n: nat): int
    requires n > 0
  {
    if a >= 0 then a / n else -(-a / n)
  }

  // A member's share of an open group's limit.
  function Share(g: Group): int
    requires g.Open? && g.members > 0
  {
    var share := Truncated(g.limit, g.members);
    if share < g.minShare then g.minShare else share
  }

  // A share times the number of members makes up the limit, but for what is left over, unless it is less than
  // every member is given anyway.
  lemma ShareExact(limit: int, members: nat, minShare: nat)
    requires members > 0
    ensures var s := Share(Open(limit, members, minShare));
      s >= minShare && limit < (s + 1) * members && (s > minShare ==> s * members <= limit)
  {
    var q := Truncated(limit, members);
    if limit >= 0 {
      assert limit == q * members + limit % members;
      Products(q + 1, Share(Open(limit, members, minShare)) + 1, members);
    } else {
      assert q <= 0;
      Products(1, minShare + 1, members);
    }
  }

  lemma Products(a: int, b: int, n: nat)
    requires a <= b
    ensures a * n <= b * n
  {
  }

  // How much may be moved at once, out of `own`.
  function Allowance(own: int, g: Group): nat
    requires g.Open? ==> g.members > 0
  {
    if own <= 0 || g.Closed? then 0 else if g.Open? && Share(g) < own then Share(g) else own
  }

  // It is nothing for a closed group or an exhausted limit, else the less of the own limit and the share.
  lemma AllowanceExact(own: int, g: Group)
    requires g.Open? ==> g.members > 0
    ensures Allowance(own, g) > 0 ==> own > 0 && !g.Closed? && Allowance(own, g) <= own && (g.Open? ==> Allowance(own, g) <= Share(g))
    ensures own > 0 && !g.Closed? ==> Allowance(own, g) == own || (g.Open? && Allowance(own, g) == Share(g))
  {
  }

  class Bufferevent {
    var limited: bool              // rate_limiting is set
    var cfg: Config?
    var readLimit: int
    var writeLimit: int
    var lastUpdated: nat
    var readSuspended: set<Why>
    var writeSuspended: set<Why>
    const maxSingleRead: nat
    const maxSingleWrite: nat
    // The refill timer: waiting for its time, its callback queued, its callback running.
    var pending: bool
    var queued: bool
    var executing: bool

    function Limit(isWrite: bool): int
      reads this
    {
      if isWrite then writeLimit else readLimit
    }

    function Suspended(isWrite: bool): set<Why>
      reads this
    {
      if isWrite then writeSuspended else readSuspended
    }

    function Tokens(isWrite: bool): Bucket
      reads this
    {
      Bucket(Limit(isWrite), lastUpdated)
    }

    // A limit in order: what is exhausted is suspended, and what is suspended will be refilled.
    predicate Cared(isWrite: bool)
      reads this
      requires cfg != null
    {
      && IsSigned(Limit(isWrite)) && Limit(isWrite) <= cfg.For(isWrite).maximum
      && (Limit(isWrite) <= 0 ==> Bandwidth in Suspended(isWrite))
      && (Bandwidth in Suspended(isWrite) ==> pending || queued || executing)
    }

    ghost predicate Valid()
      reads this
    {
      && (cfg != null ==> limited && cfg.Valid() && Cared(false) && Cared(true))
      && (cfg == null ==> Bandwidth !in readSuspended && Bandwidth !in writeSuspended)
      && (!limited ==> !pending && !queued)
    }

    constructor (maxRead: nat, maxWrite: nat)
      ensures Valid() && !limited && cfg == null && readSuspended == writeSuspended == {} && !pending && !queued && !executing
      ensures maxSingleRead == maxRead && maxSingleWrite == maxWrite
    {
      limited, cfg, readLimit, writeLimit, lastUpdated := false, null, 0, 0, 0;
      readSuspended, writeSuspended, maxSingleRead, maxSingleWrite := {}, {}, maxRead, maxWrite;
      pending, queued, executing := false, false, false;
    }

    // bufferevent_suspend_read_, bufferevent_suspend_write_
    method Suspend(isWrite: bool, why: Why)
      modifies this`readSuspended, this`writeSuspended
      ensures Suspended(isWrite) == old(Suspended(isWrite)) + {why} && Suspended(!isWrite) == old(Suspended(!isWrite))
    {
      if isWrite {
        writeSuspended := writeSuspended + {why};
      } else {
        readSuspended := readSuspended + {why};
      }
    }

    method Unsuspend(isWrite: bool, why: Why)
      modifies this`readSuspended, this`writeSuspended
      ensures Suspended(isWrite) == old(Suspended(isWrite)) - {why} && Suspended(!isWrite) == old(Suspended(!isWrite))
    {
      if isWrite {
        writeSuspended := writeSuspended - {why};
      } else {
        readSuspended := readSuspended - {why};
      }
    }

    // event_add on the timer: a callback not yet begun is put off.
    method AddTimer()
      modifies this`pending, this`queued
      ensures pending && !queued
    {
      pending, queued := true, false;
    }

    // event_del on the timer; it does not wait for a running callback, the event has EV_FINALIZE.
    method DelTimer()
      modifies this`pending, this`queued
      ensures !pending && !queued
    {
      pending, queued := false, false;
    }

    // ev_token_bucket_update_
    method UpdateTokens(tick: nat)
      requires cfg != null && cfg.Valid() && tick < TWO_32
      modifies this`readLimit, this`writeLimit, this`lastUpdated
      ensures forall w :: Tokens(w) == Update(old(Tokens(w)), cfg.For(w), tick)
    {
      var n := Ticks(lastUpdated, tick);
      if n == 0 || n > INT_MAX {
        return;
      }
      readLimit := Refill(readLimit, cfg.read.maximum, cfg.read.rate, n);
      writeLimit := Refill(writeLimit, cfg.write.maximum, cfg.write.rate, n);
      lastUpdated := tick;
    }

    // bufferevent_update_buckets
    method UpdateBuckets(now: nat)
      requires cfg != null && cfg.Valid() && now < TWO_64
      modifies this`readLimit, this`writeLimit, this`lastUpdated
      ensures old(Valid()) ==> Valid()
      ensures forall w :: Tokens(w) == Update(old(Tokens(w)), cfg.For(w), Tick(now, cfg.msecPerTick) % TWO_32)
    {
      var tick := GetTick(now, cfg.msecPerTick);
      Residue(now, now);
      if old(Valid()) {
        Raised(Tokens(false), cfg.read, tick);
        Raised(Tokens(true), cfg.write, tick);
      }
      if tick != lastUpdated {
        UpdateTokens(tick);
      } else {
        assert Ticks(lastUpdated, tick) == 0;
      }
    }

    // bufferevent_get_rlim_max_: how much may be read (or written) now.
    method GetMax(isWrite: bool, now: nat, group: Group) returns (most: nat)
      requires Valid() && now < TWO_64
      requires (group.NoGroup? || limited) && (group.Open? ==> group.members > 0)
      modifies this
      ensures Valid() && limited == old(limited) && cfg == old(cfg)
      ensures pending == old(pending) && queued == old(queued) && executing == old(executing)
      ensures forall w :: Suspended(w) == old(Suspended(w)) + if group.Closed? && w == isWrite then {GroupBandwidth} else {}
      ensures cfg == null ==> forall w :: Tokens(w) == old(Tokens(w))
      ensures cfg != null ==> forall w :: Tokens(w) == Update(old(Tokens(w)), cfg.For(w), Tick(now, cfg.msecPerTick) % TWO_32)
      ensures most == Allowance(if cfg != null then Limit(isWrite) else if isWrite then maxSingleWrite else maxSingleRead, group)
    {
      var mostSoFar: int := if isWrite then maxSingleWrite else maxSingleRead;
      if !limited {
        return mostSoFar;
      }
      if cfg != null {
        UpdateBuckets(now);
        mostSoFar := Limit(isWrite);
      }
      if !group.NoGroup? {
        var share: int;
        if group.Closed? {
          Suspend(isWrite, GroupBandwidth);
          share := 0;
        } else {
          share := Truncated(group.limit, group.members);
          if share < group.minShare {
            share := group.minShare;
          }
        }
        if mostSoFar > share {
          mostSoFar := share;
        }
      }
      most := if mostSoFar < 0 then 0 else mostSoFar;
    }

    // bufferevent_decrement_read_buckets_, bufferevent_decrement_write_buckets_, as far as the
    // bufferevent's own limit goes.
    method Decrement(isWrite: bool, bytes: int)
      requires Valid() && (cfg != null ==> IsSigned(Limit(isWrite) - bytes))
      modifies this
      ensures Valid() <==> cfg == null || Limit(isWrite) <= cfg.For(isWrite).maximum
      ensures limited == old(limited) && cfg == old(cfg) && lastUpdated == old(lastUpdated)
      ensures Limit(!isWrite) == old(Limit(!isWrite)) && Suspended(!isWrite) == old(Suspended(!isWrite))
      ensures Limit(isWrite) == old(Limit(isWrite)) - if cfg != null then bytes else 0
      ensures Suspended(isWrite) - {Bandwidth} == old(Suspended(isWrite)) - {Bandwidth}
      ensures cfg != null ==> (Bandwidth in Suspended(isWrite) <==> Limit(isWrite) <= 0)
      ensures executing == old(executing)
      ensures if cfg != null && Limit(isWrite) <= 0 then pending && !queued
              else if cfg != null && Bandwidth in old(Suspended(isWrite)) && Bandwidth !in Suspended(!isWrite) then !pending && !queued
              else pending == old(pending) && queued == old(queued)
    {
      if !limited {
        return;
      }
      if cfg != null {
        Subtract(isWrite, bytes);
        if Limit(isWrite) <= 0 {
          Suspend(isWrite, Bandwidth);
          AddTimer();
        } else if Bandwidth in Suspended(isWrite) {
          if Bandwidth !in Suspended(!isWrite) {
            DelTimer();
          }
          Unsuspend(isWrite, Bandwidth);
        }
      }
    }

    method Subtract(isWrite: bool, bytes: int)
      modifies this`readLimit, this`writeLimit
      ensures Limit(isWrite) == old(Limit(isWrite)) - bytes && Limit(!isWrite) == old(Limit(!isWrite))
    {
      if isWrite {
        writeLimit := writeLimit - bytes;
      } else {
        readLimit := readLimit - bytes;
      }
    }

    // bufferevent_decrement_read_limit, bufferevent_decrement_write_limit: by hand.
    method DecrementLimit(isWrite: bool, decr: int)
      requires Valid() && cfg != null && IsSigned(Limit(isWrite) - decr)
      modifies this
      ensures cfg == old(cfg) && (Valid() <==> Limit(isWrite) <= cfg.For(isWrite).maximum)
      ensures executing == old(executing) && limited == old(limited) && lastUpdated == old(lastUpdated)
      ensures Limit(!isWrite) == old(Limit(!isWrite)) && Suspended(!isWrite) == old(Suspended(!isWrite))
      ensures Limit(isWrite) == old(Limit(isWrite)) - decr
      ensures Suspended(isWrite) - {Bandwidth} == old(Suspended(isWrite)) - {Bandwidth}
      ensures (old(Limit(isWrite)) <= 0) != (Limit(isWrite) <= 0) ==> (Bandwidth in Suspended(isWrite) <==> Limit(isWrite) <= 0)
      ensures (old(Limit(isWrite)) <= 0) == (Limit(isWrite) <= 0) ==>
                Suspended(isWrite) == old(Suspended(isWrite)) && pending == old(pending) && queued == old(queued)
      ensures old(Limit(isWrite)) > 0 && Limit(isWrite) <= 0 ==> pending && !queued
      ensures old(Limit(isWrite)) <= 0 && Limit(isWrite) > 0 ==>
                if Bandwidth in Suspended(!isWrite) then pending == old(pending) && queued == old(queued) else !pending && !queued
    {
      var oldLimit := Limit(isWrite);
      Subtract(isWrite, decr);
      var newLimit := Limit(isWrite);
      if oldLimit > 0 && newLimit <= 0 {
        Suspend(isWrite, Bandwidth);
        AddTimer();
      } else if oldLimit <= 0 && newLimit > 0 {
        if Bandwidth !in Suspended(!isWrite) {
          DelTimer();
        }
        Unsuspend(isWrite, Bandwidth);
      }
    }

    // The event loop: the timer's time has come, and its callback is begun.
    method Expire()
      requires Valid() && pending
      modifies this`pending, this`queued
      ensures Valid() && !pending && queued
    {
      pending, queued := false, true;
    }

    method Begin()
      requires Valid() && queued && !executing
      modifies this`queued, this`executing
      ensures Valid() && executing && !queued
    {
      queued, executing := false, true;
    }

    // One direction of bev_refill_callback_, once the bucket is up to date.
    method Release(isWrite: bool) returns (again: bool)
      modifies this`readSuspended, this`writeSuspended
      ensures again <==> Bandwidth in old(Suspended(isWrite)) && Limit(isWrite) <= 0
      ensures Suspended(isWrite) == if Limit(isWrite) > 0 then old(Suspended(isWrite)) - {Bandwidth} else old(Suspended(isWrite))
      ensures Suspended(!isWrite) == old(Suspended(!isWrite))
    {
      again := false;
      if Bandwidth in Suspended(isWrite) {
        if Limit(isWrite) > 0 {
          Unsuspend(isWrite, Bandwidth);
        } else {
          again := true;
        }
      }
    }

    // bev_refill_callback_
    method RefillCallback(now: nat)
      requires Valid() && executing && now < TWO_64
      modifies this
      ensures Valid() && !executing && limited == old(limited) && cfg == old(cfg)
      ensures cfg == null ==> forall w :: Tokens(w) == old(Tokens(w)) && Suspended(w) == old(Suspended(w))
      ensures cfg == null ==> pending == old(pending) && queued == old(queued)
      ensures cfg != null ==> forall w :: Tokens(w) == Update(old(Tokens(w)), cfg.For(w), Tick(now, cfg.msecPerTick) % TWO_32)
      ensures cfg != null ==> forall w :: Suspended(w) == if Limit(w) > 0 then old(Suspended(w)) - {Bandwidth} else old(Suspended(w))
      ensures cfg != null && (Limit(false) <= 0 || Limit(true) <= 0) ==> pending
      ensures if cfg != null && (Bandwidth in Suspended(false) || Bandwidth in Suspended(true)) then pending && !queued
              else pending == old(pending) && queued == old(queued)
    {
      if !limited || cfg == null {
        executing := false;
        return;
      }
      UpdateBuckets(now);
      var againRead := Release(false);
      var againWrite := Release(true);
      if againRead || againWrite {
        AddTimer();
      }
      executing := false;
    }

    // bufferevent_set_rate_limit
    method SetRateLimit(c: Config?, now: nat)
      requires Valid() && now < TWO_64 && (c != null ==> c.Valid())
      modifies this
      ensures Valid() && cfg == c && executing == old(executing)
      ensures forall w :: Suspended(w) - {Bandwidth} == old(Suspended(w)) - {Bandwidth}
      ensures c != null && c != old(cfg) ==> forall w ::
        && Limit(w) == (if old(cfg) != null then Min(old(Limit(w)), c.For(w).maximum) else c.For(w).rate)
        && (Bandwidth in Suspended(w) <==> Limit(w) <= 0)
      ensures c != null && c == old(cfg) ==> forall w :: Tokens(w) == old(Tokens(w)) && Suspended(w) == old(Suspended(w))
      ensures c != null && c == old(cfg) ==> pending == old(pending) && queued == old(queued)
      ensures c == null ==> !pending && !queued && forall w :: Bandwidth !in Suspended(w) && Tokens(w) == old(Tokens(w))
      ensures c != null && c != old(cfg) ==> lastUpdated == if old(cfg) != null then old(lastUpdated) else GetTick(now, c.msecPerTick)
      ensures c != null && c != old(cfg) ==> !queued && (pending <==> Bandwidth in Suspended(false) || Bandwidth in Suspended(true))
    {
      hide Cared, GetTick;
      if c == null {
        if limited {
          ClearRateLimit();
        }
        return;
      }
      var tick := GetTick(now, c.msecPerTick);
      if limited && cfg == c {
        return;
      }
      Retune(c, tick);
    }

    // bufferevent_set_rate_limit, without a configuration.
    method ClearRateLimit()
      requires Valid()
      modifies this`cfg, this`readSuspended, this`writeSuspended, this`pending, this`queued
      ensures Valid() && cfg == null && !pending && !queued && forall w :: Suspended(w) == old(Suspended(w)) - {Bandwidth}
    {
      cfg := null;
      Unsuspend(false, Bandwidth);
      Unsuspend(true, Bandwidth);
      DelTimer();
    }

    // ... and with another one.
    method Retune(c: Config, tick: nat)
      requires Valid() && c.Valid()
      modifies this
      ensures Valid() && cfg == c && executing == old(executing)
      ensures forall w :: Suspended(w) == if Limit(w) <= 0 then old(Suspended(w)) + {Bandwidth} else old(Suspended(w)) - {Bandwidth}
      ensures forall w :: Limit(w) == if old(cfg) != null then Min(old(Limit(w)), c.For(w).maximum) else c.For(w).rate
      ensures lastUpdated == if old(cfg) != null then old(lastUpdated) else tick
      ensures !queued && (pending <==> Bandwidth in Suspended(false) || Bandwidth in Suspended(true))
    {
      limited := true;
      var reinit := cfg != null;
      cfg := c;
      InitTokens(tick, reinit);
      DelTimer();
      var readStopped := Settle(false);
      var writeStopped := Settle(true);
      if readStopped || writeStopped {
        AddTimer();
      }
    }

    // ev_token_bucket_init_; on a change of configuration the tick of the last update stays.
    method InitTokens(tick: nat, reinit: bool)
      requires cfg != null && cfg.Valid()
      modifies this`readLimit, this`writeLimit, this`lastUpdated
      ensures forall w :: Limit(w) == if reinit then Min(old(Limit(w)), cfg.For(w).maximum) else cfg.For(w).rate
      ensures lastUpdated == if reinit then old(lastUpdated) else tick
    {
      if reinit {
        if readLimit > cfg.read.maximum {
          readLimit := cfg.read.maximum;
        }
        if writeLimit > cfg.write.maximum {
          writeLimit := cfg.write.maximum;
        }
      } else {
        readLimit, writeLimit, lastUpdated := cfg.read.rate, cfg.write.rate, tick;
      }
    }

    method Settle(isWrite: bool) returns (stopped: bool)
      modifies this`readSuspended, this`writeSuspended
      ensures stopped <==> Limit(isWrite) <= 0
      ensures Suspended(isWrite) == if stopped then old(Suspended(isWrite)) + {Bandwidth} else old(Suspended(isWrite)) - {Bandwidth}
      ensures Suspended(!isWrite) == old(Suspended(!isWrite))
    {
      stopped := Limit(isWrite) <= 0;
      if stopped {
        Suspend(isWrite, Bandwidth);
      } else {
        Unsuspend(isWrite, Bandwidth);
      }
    }
  }

  // An update never takes anything away.
  lemma Raised(b: Bucket, c: Rule, tick: nat)
    requires c.Valid() && IsSigned(b.limit) && b.limit <= c.maximum
    ensures b.limit <= Update(b, c, tick).limit <= c.maximum && IsSigned(Update(b, c, tick).limit)
  {
    if !Idle(b.last, tick) {
      RefillExact(b.limit, c.maximum, c.rate, Ticks(b.last, tick));
    }
  }

  // With a refund that lifts a limit above its maximum, an update can overflow: a limit
  // that is not exhausted becomes negative.
  lemma RefundOverflows()
    ensures var c, b := Rule(0x4000_0000_0000_0000, 0x4000_0000_0000_0000), Bucket(0x4000_0000_0000_0001, 0);
      c.Valid() && IsSigned(b.limit) && b.limit > 0 && Update(b, c, 1).limit < 0
  {
    var c, b := Rule(0x4000_0000_0000_0000, 0x4000_0000_0000_0000), Bucket(0x4000_0000_0000_0001, 0);
    assert Ticks(0, 1) == 1;
    UnsignedGap(b.limit, c.maximum);
    Quotient(TWO_64 - 1, 1, c.rate);
  }

  // A bufferevent to which that happens: it is given a limit and a refund of one byte more. At the next
  // update its limit is negative, without it being suspended.
  method RefundRun() returns (b: Bufferevent)
    ensures b.cfg != null && b.cfg.Valid() && b.cfg.read == Rule(0x4000_0000_0000_0000, 0x4000_0000_0000_0000)
    ensures b.Limit(false) < 0 && Bandwidth !in b.Suspended(false) && !b.pending && !b.queued && !b.executing
  {
    hide Update;
    b := new Bufferevent(16384, 16384);
    var rule := Rule(0x4000_0000_0000_0000, 0x4000_0000_0000_0000);
    var c := new Config(rule, rule, 1000);
    b.SetRateLimit(c, 0);
    b.DecrementLimit(false, -1);
    assert b.Tokens(false) == Bucket(0x4000_0000_0000_0001, 0);
    RefundOverflows();
    b.UpdateBuckets(1000);
    assert b.Tokens(false) == Update(Bucket(0x4000_0000_0000_0001, 0), rule, 1);
  }

  // A change of the tick length leaves the last update in ticks of the old length (RetunedExact says
  // when that does no harm). After a change from a second to a tenth of one, at time 1,700,000,000 s,
  // the bucket is not refilled for the next 24 hours, whatever its rate.
  lemma StaleTick(limit: int, c: Rule, msec: nat)
    requires 1_700_000_000_000 <= msec <= 1_700_086_400_000
    ensures var b := Bucket(limit, GetTick(1_700_000_000_000, 1000)); Update(b, c, GetTick(msec, 100)) == b
  {
    Residue(1_700_000_000_000, 1_700_000_000_000);
    Residue(msec, msec);
    var t := msec / 100;
    assert 17_000_000_000 <= t <= 17_000_864_000;
    Remainder(t, 3, t - 3 * TWO_32);
    assert GetTick(1_700_000_000_000, 1000) == 1_700_000_000;
    assert Ticks(1_700_000_000, GetTick(msec, 100)) == t - 3 * TWO_32 - 1_700_000_000;
  }

  // A bufferevent that is left suspended by it: it may read 1000 bytes a second, reads them, and is
  // given a rate of 100 bytes a tenth of a second. Its refill timer runs, as often as it may in the
  // next 24 hours, without releasing it.
  method StaleRun(times: seq<nat>) returns (b: Bufferevent)
    requires forall i :: 0 <= i < |times| ==> 1_700_000_000_000 <= times[i] <= 1_700_086_400_000
    ensures b.Valid() && b.cfg != null && b.cfg.read == Rule(100, 100) && b.cfg.msecPerTick == 100
    ensures b.Limit(false) == 0 && Bandwidth in b.Suspended(false) && b.pending
  {
    hide Update, GetTick, Ticks;
    b := new Bufferevent(16384, 16384);
    var slow := new Config(Rule(1000, 1000), Rule(1000, 1000), 1000);
    var fast := new Config(Rule(100, 100), Rule(100, 100), 100);
    b.SetRateLimit(slow, 1_700_000_000_000);
    b.Decrement(false, 1000);
    b.SetRateLimit(fast, 1_700_000_000_000);
    for i := 0 to |times|
      invariant fresh(b) && b.Valid() && b.cfg == fast && b.Limit(false) == 0 && Bandwidth in b.Suspended(false)
      invariant b.pending && !b.executing && b.lastUpdated == GetTick(1_700_000_000_000, 1000)
    {
      b.Expire();
      b.Begin();
      StaleTick(0, fast.read, times[i]);
      TickNumber(times[i], 100);
      assert b.Tokens(false) == Bucket(0, GetTick(1_700_000_000_000, 1000));
      b.RefillCallback(times[i]);
      assert b.Tokens(false) == Bucket(0, GetTick(1_700_000_000_000, 1000));
    }
  }
}
