// Token buckets in machine arithmetic (ev_token_bucket_update_, ev_token_bucket_get_tick_),
// and how much a bucket lets through in any window of time.
module TokenBucket {
  const TWO_32: int := 0x1_0000_0000
  const TWO_63: int := 0x8000_0000_0000_0000
  const TWO_64: int := 0x1_0000_0000_0000_0000
  const INT_MAX: int := 0x7fff_ffff

  // Conversion to size_t and to ev_ssize_t.
  function Unsigned(x: int): (r: nat)
    ensures r < TWO_64
  {
    x % TWO_64
  }

  function Signed(x: int): (r: int)
    ensures -TWO_63 <= r < TWO_63
  {
    if Unsigned(x) < TWO_63 then Unsigned(x) else Unsigned(x) - TWO_64
  }

  // An ev_ssize_t.
  predicate IsSigned(x: int) {
    -TWO_63 <= x < TWO_63
  }

  // One limit, after n ticks: the maximum if it is less than n * rate away.
  function Refill(limit: int, maximum: nat, rate: nat, n: nat): int
    requires n > 0
  {
    if Unsigned(maximum - Unsigned(limit)) / n < rate then Signed(maximum)
    else Signed(limit + Unsigned(n * rate))
  }

  function Min(a: int, b: int): int {
    if a < b then a else b
  }

  lemma Residue(x: int, y: int)
    requires 0 <= y < TWO_64 && (x == y || x == y + TWO_64 || x == y - TWO_64)
    ensures Unsigned(x) == y
  {
  }

  lemma UnsignedGap(limit: int, maximum: nat)
    requires IsSigned(limit) && maximum < TWO_63
    ensures Unsigned(maximum - Unsigned(limit)) == if limit <= maximum then maximum - limit else TWO_64 - (limit - maximum)
  {
    Residue(limit, if limit < 0 then limit + TWO_64 else limit);
    Residue(maximum - Unsigned(limit), if limit <= maximum then maximum - limit else TWO_64 - (limit - maximum));
  }

  lemma Quotient(d: nat, n: nat, rate: nat)
    requires n > 0
    ensures d / n < rate <==> d < n * rate
  {
    var q := d / n;
    assert q * n <= d < q * n + n;
    if q < rate {
      assert (q + 1) * n <= rate * n;
    } else {
      assert rate * n <= q * n;
    }
  }

  // The update that avoids overflow is the naive one, in unbounded numbers, exactly when
  // the limit is not above the maximum (or so many ticks passed that it makes no difference).
  lemma RefillExact(limit: int, maximum: nat, rate: nat, n: nat)
    requires IsSigned(limit) && maximum < TWO_63 && n > 0
    ensures Refill(limit, maximum, rate, n) == Min(maximum, limit + n * rate)
       <==> limit <= maximum || n * rate >= TWO_64 - (limit - maximum)
  {
    UnsignedGap(limit, maximum);
    var d := Unsigned(maximum - Unsigned(limit));
    Quotient(d, n, rate);
    if d < n * rate {
      Residue(maximum, maximum);
    } else {
      Residue(n * rate, n * rate);
      var sum := limit + n * rate;
      if sum < 0 {
        Residue(sum, sum + TWO_64);
      } else if sum < TWO_64 {
        Residue(sum, sum);
      } else {
        Residue(sum, sum - TWO_64);
      }
    }
  }

  // The ticks between two tick numbers, which wrap at 32 bits.
  function Ticks(last: nat, tick: nat): (n: nat)
    ensures n < TWO_32
  {
    (tick - last) % TWO_32
  }

  // ev_token_bucket_update_ does nothing in the same tick, or when time seems to go back.
  predicate Idle(last: nat, tick: nat) {
    Ticks(last, tick) == 0 || Ticks(last, tick) > INT_MAX
  }

  // ev_token_bucket_get_tick_, for a time of tv_sec * 1000 + tv_usec / 1000 milliseconds.
  function GetTick(msec: nat, msecPerTick: nat): (tick: nat)
    requires msecPerTick > 0
    ensures tick < TWO_32
  {
    Unsigned(msec) / msecPerTick % TWO_32
  }

  // One limit of a bucket, with the tick of its last update.
  datatype Bucket = Bucket(limit: int, last: nat)

  datatype Rule = Rule(maximum: nat, rate: nat) {
    // As ev_token_bucket_cfg_new accepts them.
    predicate Valid() {
      1 <= rate <= maximum < TWO_63
    }
  }

  function Update(b: Bucket, c: Rule, tick: nat): Bucket {
    if Idle(b.last, tick) then b else Bucket(Refill(b.limit, c.maximum, c.rate, Ticks(b.last, tick)), tick)
  }

  // No more ticks are credited than have passed since the bucket was looked at, however the
  // tick number wraps.
  lemma NoOvercredit(last: nat, seen: nat, now: nat)
    requires seen <= now && Idle(last, seen)
    ensures Idle(last, now) || Ticks(last, now) <= now - seen
  {
    var m, n := Ticks(last, seen), Ticks(last, now);
    assert n == (m + (now - seen)) % TWO_32 by {
      var q, p := (seen - last) / TWO_32, (now - last) / TWO_32;
      assert seen - last == q * TWO_32 + m && now - last == p * TWO_32 + n;
      assert m + (now - seen) == (p - q) * TWO_32 + n;
      Remainder(m + (now - seen), p - q, n);
    }
    if now - seen < n {
      assert m + (now - seen) < TWO_32 + n;
      var k := (m + (now - seen)) / TWO_32;
      assert m + (now - seen) == k * TWO_32 + n;
    }
  }

  lemma Remainder(x: int, q: int, r: nat)
    requires x == q * TWO_32 + r && r < TWO_32
    ensures x % TWO_32 == r
  {
    var p, s := x / TWO_32, x % TWO_32;
    assert (q - p) * TWO_32 == s - r;
  }

  // The ticks an update credits.
  function Credit(last: nat, tick: nat): nat {
    if Idle(last, tick) then 0 else Ticks(last, tick)
  }

  // The number of the tick at a time, not cut to 32 bits.
  function Tick(msec: nat, msecPerTick: nat): nat
    requires msecPerTick > 0
  {
    msec / msecPerTick
  }

  lemma TickNumber(msec: nat, m: nat)
    requires m > 0 && msec < TWO_64
    ensures GetTick(msec, m) == Tick(msec, m) % TWO_32
  {
    Residue(msec, msec);
  }

  // With one length of ticks, an update credits exactly the ticks that have passed.
  lemma CreditExact(t0: nat, t1: nat, m: nat)
    requires m > 0 && t0 <= t1 < TWO_64 && Tick(t1, m) - Tick(t0, m) <= INT_MAX
    ensures Tick(t0, m) <= Tick(t1, m) && Credit(GetTick(t0, m), GetTick(t1, m)) == Tick(t1, m) - Tick(t0, m)
  {
    TicksBetween(t0, m, t1, m);
    TickGrows(t0, t1, m);
    var d := Tick(t1, m) - Tick(t0, m);
    Remainder(d, 0, d);
  }

  lemma TicksBetween(t0: nat, m0: nat, t1: nat, m1: nat)
    requires m0 > 0 && m1 > 0 && t0 < TWO_64 && t1 < TWO_64
    ensures Ticks(GetTick(t0, m0), GetTick(t1, m1)) == (Tick(t1, m1) - Tick(t0, m0)) % TWO_32
  {
    TickNumber(t0, m0);
    TickNumber(t1, m1);
    Difference(Tick(t1, m1), Tick(t0, m0));
  }

  lemma Difference(x: nat, y: nat)
    ensures (x % TWO_32 - y % TWO_32) % TWO_32 == (x - y) % TWO_32
  {
    var p, q, r := x / TWO_32, y / TWO_32, (x - y) % TWO_32;
    var k := (x - y) / TWO_32;
    assert x % TWO_32 - y % TWO_32 == (k - p + q) * TWO_32 + r;
    Remainder(x % TWO_32 - y % TWO_32, k - p + q, r);
  }

  lemma TickGrows(a: nat, b: nat, m: nat)
    requires a <= b && m > 0
    ensures Tick(a, m) <= Tick(b, m)
  {
    var p, q := a / m, b / m;
    if q < p {
      assert (q + 1) * m <= p * m;
    }
  }

  // A bucket last updated at time t0 in ticks of m0, and then, after a change of the tick length, at
  // time t1 in ticks of m1. It is credited the ticks of the new length that passed in between if
  // and only if t0 has the same tick number in both lengths (or no tick passed, and the update
  // does nothing).
  lemma RetunedExact(t0: nat, m0: nat, t1: nat, m1: nat)
    requires m0 > 0 && m1 > 0 && t0 <= t1 < TWO_64 && Tick(t1, m1) - Tick(t0, m1) <= INT_MAX
    ensures Credit(GetTick(t0, m0), GetTick(t1, m1)) == Tick(t1, m1) - Tick(t0, m1)
       <==> GetTick(t0, m0) == GetTick(t0, m1) || (Tick(t1, m1) == Tick(t0, m1) && Idle(GetTick(t0, m0), GetTick(t0, m1)))
  {
    TickGrows(t0, t1, m1);
    CreditExact(t0, t1, m1);
    TickNumber(t0, m1);
    TickNumber(t1, m1);
    var a, b, c := GetTick(t0, m0), GetTick(t0, m1), GetTick(t1, m1);
    if Ticks(a, c) == Ticks(b, c) {
      SameStart(a, b, c);
    }
  }

  lemma SameStart(a: nat, b: nat, c: nat)
    requires a < TWO_32 && b < TWO_32 && Ticks(a, c) == Ticks(b, c)
    ensures a == b
  {
    var p, q := (c - a) / TWO_32, (c - b) / TWO_32;
    assert a - b == (q - p) * TWO_32;
  }

  // Something that happens to one limit, at a tick (not yet cut to 32 bits): it may be brought up
  // to date, and so much is taken away: `moved` bytes that were read (or written), and `charged` by
  // hand, which gives something back if it is negative.
  datatype Step = Step(tick: nat, look: bool, moved: nat, charged: int) {
    function Refund(): nat {
      if charged < 0 then -charged else 0
    }
  }

  function Looked(b: Bucket, c: Rule, s: Step): Bucket {
    if s.look then Update(b, c, s.tick % TWO_32) else b
  }

  function Apply(b: Bucket, c: Rule, s: Step): Bucket {
    var u := Looked(b, c, s);
    u.(limit := u.limit - s.moved - s.charged)
  }

  // Bytes are moved only after a look at the bucket, and no more than the limit allows then.
  predicate Modest(b: Bucket, c: Rule, s: Step) {
    s.moved > 0 ==> s.look && s.moved <= Looked(b, c, s).limit
  }

  // Every step is modest, time goes forward, and no limit overflows or goes above the maximum.
  ghost predicate Allowed(b: Bucket, c: Rule, steps: seq<Step>) {
    steps == [] ||
    var last, before := steps[|steps| - 1], steps[..|steps| - 1];
    && Allowed(b, c, before)
    && (before != [] ==> before[|before| - 1].tick <= last.tick)
    && Modest(After(b, c, before), c, last)
    && IsSigned(After(b, c, steps).limit) && After(b, c, steps).limit <= c.maximum
  }

  ghost function After(b: Bucket, c: Rule, steps: seq<Step>): Bucket {
    if steps == [] then b else Apply(After(b, c, steps[..|steps| - 1]), c, steps[|steps| - 1])
  }

  ghost function Moved(steps: seq<Step>): nat {
    if steps == [] then 0 else Moved(steps[..|steps| - 1]) + steps[|steps| - 1].moved
  }

  // What was given back.
  ghost function Refunded(steps: seq<Step>): nat {
    if steps == [] then 0 else Refunded(steps[..|steps| - 1]) + steps[|steps| - 1].Refund()
  }

  // The tick of the last look at the bucket, or -1.
  ghost function LastLook(steps: seq<Step>): int {
    if steps == [] then -1
    else if steps[|steps| - 1].look then steps[|steps| - 1].tick
    else LastLook(steps[..|steps| - 1])
  }

  lemma TickMod(last: nat, tick: nat)
    ensures Ticks(last, tick % TWO_32) == Ticks(last, tick)
  {
    var q := tick / TWO_32;
    assert tick == q * TWO_32 + tick % TWO_32;
    var n := Ticks(last, tick % TWO_32);
    var p := (tick % TWO_32 - last) / TWO_32;
    assert tick - last == (p + q) * TWO_32 + n;
    Remainder(tick - last, p + q, n);
  }

  // A look at the bucket: what is credited.
  lemma Stepped(a: Bucket, c: Rule, s: Step)
    requires c.Valid() && IsSigned(a.limit) && a.limit <= c.maximum && s.look
    ensures var u, n := Looked(a, c, s), if Idle(a.last, s.tick) then 0 else Ticks(a.last, s.tick);
      u.limit == Min(c.maximum, a.limit + n * c.rate) && Idle(u.last, s.tick)
  {
    TickMod(a.last, s.tick);
    if !Idle(a.last, s.tick) {
      RefillExact(a.limit, c.maximum, c.rate, Ticks(a.last, s.tick));
      TickMod(s.tick % TWO_32, s.tick);
      assert Ticks(s.tick % TWO_32, s.tick % TWO_32) == 0;
    }
  }

  // The limit never goes above the maximum.
  lemma {:induction false} Bounded(b: Bucket, c: Rule, steps: seq<Step>)
    requires c.Valid() && IsSigned(b.limit) && b.limit <= c.maximum && Allowed(b, c, steps)
    ensures IsSigned(After(b, c, steps).limit) && After(b, c, steps).limit <= c.maximum
    ensures LastLook(steps) >= 0 ==> Idle(After(b, c, steps).last, LastLook(steps))
  {
    if steps != [] {
      var before, s := steps[..|steps| - 1], steps[|steps| - 1];
      Bounded(b, c, before);
      if s.look {
        Stepped(After(b, c, before), c, s);
      }
    }
  }

  // What may be let through from one tick to another.
  function Quota(c: Rule, from: nat, to: nat): int {
    c.maximum + (to - from) * c.rate
  }

  lemma QuotaGrows(c: Rule, from: nat, to: nat, later: nat)
    requires to <= later
    ensures Quota(c, from, to) <= Quota(c, from, later)
  {
    Split(c.rate, to - from, later - to);
  }

  // One more look, in the window that began at tick `from` and last saw the bucket at `seen`.
  lemma Widen(a: Bucket, c: Rule, s: Step, from: nat, seen: nat, moved: int)
    requires c.Valid() && IsSigned(a.limit) && a.limit <= c.maximum && Idle(a.last, seen) && from <= seen <= s.tick
    requires a.limit <= Quota(c, from, seen) - moved && moved <= Quota(c, from, seen)
    requires s.look && Modest(a, c, s)
    ensures moved + s.moved <= Quota(c, from, s.tick)
    ensures Apply(a, c, s).limit <= Quota(c, from, s.tick) - moved - s.moved + s.Refund()
  {
    hide Quota, Idle, Ticks, Update, Refill;
    var n: nat := if Idle(a.last, s.tick) then 0 else Ticks(a.last, s.tick);
    Stepped(a, c, s);
    NoOvercredit(a.last, seen, s.tick);
    Credited(c, from, seen, n, s.tick);
  }

  // A quota, and the tokens of n ticks more.
  lemma Credited(c: Rule, from: nat, seen: nat, n: nat, now: nat)
    requires from <= seen && seen + n <= now
    ensures Quota(c, from, seen) + n * c.rate <= Quota(c, from, now) && c.maximum <= Quota(c, from, now)
  {
    Split(c.rate, seen - from, n);
    Split(c.rate, seen - from + n, now - seen - n);
    Split(c.rate, 0, now - from);
  }

  // The first look of a window.
  lemma Begin(a: Bucket, c: Rule, s: Step, from: nat)
    requires c.Valid() && IsSigned(a.limit) && a.limit <= c.maximum && s.look && Modest(a, c, s) && from <= s.tick
    ensures s.moved <= Quota(c, from, s.tick) && Apply(a, c, s).limit <= Quota(c, from, s.tick) - s.moved + s.Refund()
  {
    Stepped(a, c, s);
    QuotaGrows(c, from, from, s.tick);
  }

  lemma {:induction false} WindowSeen(b: Bucket, c: Rule, steps: seq<Step>, i: nat)
    requires c.Valid() && IsSigned(b.limit) && b.limit <= c.maximum && Allowed(b, c, steps) && i < |steps|
    ensures steps[i].tick <= steps[|steps| - 1].tick
    ensures LastLook(steps[i..]) < 0 ==> Moved(steps[i..]) == 0
    ensures var seen, moved := LastLook(steps[i..]), Moved(steps[i..]) - Refunded(steps[i..]);
      if seen < 0 then true
      else && seen == LastLook(steps) && steps[i].tick <= seen <= steps[|steps| - 1].tick
           && moved <= Quota(c, steps[i].tick, seen) && After(b, c, steps).limit <= Quota(c, steps[i].tick, seen) - moved
  {
    hide Quota, Unsigned, Signed, Refill, Ticks;
    var before, s := steps[..|steps| - 1], steps[|steps| - 1];
    var a := After(b, c, before);
    Bounded(b, c, before);
    assert steps[i..][..|steps[i..]| - 1] == before[i..];
    if i < |before| {
      WindowSeen(b, c, before, i);
      if s.look && LastLook(before[i..]) >= 0 {
        Widen(a, c, s, steps[i].tick, LastLook(before), Moved(before[i..]) - Refunded(before[i..]));
      } else if s.look {
        Begin(a, c, s, steps[i].tick);
      }
    } else {
      assert before[i..] == [];
      if s.look {
        Begin(a, c, s, s.tick);
      }
    }
  }

  // In a window of T ticks no more than maximum + T * rate bytes are let through, and what was
  // given back.
  lemma Window(b: Bucket, c: Rule, steps: seq<Step>, i: nat)
    requires c.Valid() && IsSigned(b.limit) && b.limit <= c.maximum && Allowed(b, c, steps) && i < |steps|
    ensures steps[i].tick <= steps[|steps| - 1].tick
    ensures Moved(steps[i..]) <= c.maximum + (steps[|steps| - 1].tick - steps[i].tick) * c.rate + Refunded(steps[i..])
  {
    hide Allowed, After, Moved, Refunded, LastLook;
    var from, to := steps[i].tick, steps[|steps| - 1].tick;
    WindowSeen(b, c, steps, i);
    QuotaGrows(c, from, from, to);
    if LastLook(steps[i..]) >= 0 {
      QuotaGrows(c, from, LastLook(steps), to);
    }
  }

  lemma Split(rate: nat, x: int, y: nat)
    ensures (x + y) * rate == x * rate + y * rate >= x * rate
  {
  }

  // The number of a tick is that of the whole tick lengths that have passed.
  lemma TickIs(msec: nat, m: nat)
    requires m > 0
    ensures Tick(msec, m) * m <= msec < Tick(msec, m) * m + m
  {
  }

  // Ticks between two numbers that are not far apart.
  lemma TicksForward(from: nat, to: nat)
    requires from <= to < from + TWO_32
    ensures Ticks(from % TWO_32, to % TWO_32) == to - from
  {
    Difference(to, from);
    Remainder(to - from, 0, to - from);
  }

  lemma TicksBack(from: nat, to: nat)
    requires to < from <= to + TWO_32
    ensures Ticks(from % TWO_32, to % TWO_32) == to - from + TWO_32
  {
    Difference(to, from);
    Remainder(to - from, -1, to - from + TWO_32);
  }

  // A bucket last updated in tick `from` has, at a tick up to the largest int of ticks later, its limit and the
  // tokens of all ticks in between, as far as the maximum allows, and is up to date then.
  lemma UpdateExact(b: Bucket, c: Rule, from: nat, to: nat)
    requires c.Valid() && IsSigned(b.limit) && b.limit <= c.maximum && b.last == from % TWO_32 && from <= to <= from + INT_MAX
    ensures var u := Update(b, c, to % TWO_32);
      u.last == to % TWO_32 && u.limit == if b.limit + (to - from) * c.rate > c.maximum then c.maximum else b.limit + (to - from) * c.rate
  {
    hide Refill, Ticks;
    TicksForward(from, to);
    if to > from {
      RefillExact(b.limit, c.maximum, c.rate, to - from);
    }
  }

  // When time seems to have gone back, by up to 2^31 ticks, an update does nothing.
  lemma BackwardsIdle(b: Bucket, c: Rule, from: nat, to: nat)
    requires b.last == from % TWO_32 && to < from <= to + INT_MAX + 1
    ensures Update(b, c, to % TWO_32) == b
  {
    TicksBack(from, to);
  }

  // Looks lose nothing: an update on the way makes no difference.
  lemma LooksLoseNothing(b: Bucket, c: Rule, from: nat, mid: nat, to: nat)
    requires c.Valid() && IsSigned(b.limit) && b.limit <= c.maximum && b.last == from % TWO_32 && from <= mid <= to <= from + INT_MAX
    ensures Update(Update(b, c, mid % TWO_32), c, to % TWO_32) == Update(b, c, to % TWO_32)
  {
    hide Update;
    UpdateExact(b, c, from, mid);
    UpdateExact(b, c, from, to);
    Split(c.rate, mid - from, to - mid);
    Split(c.rate, 0, mid - from);
    UpdateExact(Update(b, c, mid % TWO_32), c, mid, to);
  }

  // What was charged by hand, less what was given back.
  ghost function Charged(steps: seq<Step>): int {
    if steps == [] then 0 else Charged(steps[..|steps| - 1]) + steps[|steps| - 1].charged
  }

  // The tick in which the bucket was last looked at; at first it is `from`.
  ghost function Seen(from: nat, steps: seq<Step>): nat {
    if steps == [] then from else if steps[|steps| - 1].look then steps[|steps| - 1].tick else Seen(from, steps[..|steps| - 1])
  }

  // No look is more than the largest int of ticks behind the one before, nor in an earlier tick.
  ghost predicate Dense(from: nat, steps: seq<Step>) {
    steps == [] ||
    var before, s := steps[..|steps| - 1], steps[|steps| - 1];
    Dense(from, before) && (s.look ==> Seen(from, before) <= s.tick <= Seen(from, before) + INT_MAX)
  }

  // Some look found the bucket full.
  ghost predicate Full(b: Bucket, c: Rule, steps: seq<Step>) {
    exists k :: 0 <= k < |steps| && FullAt(b, c, steps, k)
  }

  ghost predicate FullAt(b: Bucket, c: Rule, steps: seq<Step>, k: nat)
    requires k < |steps|
  {
    steps[k].look && Looked(After(b, c, steps[..k]), c, steps[k]).limit == c.maximum
  }

  lemma NotFullBefore(b: Bucket, c: Rule, steps: seq<Step>)
    requires steps != [] && !Full(b, c, steps)
    ensures !Full(b, c, steps[..|steps| - 1]) && !FullAt(b, c, steps, |steps| - 1)
  {
    hide Looked, After;
    var before := steps[..|steps| - 1];
    assert forall k :: 0 <= k < |before| ==> before[..k] == steps[..k] && before[k] == steps[k] && !FullAt(b, c, steps, k);
    assert forall k :: 0 <= k < |before| ==> !FullAt(b, c, before, k);
  }

  // Nothing gets lost: what is left, and what has been moved and charged, is what there was at first and the
  // tokens of all ticks up to the last look, unless a look has found the bucket full; then it is no more.
  lemma {:induction false} Conserved(b: Bucket, c: Rule, steps: seq<Step>, from: nat)
    requires c.Valid() && IsSigned(b.limit) && b.limit <= c.maximum && b.last == from % TWO_32
    requires Allowed(b, c, steps) && Dense(from, steps)
    ensures var a := After(b, c, steps);
      && a.last == Seen(from, steps) % TWO_32 && from <= Seen(from, steps)
      && a.limit + Moved(steps) + Charged(steps) <= b.limit + (Seen(from, steps) - from) * c.rate
      && (!Full(b, c, steps) ==> a.limit + Moved(steps) + Charged(steps) == b.limit + (Seen(from, steps) - from) * c.rate)
  {
    if steps != [] {
      var before, s := steps[..|steps| - 1], steps[|steps| - 1];
      var a := After(b, c, before);
      hide Full, Update;
      Conserved(b, c, before, from);
      Bounded(b, c, before);
      if s.look {
        UpdateExact(a, c, Seen(from, before), s.tick);
        Split(c.rate, Seen(from, before) - from, s.tick - Seen(from, before));
      }
      if !Full(b, c, steps) {
        NotFullBefore(b, c, steps);
      }
    }
  }
}
