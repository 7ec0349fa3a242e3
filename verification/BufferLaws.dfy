// Laws of runs: the byte strings are those of the obvious operations, and moving bytes between
// buffers neither loses nor invents any.
module BufferLaws {
  import opened Bytes
  import opened Evbuffer
  import opened BufferRun
  import BufferLines

  // Room and memory suffice for the operation.
  predicate Fits(op: Op, s: Buf) {
    match op
    case Add(data) => s.frozenEnd || (|s.bytes| + |data| <= SIZE_MAX && |data| <= MAX_PAYLOAD)
    case Prepend(data) => s.frozenStart || (|s.bytes| + |data| <= SIZE_MAX && |data| <= MAX_PAYLOAD)
    case AddReserved(_, size, _) => s.frozenEnd || size <= MAX_PAYLOAD
    case ReadLn(_) => |s.bytes| <= SIZE_MAX
    case _ => true
  }

  // What is left after the first line of s.
  ghost function AfterLine(s: seq<byte>, style: BufferLines.EolStyle): seq<byte> {
    if exists line, n, rest :: BufferLines.Split(s, style, line, n, rest)
    then var line, n, rest :| BufferLines.Split(s, style, line, n, rest); rest
    else s
  }

  // The obvious operation on a byte string.
  ghost function Ideal(op: Op, s: Buf): Buf {
    match op
    case Add(data) => if s.frozenEnd then s else s.(bytes := s.bytes + data)
    case Prepend(data) => if s.frozenStart then s else s.(bytes := data + s.bytes)
    case AddReserved(data, _, _) => if s.frozenEnd then s else s.(bytes := s.bytes + data)
    case Drain(n) => if s.frozenStart || n == 0 then s else if n < |s.bytes| then s.(bytes := s.bytes[n..]) else s.(bytes := [])
    case Remove(n) => if s.frozenStart || n == 0 then s else if n < |s.bytes| then s.(bytes := s.bytes[n..]) else s.(bytes := [])
    case ReadLn(style) => if s.frozenStart then s else s.(bytes := AfterLine(s.bytes, style))
    case Pullup(_) => s
    case Expand(_) => s
    case Freeze(atStart, frozen) => if atStart then s.(frozenStart := frozen) else s.(frozenEnd := frozen)
  }

  lemma SplitUnique(s: seq<byte>, style: BufferLines.EolStyle, l1: seq<byte>, n1: nat, r1: seq<byte>, l2: seq<byte>, n2: nat, r2: seq<byte>)
    requires BufferLines.Split(s, style, l1, n1, r1) && BufferLines.Split(s, style, l2, n2, r2)
    ensures l1 == l2 && n1 == n2 && r1 == r2
  {
    hide BufferLines.EolAt;
    BufferLines.EolUnique(s, 0, style, |l1|, n1, |l2|, n2);
    assert r1 == s[|l1| + n1..] == r2;
    assert l1 == s[..|l1|] == l2;
  }

  lemma LineTaken(s: seq<byte>, style: BufferLines.EolStyle, t: seq<byte>)
    requires if BufferLines.NoEol(s, 0, style) then t == s else exists line, n :: BufferLines.Split(s, style, line, n, t)
    ensures t == AfterLine(s, style)
  {
    hide BufferLines.EolAt, BufferLines.NoEol, BufferLines.Split;
    if BufferLines.NoEol(s, 0, style) {
      forall line, n, rest ensures !BufferLines.Split(s, style, line, n, rest) {
        NoSplit(s, style, line, n, rest);
      }
    } else {
      var line, n :| BufferLines.Split(s, style, line, n, t);
      var l2, n2, r2 :| BufferLines.Split(s, style, l2, n2, r2) && AfterLine(s, style) == r2;
      SplitUnique(s, style, line, n, t, l2, n2, r2);
    }
  }

  lemma NoSplit(s: seq<byte>, style: BufferLines.EolStyle, line: seq<byte>, n: nat, rest: seq<byte>)
    requires BufferLines.NoEol(s, 0, style)
    ensures !BufferLines.Split(s, style, line, n, rest)
  {
    if BufferLines.EolAt(s, 0, style, |line|, n) {
      BufferLines.EolExcludes(s, style, |line|, n);
    }
  }

  // When it fits, an operation is the obvious one.
  lemma DoesIdeal(op: Op, s: Buf, t: Buf)
    requires Does(op, s, t) && Fits(op, s)
    ensures t == Ideal(op, s)
  {
    hide BufferLines.NoEol, BufferLines.Split, AfterLine;
    match op {
      case ReadLn(style) =>
        if !s.frozenStart {
          LineTaken(s.bytes, style, t.bytes);
        }
      case Drain(n) =>
        assert s.bytes[0..] == s.bytes;
      case Remove(n) =>
        assert s.bytes[0..] == s.bytes;
      case _ =>
    }
  }

  predicate Fits2(op: Op2, s: Buf, other: Buf) {
    op.RemoveBuffer? ==> |s.bytes| + op.n <= SIZE_MAX || op.n >= |other.bytes|
  }

  // The obvious operation on two byte strings.
  function Ideal2(op: Op2, s: Buf, other: Buf): (Buf, Buf) {
    match op
    case AddBuffer =>
      if s.frozenEnd || other.frozenStart then (s, other)
      else (s.(bytes := s.bytes + other.bytes), other.(bytes := []))
    case PrependBuffer =>
      if s.frozenStart || other.frozenStart then (s, other)
      else (s.(bytes := other.bytes + s.bytes), other.(bytes := []))
    case RemoveBuffer(n) =>
      if s.frozenEnd || other.frozenStart then (s, other)
      else
        var m := if n < |other.bytes| then n else |other.bytes|;
        (s.(bytes := s.bytes + other.bytes[..m]), other.(bytes := other.bytes[m..]))
  }

  lemma Does2Ideal(op: Op2, s: Buf, other: Buf, t: Buf, other': Buf)
    requires Does2(op, s, other, t, other') && Fits2(op, s, other)
    ensures (t, other') == Ideal2(op, s, other)
  {
    assert s.bytes + [] == s.bytes == [] + s.bytes;
  }

  predicate FitsCmd(cmd: Cmd, st: seq<Buf>)
    requires LegalCmd(cmd, |st|)
  {
    match cmd
    case One(i, op) => Fits(op, st[i])
    case Two(dst, src, op) => Fits2(op, st[dst], st[src])
  }

  ghost function IdealCmd(cmd: Cmd, st: seq<Buf>): (st': seq<Buf>)
    requires LegalCmd(cmd, |st|)
    ensures |st'| == |st|
  {
    match cmd
    case One(i, op) => st[i := Ideal(op, st[i])]
    case Two(dst, src, op) =>
      if dst == src then st
      else var r := Ideal2(op, st[dst], st[src]); st[dst := r.0][src := r.1]
  }

  lemma MovesIdeal(cmd: Cmd, st: seq<Buf>, st': seq<Buf>)
    requires LegalCmd(cmd, |st|) && Moves(cmd, st, st') && FitsCmd(cmd, st)
    ensures st' == IdealCmd(cmd, st)
  {
    hide Does, Does2, Fits, Fits2, Ideal, Ideal2;
    match cmd {
      case One(i, op) =>
        DoesIdeal(op, st[i], st'[i]);
      case Two(dst, src, op) =>
        if dst != src {
          Does2Ideal(op, st[dst], st[src], st'[dst], st'[src]);
        }
    }
  }

  // The byte strings after the first k commands, by the obvious operations.
  ghost function IdealRun(cmds: seq<Cmd>, st: seq<Buf>, k: nat): (st': seq<Buf>)
    requires k <= |cmds| && forall i :: 0 <= i < |cmds| ==> LegalCmd(cmds[i], |st|)
    ensures |st'| == |st|
  {
    if k == 0 then st else IdealCmd(cmds[k - 1], IdealRun(cmds, st, k - 1))
  }

  // Every run is the run of the obvious operations, as long as everything fits.
  lemma {:induction false} RunIsIdeal(cmds: seq<Cmd>, trace: seq<seq<Buf>>, n: nat, k: nat)
    requires History(cmds, trace, n) && k <= |cmds|
    requires forall i :: 0 <= i < k ==> FitsCmd(cmds[i], trace[i])
    ensures trace[k] == IdealRun(cmds, trace[0], k)
  {
    hide Moves, FitsCmd, IdealCmd;
    if k > 0 {
      RunIsIdeal(cmds, trace, n, k - 1);
      MovesIdeal(cmds[k - 1], trace[k - 1], trace[k]);
    }
  }

  // All the bytes in the first n buffers.
  function Stock(st: seq<Buf>, n: nat): multiset<byte>
    requires n <= |st|
  {
    if n == 0 then multiset{} else Stock(st, n - 1) + multiset(st[n - 1].bytes)
  }

  lemma {:induction false} StockUpdate(st: seq<Buf>, i: nat, b: Buf, n: nat)
    requires i < |st| && n <= |st|
    ensures i >= n ==> Stock(st[i := b], n) == Stock(st, n)
    ensures i < n ==> Stock(st[i := b], n) + multiset(st[i].bytes) == Stock(st, n) + multiset(b.bytes)
  {
    if n > 0 {
      StockUpdate(st, i, b, n - 1);
      if i < n - 1 {
        Swap(Stock(st[i := b], n - 1), Stock(st, n - 1), multiset(st[i].bytes), multiset(b.bytes), multiset(st[n - 1].bytes));
      }
    }
  }

  lemma Swap(a: multiset<byte>, b: multiset<byte>, x: multiset<byte>, y: multiset<byte>, z: multiset<byte>)
    requires a + x == b + y
    ensures (a + z) + x == (b + z) + y
  {
    assert (a + z) + x == (a + x) + z && (b + z) + y == (b + y) + z;
  }

  // An operation that only moves bytes.
  predicate MovesOnly(cmd: Cmd) {
    cmd.Two? || cmd.op.Pullup? || cmd.op.Expand? || cmd.op.Freeze?
  }

  lemma Move2Conserves(op: Op2, s: Buf, other: Buf)
    ensures var r := Ideal2(op, s, other);
            multiset(r.0.bytes) + multiset(r.1.bytes) == multiset(s.bytes) + multiset(other.bytes)
  {
    if op.RemoveBuffer? {
      var m := if op.n < |other.bytes| then op.n else |other.bytes|;
      assert other.bytes == other.bytes[..m] + other.bytes[m..];
    }
  }

  lemma Balance(a: multiset<byte>, b: multiset<byte>, c: multiset<byte>,
                x: multiset<byte>, y: multiset<byte>, u: multiset<byte>, v: multiset<byte>)
    requires b + x == a + y && c + u == b + v && y + v == x + u
    ensures c == a
  {
    forall e ensures c[e] == a[e] {
      assert (b + x)[e] == (a + y)[e] && (c + u)[e] == (b + v)[e] && (y + v)[e] == (x + u)[e];
    }
  }

  lemma UpdateTwo(st: seq<Buf>, i: nat, j: nat, b: Buf, c: Buf)
    requires i < |st| && j < |st| && i != j
    requires multiset(b.bytes) + multiset(c.bytes) == multiset(st[i].bytes) + multiset(st[j].bytes)
    ensures Stock(st[i := b][j := c], |st|) == Stock(st, |st|)
  {
    hide Stock;
    var one := st[i := b];
    StockUpdate(st, i, b, |st|);
    StockUpdate(one, j, c, |st|);
    Balance(Stock(st, |st|), Stock(one, |st|), Stock(one[j := c], |st|),
            multiset(st[i].bytes), multiset(b.bytes), multiset(st[j].bytes), multiset(c.bytes));
  }

  lemma CmdConserves(cmd: Cmd, st: seq<Buf>)
    requires LegalCmd(cmd, |st|) && MovesOnly(cmd)
    ensures Stock(IdealCmd(cmd, st), |st|) == Stock(st, |st|)
  {
    hide Stock, Ideal2;
    match cmd {
      case One(i, op) =>
        StockUpdate(st, i, Ideal(op, st[i]), |st|);
        var m := multiset(st[i].bytes);
        assert multiset(Ideal(op, st[i]).bytes) == m;
        Balance(Stock(st, |st|), Stock(st[i := Ideal(op, st[i])], |st|), Stock(st[i := Ideal(op, st[i])], |st|), m, m, m, m);
      case Two(dst, src, op) =>
        if dst != src {
          var r := Ideal2(op, st[dst], st[src]);
          Move2Conserves(op, st[dst], st[src]);
          UpdateTwo(st, dst, src, r.0, r.1);
        }
    }
  }

  // Runs that only move bytes between buffers, or within them, conserve the bytes.
  lemma {:induction false} RunConserves(cmds: seq<Cmd>, trace: seq<seq<Buf>>, n: nat, k: nat)
    requires History(cmds, trace, n) && k <= |cmds|
    requires forall i :: 0 <= i < k ==> MovesOnly(cmds[i]) && FitsCmd(cmds[i], trace[i])
    ensures |trace[k]| == n && Stock(trace[k], n) == Stock(trace[0], n)
  {
    hide FitsCmd, IdealCmd, Stock;
    if k > 0 {
      RunConserves(cmds, trace, n, k - 1);
      MovesIdeal(cmds[k - 1], trace[k - 1], trace[k]);
      CmdConserves(cmds[k - 1], trace[k - 1]);
    }
  }
}
