// Runs: any sequence of operations on any number of buffers acts like the same operations on
// plain byte strings, whatever chains the buffers are made of.
module BufferRun {
  import opened Bytes
  import opened Evbuffer
  import BufferAdd
  import BufferDrain
  import BufferExpand
  import BufferLines
  import BufferPullup
  import BufferReserve
  import BufferSplice

  // What a buffer is to its user.
  datatype Buf = Buf(bytes: seq<byte>, frozenStart: bool, frozenEnd: bool)

  // Operations on one buffer, and on two.
  datatype Op =
    | Add(data: seq<byte>)
    | Prepend(data: seq<byte>)
    | AddReserved(data: seq<byte>, size: nat, extents: nat)
    | Drain(n: nat)
    | Remove(n: nat)
    | ReadLn(style: BufferLines.EolStyle)
    | Pullup(want: int)
    | Expand(n: nat)
    | Freeze(atStart: bool, frozen: bool)
  datatype Op2 = AddBuffer | PrependBuffer | RemoveBuffer(n: nat)

  ghost predicate Shows(buf: EvBuffer, s: Buf)
    reads buf
  {
    s == Buf(buf.Contents(), buf.freezeStart, buf.freezeEnd)
  }

  // An operation its user may ask for.
  predicate Legal(op: Op) {
    op.AddReserved? ==> |op.data| <= op.size && 0 < op.size < BufferReserve.SIZE_LIMIT && op.extents >= 2
  }

  // What comes in front when there is so much room before the data: all of it, unless the rest is too
  // much for a chain.
  function Fronted(data: seq<byte>, room: nat): seq<byte> {
    if |data| <= room + MAX_PAYLOAD then data else data[|data| - room..]
  }

  // What an operation on one buffer does to its byte string. The room in front of the data is not seen in it.
  ghost predicate Does(op: Op, s: Buf, t: Buf) {
    match op
    case Add(data) =>
      t == if !s.frozenEnd && |s.bytes| + |data| <= SIZE_MAX && |data| <= MAX_PAYLOAD then s.(bytes := s.bytes + data) else s
    case Prepend(data) =>
      if s.frozenStart || |s.bytes| + |data| > SIZE_MAX then t == s
      else exists room: nat :: t == s.(bytes := Fronted(data, room) + s.bytes)
    case AddReserved(data, size, extents) =>
      if s.frozenEnd then t == s
      else t == s.(bytes := s.bytes + data) || (t == s && size > MAX_PAYLOAD)
    case Drain(n) => t == if s.frozenStart then s else s.(bytes := if n < |s.bytes| then s.bytes[n..] else [])
    case Remove(n) => t == if s.frozenStart then s else s.(bytes := if n < |s.bytes| then s.bytes[n..] else [])
    case ReadLn(style) =>
      if s.frozenStart || |s.bytes| > SIZE_MAX || BufferLines.NoEol(s.bytes, 0, style) then t == s
      else exists line, n :: BufferLines.Split(s.bytes, style, line, n, t.bytes) && t == s.(bytes := t.bytes)
    case Pullup(want) => t == s
    case Expand(n) => t == s
    case Freeze(atStart, frozen) => t == if atStart then s.(frozenStart := frozen) else s.(frozenEnd := frozen)
  }

  lemma Taken(s: seq<byte>, out: seq<byte>, rest: seq<byte>, n: nat)
    requires out + rest == s && |out| == if n < |s| then n else |s|
    ensures rest == if n < |s| then s[n..] else []
  {
    assert (out + rest)[|out|..] == rest;
  }

  // evbuffer_prepend
  method DoPrepend(buf: EvBuffer, data: seq<byte>, ghost s: Buf) returns (ghost t: Buf)
    requires buf.Valid() && Shows(buf, s)
    modifies buf.g.repr
    ensures buf.Valid() && fresh(buf.g.repr - old(buf.g.repr))
    ensures Shows(buf, t) && Does(Prepend(data), s, t)
  {
    hide Flatten, Prefix, EvBuffer.Listed, EvBuffer.SlotExact, EvBuffer.LastExact;
    assert [] + s.bytes == s.bytes;
    buf.OwnsItself();
    ghost var room := BufferAdd.FrontRoom(buf);
    var r := BufferAdd.PrependBytes(buf, data);
    t := Buf(buf.Contents(), buf.freezeStart, buf.freezeEnd);
    if !s.frozenStart && |s.bytes| + |data| <= SIZE_MAX {
      assert t == s.(bytes := Fronted(data, room) + s.bytes);
    }
  }

  // Perform an operation on one buffer.
  method Perform(buf: EvBuffer, op: Op, ghost s: Buf) returns (ghost t: Buf)
    requires buf.Valid() && Shows(buf, s) && Legal(op)
    modifies buf.g.repr
    ensures buf.Valid() && fresh(buf.g.repr - old(buf.g.repr))
    ensures Shows(buf, t) && Does(op, s, t)
  {
    hide Flatten, Prefix, EvBuffer.Listed, EvBuffer.SlotExact, EvBuffer.LastExact;
    hide BufferLines.NoEol, BufferLines.Split;
    buf.OwnsItself();
    match op {
      case Add(data) =>
        assert s.bytes + [] == s.bytes;
        var _ := BufferAdd.Add(buf, data);
      case Prepend(data) =>
        t := DoPrepend(buf, data, s);
      case AddReserved(data, size, extents) =>
        assert s.bytes + [] == s.bytes;
        var _ := BufferReserve.AppendReserved(buf, data, size, extents);
      case Drain(n) =>
        var _ := BufferDrain.Drain(buf, n);
      case Remove(n) =>
        var _, out := BufferDrain.Remove(buf, n);
        if !s.frozenStart {
          Taken(s.bytes, out, buf.Contents(), n);
        }
      case ReadLn(style) =>
        if buf.totalLen <= SIZE_MAX {
          var _, _ := BufferLines.ReadLn(buf, style);
        }
      case Pullup(want) =>
        var _ := BufferPullup.Pullup(buf, want);
      case Expand(n) =>
        var _, _ := BufferExpand.Expand(buf, n);
      case Freeze(atStart, frozen) =>
        if atStart {
          buf.freezeStart := frozen;
        } else {
          buf.freezeEnd := frozen;
        }
    }
    t := Buf(buf.Contents(), buf.freezeStart, buf.freezeEnd);
  }

  // What an operation on two different buffers does to their byte strings.
  ghost predicate Does2(op: Op2, s: Buf, other: Buf, t: Buf, other': Buf) {
    match op
    case AddBuffer =>
      if other.bytes == [] || s.frozenEnd || other.frozenStart then t == s && other' == other
      else t == s.(bytes := s.bytes + other.bytes) && other' == other.(bytes := [])
    case PrependBuffer =>
      if other.bytes == [] || s.frozenStart || other.frozenStart then t == s && other' == other
      else t == s.(bytes := other.bytes + s.bytes) && other' == other.(bytes := [])
    case RemoveBuffer(n) =>
      if s.frozenEnd || other.frozenStart then t == s && other' == other
      else
        var m := if n < |other.bytes| then n else |other.bytes|;
        && other' == other.(bytes := other.bytes[m..])
        && exists cut: nat {:trigger Lost(n, s, other, cut)} ::
             Lost(n, s, other, cut) <= m && t == s.(bytes := s.bytes + other.bytes[..m - Lost(n, s, other, cut)])
  }

  // What evbuffer_remove_buffer loses when the split is `cut` bytes into a chain.
  function Lost(n: nat, s: Buf, other: Buf, cut: nat): nat {
    if n < |other.bytes| && |s.bytes| + n > SIZE_MAX then cut else 0
  }

  lemma RemoveDoes(s: Buf, o: Buf, n: nat, cut: nat)
    requires !s.frozenEnd && !o.frozenStart && Lost(n, s, o, cut) <= if n < |o.bytes| then n else |o.bytes|
    ensures var m := if n < |o.bytes| then n else |o.bytes|;
            Does2(RemoveBuffer(n), s, o, s.(bytes := s.bytes + o.bytes[..m - Lost(n, s, o, cut)]), o.(bytes := o.bytes[m..]))
  {
  }

  // evbuffer_remove_buffer, from `src` to `dst`
  method DoRemoveBuffer(dst: EvBuffer, src: EvBuffer, n: nat, ghost s: Buf, ghost o: Buf)
    requires dst.Valid() && src.Valid() && dst != src && BufferSplice.Apart(dst, src) && Shows(dst, s) && Shows(src, o)
    modifies dst.g.repr, src.g.repr
    ensures dst.Valid() && src.Valid() && BufferSplice.Apart(dst, src)
    ensures fresh(dst.g.repr + src.g.repr - old(dst.g.repr + src.g.repr))
    ensures Does2(RemoveBuffer(n), s, o, Buf(dst.Contents(), dst.freezeStart, dst.freezeEnd), Buf(src.Contents(), src.freezeStart, src.freezeEnd))
  {
    hide Flatten, Prefix, BufferSplice.Cut, ToInt, EvBuffer.Listed, EvBuffer.SlotExact, EvBuffer.LastExact;
    assert n == 0 ==> s.bytes + o.bytes[..0] == s.bytes && o.bytes[0..] == o.bytes;
    ghost var cut := BufferSplice.Cut(src.g.pieces, n);
    var _, lost := BufferSplice.RemoveBuffer(src, dst, n);
    if !s.frozenEnd && !o.frozenStart {
      hide Does2;
      assert n > 0 ==> lost == Lost(n, s, o, cut);
      RemoveDoes(s, o, n, lost);
    }
  }

  // Perform an operation on two buffers.
  method Perform2(dst: EvBuffer, src: EvBuffer, op: Op2, ghost s: Buf, ghost o: Buf) returns (ghost t: Buf, ghost o': Buf)
    requires dst.Valid() && src.Valid() && dst != src && BufferSplice.Apart(dst, src) && Shows(dst, s) && Shows(src, o)
    modifies dst.g.repr, src.g.repr
    ensures dst.Valid() && src.Valid() && BufferSplice.Apart(dst, src)
    ensures fresh(dst.g.repr + src.g.repr - old(dst.g.repr + src.g.repr))
    ensures Shows(dst, t) && Shows(src, o') && Does2(op, s, o, t, o')
  {
    hide Flatten, Prefix, EvBuffer.Listed, EvBuffer.SlotExact, EvBuffer.LastExact;
    dst.OwnsItself();
    src.OwnsItself();
    match op {
      case AddBuffer =>
        var _ := BufferSplice.AddBuffer(dst, src);
      case PrependBuffer =>
        var _ := BufferSplice.PrependBuffer(dst, src);
      case RemoveBuffer(n) =>
        DoRemoveBuffer(dst, src, n, s, o);
    }
    t := Buf(dst.Contents(), dst.freezeStart, dst.freezeEnd);
    o' := Buf(src.Contents(), src.freezeStart, src.freezeEnd);
  }

  // A buffer none of whose objects has changed is what it was.
  twostate lemma Untouched(buf: EvBuffer)
    requires old(buf.Valid()) && forall o :: o in old(buf.g.repr) ==> unchanged(o)
    ensures buf.Valid() && buf.g == old(buf.g)
    ensures forall s :: old(Shows(buf, s)) ==> Shows(buf, s)
  {
    hide Flatten, Prefix, Distinct, Chain.Data, Chain.Ok;
    assert buf in old(buf.g.repr) && forall i :: 0 <= i < |buf.g.chains| ==> old(buf.g.chains)[i] in old(buf.g.repr);
  }

  // The chains of the buffers.
  ghost function Nodes(bufs: seq<EvBuffer>): set<Chain>
    reads bufs
  {
    set i, k | 0 <= i < |bufs| && 0 <= k < |bufs[i].g.chains| :: bufs[i].g.chains[k]
  }

  // Buffers in use at the same time.
  ghost predicate Pool(bufs: seq<EvBuffer>)
    reads bufs, Nodes(bufs)
  {
    && (forall i :: 0 <= i < |bufs| ==> bufs[i].Valid())
    && (forall i, j :: 0 <= i < |bufs| && 0 <= j < |bufs| && i != j ==> bufs[i] != bufs[j] && BufferSplice.Apart(bufs[i], bufs[j]))
  }

  ghost predicate View(bufs: seq<EvBuffer>, st: seq<Buf>)
    reads bufs
  {
    |st| == |bufs| && forall i :: 0 <= i < |bufs| ==> Shows(bufs[i], st[i])
  }

  // Everything the buffers own.
  ghost function Owned(bufs: seq<EvBuffer>): set<object>
    reads bufs
  {
    set i, o | 0 <= i < |bufs| && o in bufs[i].g.repr :: o
  }

  // A command: an operation, and the buffers it is for.
  datatype Cmd = One(i: nat, op: Op) | Two(dst: nat, src: nat, op2: Op2)

  // ... on n buffers.
  predicate LegalCmd(cmd: Cmd, n: nat) {
    match cmd
    case One(i, op) => i < n && Legal(op)
    case Two(dst, src, op) => dst < n && src < n
  }

  // What a command does to the byte strings. Moving a buffer into itself does nothing.
  ghost predicate Moves(cmd: Cmd, st: seq<Buf>, st': seq<Buf>)
    requires LegalCmd(cmd, |st|)
  {
    && |st'| == |st|
    && match cmd
       case One(i, op) => Does(op, st[i], st'[i]) && st' == st[i := st'[i]]
       case Two(dst, src, op) =>
         if dst == src then st' == st
         else Does2(op, st[dst], st[src], st'[dst], st'[src]) && st' == st[dst := st'[dst]][src := st'[src]]
  }

  method StepOne(bufs: seq<EvBuffer>, i: nat, op: Op, ghost st: seq<Buf>) returns (ghost st': seq<Buf>)
    requires Pool(bufs) && View(bufs, st) && LegalCmd(One(i, op), |st|)
    modifies Owned(bufs)
    ensures Pool(bufs) && View(bufs, st') && Moves(One(i, op), st, st')
    ensures fresh(Owned(bufs) - old(Owned(bufs)))
  {
    hide Flatten, Prefix, Shows, Does, Legal, EvBuffer.Valid;
    label L:
    ghost var t := Perform(bufs[i], op, st[i]);
    forall j | 0 <= j < |bufs| && j != i
      ensures bufs[j].Valid() && bufs[j].g == old(bufs[j].g) && Shows(bufs[j], st[j])
    {
      Untouched@L(bufs[j]);
    }
    st' := st[i := t];
  }

  method StepTwo(bufs: seq<EvBuffer>, dst: nat, src: nat, op: Op2, ghost st: seq<Buf>) returns (ghost st': seq<Buf>)
    requires Pool(bufs) && View(bufs, st) && LegalCmd(Two(dst, src, op), |st|) && dst != src
    modifies Owned(bufs)
    ensures Pool(bufs) && View(bufs, st') && Moves(Two(dst, src, op), st, st')
    ensures fresh(Owned(bufs) - old(Owned(bufs)))
  {
    hide Flatten, Prefix, Shows, Does2, EvBuffer.Valid;
    label L:
    ghost var t, o := Perform2(bufs[dst], bufs[src], op, st[dst], st[src]);
    forall j | 0 <= j < |bufs| && j != dst && j != src
      ensures bufs[j].Valid() && bufs[j].g == old(bufs[j].g) && Shows(bufs[j], st[j])
    {
      Untouched@L(bufs[j]);
    }
    st' := st[dst := t][src := o];
  }

  // A move of a buffer into itself.
  method Self(buf: EvBuffer, op: Op2)
    requires buf.Valid()
    modifies buf.g.repr
    ensures buf.Valid() && fresh(buf.g.repr - old(buf.g.repr))
    ensures forall s :: old(Shows(buf, s)) ==> Shows(buf, s)
  {
    hide Flatten, Prefix, EvBuffer.Listed, EvBuffer.SlotExact, EvBuffer.LastExact;
    buf.OwnsItself();
    match op {
      case AddBuffer =>
        var _ := BufferSplice.AddBuffer(buf, buf);
      case PrependBuffer =>
        var _ := BufferSplice.PrependBuffer(buf, buf);
      case RemoveBuffer(n) =>
        var _, _ := BufferSplice.RemoveBuffer(buf, buf, n);
    }
  }

  method StepSelf(bufs: seq<EvBuffer>, i: nat, op: Op2, ghost st: seq<Buf>)
    requires Pool(bufs) && View(bufs, st) && i < |bufs|
    modifies Owned(bufs)
    ensures Pool(bufs) && View(bufs, st) && fresh(Owned(bufs) - old(Owned(bufs)))
  {
    hide Flatten, Prefix, Shows, EvBuffer.Valid;
    label L:
    Self(bufs[i], op);
    forall j | 0 <= j < |bufs| && j != i
      ensures bufs[j].Valid() && bufs[j].g == old(bufs[j].g) && Shows(bufs[j], st[j])
    {
      Untouched@L(bufs[j]);
    }
  }

  method Step(bufs: seq<EvBuffer>, cmd: Cmd, ghost st: seq<Buf>) returns (ghost st': seq<Buf>)
    requires Pool(bufs) && View(bufs, st) && LegalCmd(cmd, |bufs|)
    modifies Owned(bufs)
    ensures Pool(bufs) && View(bufs, st') && Moves(cmd, st, st')
    ensures fresh(Owned(bufs) - old(Owned(bufs)))
  {
    hide Flatten, Prefix, Shows, Does, Does2, EvBuffer.Valid, Owned;
    match cmd {
      case One(i, op) =>
        st' := StepOne(bufs, i, op, st);
      case Two(dst, src, op) =>
        if dst == src {
          StepSelf(bufs, dst, op, st);
          st' := st;
        } else {
          st' := StepTwo(bufs, dst, src, op, st);
        }
    }
  }

  // A history: the byte strings of n buffers before and after each command.
  ghost predicate History(cmds: seq<Cmd>, trace: seq<seq<Buf>>, n: nat) {
    && |trace| == |cmds| + 1 && |trace[0]| == n
    && forall i :: 0 <= i < |cmds| ==> |trace[i]| == n && LegalCmd(cmds[i], n) && Moves(cmds[i], trace[i], trace[i + 1])
  }

  // Run any commands on any buffers.
  method Run(bufs: seq<EvBuffer>, cmds: seq<Cmd>, ghost st: seq<Buf>) returns (ghost trace: seq<seq<Buf>>)
    requires Pool(bufs) && View(bufs, st) && forall i :: 0 <= i < |cmds| ==> LegalCmd(cmds[i], |bufs|)
    modifies Owned(bufs)
    ensures Pool(bufs) && History(cmds, trace, |bufs|) && trace[0] == st && View(bufs, trace[|cmds|])
    ensures forall o :: o in Owned(bufs) && o !in old(Owned(bufs)) ==> fresh(o)
  {
    hide Flatten, Prefix, Shows, Does, Does2, LegalCmd, Moves, EvBuffer.Valid, Owned;
    ghost var first := Owned(bufs);
    trace := [st];
    for i := 0 to |cmds|
      invariant Pool(bufs) && History(cmds[..i], trace, |bufs|) && trace[0] == st && View(bufs, trace[i])
      invariant forall o :: o in Owned(bufs) && o !in first ==> fresh(o)
    {
      label L:
      ghost var before := Owned(bufs);
      ghost var next := Step(bufs, cmds[i], trace[i]);
      forall o | o in Owned(bufs) && o !in first ensures fresh(o) {
        if o !in before {
          assert o in Owned(bufs) - before && fresh@L(o);
        }
      }
      trace := trace + [next];
    }
    assert cmds[..|cmds|] == cmds;
  }
}
