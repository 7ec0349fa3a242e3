// Taking bytes from the front: evbuffer_drain, evbuffer_copyout, evbuffer_remove.
module BufferDrain {
  import opened Bytes
  import opened Evbuffer
  import opened Options

  // The loop of evbuffer_drain and evbuffer_remove_buffer: walk over the chains that go away
  // as a whole, keeping the slot off them. `k` counts them, and `previous` is the last of
  // them; `remaining` bytes go from the next one.
  method SkipWhole(buf: EvBuffer, len: nat)
    returns (chain: Chain, previous: Chain, remaining: nat, ghost k: nat)
    requires buf.Shape() && len < buf.totalLen
    modifies buf`lwd
    ensures k <= buf.g.at && k < |buf.g.chains| && chain == buf.g.chains[k]
    ensures previous == if k == 0 then chain else buf.g.chains[k - 1]
    ensures len == |Prefix(buf.g.pieces, k)| + remaining && remaining < |buf.g.pieces[k]|
    ensures buf.lwd == if k == buf.g.at then null else buf.g.chains[buf.g.at - 1]
  {
    hide Flatten, Distinct, Chain.Data, Chain.Ok;
    DataBounds(buf);
    chain, previous, remaining, k := buf.first, buf.first, len, 0;
    while remaining >= chain.off
      invariant k <= buf.g.at && k < |buf.g.chains| && chain == buf.g.chains[k]
      invariant previous == if k == 0 then chain else buf.g.chains[k - 1]
      invariant len == |Prefix(buf.g.pieces, k)| + remaining
      invariant buf.lwd == if k == buf.g.at then null else buf.g.chains[buf.g.at - 1]
      decreases |buf.g.chains| - k
    {
      assert chain.off == |buf.g.pieces[k]|;
      assert k < buf.g.at;
      DistinctAt(buf.g.chains, k);
      var next := chain.next;
      assert next == buf.g.chains[k + 1];
      remaining := remaining - chain.off;
      // The chain in the slot never goes as a whole.
      assert chain != buf.SlotChain();
      if chain == buf.lwd {
        buf.lwd := null;
      }
      chain, previous, k := next, chain, k + 1;
    }
  }

  // All data lies in the chains up to the slot chain.
  lemma DataBounds(buf: EvBuffer)
    requires buf.Shape() && buf.totalLen > 0
    ensures buf.g.at < |buf.g.chains| && buf.g.pieces[buf.g.at] != []
    ensures forall k :: 0 <= k <= |buf.g.chains| ==> |Prefix(buf.g.pieces, k)| <= buf.totalLen
    ensures Prefix(buf.g.pieces, buf.g.at + 1) == buf.Contents()
  {
    hide Distinct, Chain.Data, Chain.Ok, EvBuffer.Linked, EvBuffer.LastExact;
    var p, k := buf.g.pieces, buf.g.at + 1;
    forall i | 0 <= i <= |p| ensures |Prefix(p, i)| <= buf.totalLen {
      PrefixMonotone(p, i, |p|);
    }
    FlattenCut(p, k);
    PrefixAgree(p, p[..k], k);
  }

  // Take the first k chains off a buffer whose slot has been kept clear of them.
  method DropWhole(buf: EvBuffer, chain: Chain, n: nat, ghost k: nat)
    requires buf.Listed() && buf.LastExact() && buf.totalLen == |buf.Contents()| == buf.base + buf.nAdd - buf.nDel
    requires k <= buf.g.at < |buf.g.chains| && chain == buf.g.chains[k] && n == |Prefix(buf.g.pieces, k)|
    requires buf.g.pieces[buf.g.at] != [] && forall i :: buf.g.at < i < |buf.g.chains| ==> buf.g.pieces[i] == []
    requires buf.lwd == if k == buf.g.at then null else buf.g.chains[buf.g.at - 1]
    modifies buf`first, buf`totalLen, buf`nDel, buf`g
    ensures buf.Valid() && buf.first == chain
    ensures buf.g == old(buf.g.(chains := buf.g.chains[k..], pieces := buf.g.pieces[k..], at := buf.g.at - k))
    ensures n <= |old(buf.Contents())| && buf.Contents() == old(buf.Contents())[n..]
  {
    hide Flatten, Prefix, Distinct, Chain.Data, Chain.Ok, EvBuffer.Separate, EvBuffer.Linked;
    FlattenDrop(buf.g.pieces, k);
    buf.DropFront(k, chain, buf.g.at - k);
    buf.totalLen := buf.totalLen - n;
    buf.nDel := buf.nDel + n;
  }

  // Take some bytes off the first chain, leaving data in it.
  method ShrinkFirst(buf: EvBuffer, chain: Chain, n: nat)
    requires buf.Valid() && chain == buf.first && n < chain.off
    modifies buf`totalLen, buf`nDel, buf`g, chain`off, chain`misalign
    ensures buf.Valid() && buf.g.repr == old(buf.g.repr) && buf.g.chains == old(buf.g.chains)
    ensures n <= |old(buf.Contents())| && buf.Contents() == old(buf.Contents())[n..]
  {
    hide Flatten, Prefix, Distinct, Chain.Data, Chain.Ok, EvBuffer.Separate;
    FlattenShrinkFront(buf.g.pieces, n);
    buf.ConsumeFrom(0, chain, n);
    buf.totalLen := buf.totalLen - n;
    buf.nDel := buf.nDel + n;
  }

  // The part of evbuffer_drain that leaves data behind: the chains that go as a whole ...
  method DropFirst(buf: EvBuffer, len: nat) returns (chain: Chain, remaining: nat)
    requires buf.Valid() && len < buf.totalLen
    modifies buf
    ensures buf.Valid() && buf.SameSwitches() && buf.g.repr == old(buf.g.repr) && buf.g.chains != [] && buf.g.chains[0] in old(buf.g.chains)
    ensures chain == buf.first && remaining < chain.off && remaining <= len < |old(buf.Contents())|
    ensures buf.Contents() == old(buf.Contents())[len - remaining..]
  {
    hide Flatten, Prefix, Distinct, Chain.Data, Chain.Ok, EvBuffer.Separate, EvBuffer.Linked;
    DataBounds(buf);
    var previous;
    ghost var k;
    chain, previous, remaining, k := SkipWhole(buf, len);
    DropWhole(buf, chain, len - remaining, k);
  }

  // ... and the bytes from the one behind them.
  method DrainPart(buf: EvBuffer, len: nat)
    requires buf.Valid() && len < buf.totalLen
    modifies buf, buf.g.chains
    ensures buf.Valid() && buf.SameSwitches() && buf.g.repr == old(buf.g.repr)
    ensures buf.Contents() == old(buf.Contents())[len..]
  {
    hide Flatten, Prefix, Distinct, Chain.Data, EvBuffer.Listed, EvBuffer.SlotExact, EvBuffer.LastExact;
    var chain, remaining := DropFirst(buf, len);
    buf.SlotFacts();
    ShrinkFirst(buf, chain, remaining);
  }

  // evbuffer_drain
  method Drain(buf: EvBuffer, len: nat) returns (result: int)
    requires buf.Valid()
    modifies buf, buf.g.chains
    ensures buf.Valid() && buf.SameSwitches() && buf.g.repr == old(buf.g.repr)
    ensures result == if old(buf.totalLen) > 0 && buf.freezeStart then -1 else 0
    ensures buf.Contents() == if result < 0 then old(buf.Contents())
                              else if len >= |old(buf.Contents())| then []
                              else old(buf.Contents())[len..]
  {
    hide Flatten, Prefix, Distinct, EvBuffer.Listed, EvBuffer.SlotExact, EvBuffer.LastExact;
    if buf.totalLen == 0 {
      return 0;
    }
    if buf.freezeStart {
      return -1;
    }
    if len >= buf.totalLen {
      buf.nDel := buf.nDel + buf.totalLen;
      buf.ZeroChain();
    } else {
      DrainPart(buf, len);
    }
    buf.InvokeCallbacks();
    return 0;
  }

  const SSIZE_MAX: nat := CHAIN_MAX

  // The loop of evbuffer_copyout_from: copy n bytes from a position on.
  method CopyLoop(buf: EvBuffer, p: Ptr, n: nat) returns (out: seq<byte>)
    requires buf.Shape() && buf.PtrOk(p) && 0 <= p.pos && p.pos + n <= buf.totalLen && n > 0
    ensures out == buf.Contents()[p.pos..p.pos + n]
  {
    hide Flatten, Prefix, Distinct, Chain.Data, EvBuffer.Separate, EvBuffer.Linked, EvBuffer.SlotExact, EvBuffer.LastExact;
    out := [];
    var datlen: nat, chain, posInChain: nat := n, p.chain, p.posInChain;
    ghost var k :| buf.Points(p, k);
    while datlen > 0 && datlen >= chain.off - posInChain
      invariant |out| + datlen == n && out == buf.Contents()[p.pos..p.pos + |out|]
      invariant datlen > 0 ==> buf.Points(Ptr(p.pos + |out|, chain, posInChain), k)
      decreases if datlen > 0 then |buf.g.chains| - k else 0
    {
      CopyPiece(buf, p.pos, out, k, posInChain, chain.off);
      out := out + chain.mem[chain.misalign + posInChain..chain.misalign + chain.off];
      datlen := datlen - (chain.off - posInChain);
      StepPtr(buf, k);
      if datlen > 0 {
        chain, posInChain, k := chain.next, 0, k + 1;
      }
    }
    if datlen > 0 {
      CopyPiece(buf, p.pos, out, k, posInChain, posInChain + datlen);
      out := out + chain.mem[chain.misalign + posInChain..chain.misalign + posInChain + datlen];
    }
  }

  // Copying bytes lo..hi of chain k extends a copy that ended just there.
  lemma CopyPiece(buf: EvBuffer, start: nat, out: seq<byte>, k: nat, lo: nat, hi: nat)
    requires buf.Listed() && k < |buf.g.chains| == |buf.g.pieces| && lo <= hi <= buf.g.chains[k].off
    requires start + |out| == |Prefix(buf.g.pieces, k)| + lo <= |buf.Contents()|
    requires out == buf.Contents()[start..start + |out|]
    ensures var c := buf.g.chains[k];
            start + |out| + (hi - lo) <= |buf.Contents()| &&
            out + c.mem[c.misalign + lo..c.misalign + hi] == buf.Contents()[start..start + |out| + (hi - lo)]
  {
    hide Flatten, Prefix, Distinct, Chain.Data, EvBuffer.Listed;
    var c := buf.g.chains[k];
    buf.PieceFacts(k);
    buf.NextFacts(k);
    FlattenSlice(buf.g.pieces, k, lo, hi);
    SliceSlice(c.mem, c.misalign, c.misalign + c.off, lo, hi);
    SliceJoin(buf.Contents(), start, start + |out|, start + |out| + (hi - lo));
  }

  // When bytes remain behind chain k there is a next chain, and its data starts where that
  // of chain k ends.
  lemma StepPtr(buf: EvBuffer, k: nat)
    requires buf.Listed() && k < |buf.g.chains|
    ensures |Prefix(buf.g.pieces, k + 1)| == |Prefix(buf.g.pieces, k)| + |buf.g.pieces[k]|
    ensures k + 1 < |buf.g.chains| ==> buf.g.chains[k].next == buf.g.chains[k + 1]
    ensures k + 1 == |buf.g.chains| ==> buf.g.chains[k].next == null && Prefix(buf.g.pieces, k + 1) == buf.Contents()
  {
  }

  // evbuffer_copyout_from; `out` is what data_out receives.
  method CopyoutFrom(buf: EvBuffer, pos: Option<Ptr>, datlen: nat) returns (result: int, out: seq<byte>)
    requires buf.Valid() && (pos.Some? ==> buf.PtrOk(pos.value))
    ensures var start := if pos.Some? then pos.value.pos else 0;
            var n := if datlen + start > buf.totalLen then buf.totalLen - start else datlen;
            0 <= n && 0 <= start <= start + n <= |buf.Contents()| &&
            if (pos.Some? && datlen + start > SSIZE_MAX) || (n > 0 && buf.freezeStart)
            then result == -1 && out == []
            else result == n && out == buf.Contents()[start..start + n]
  {
    hide Flatten, Prefix, Distinct, EvBuffer.Separate, EvBuffer.SlotExact, EvBuffer.LastExact, Chain.Data;
    var p, n := Ptr(0, buf.first, 0), datlen;
    if pos.Some? {
      p := pos.value;
    }
    StartPtr(buf);
    PtrBounds(buf, p);
    out := [];
    if pos.Some? && datlen > SSIZE_MAX - p.pos {
      return -1, [];
    }
    if n + p.pos > buf.totalLen {
      n := buf.totalLen - p.pos;
    }
    if n == 0 {
      return 0, [];
    }
    if buf.freezeStart {
      return -1, [];
    }
    out := CopyLoop(buf, p, n);
    return n, out;
  }

  // Position 0 is in the first chain, if there is one.
  lemma StartPtr(buf: EvBuffer)
    requires buf.Shape()
    ensures buf.PtrOk(Ptr(0, buf.first, 0))
  {
    if buf.g.chains != [] {
      assert buf.Points(Ptr(0, buf.first, 0), 0);
    }
  }

  lemma PtrBounds(buf: EvBuffer, p: Ptr)
    requires buf.Shape() && buf.PtrOk(p)
    ensures 0 <= p.pos <= buf.totalLen
  {
    hide Flatten, Prefix;
    if k :| buf.Points(p, k) {
      FlattenSlice(buf.g.pieces, k, 0, p.posInChain);
    }
  }

  // evbuffer_remove
  method Remove(buf: EvBuffer, datlen: nat) returns (result: int, out: seq<byte>)
    requires buf.Valid()
    modifies buf, buf.g.chains
    ensures buf.Valid() && buf.SameSwitches() && buf.g.repr == old(buf.g.repr)
    ensures out + buf.Contents() == old(buf.Contents())
    ensures if datlen > 0 && old(buf.totalLen) > 0 && buf.freezeStart then result == -1 && out == []
            else |out| == (if datlen < old(buf.totalLen) then datlen else old(buf.totalLen)) && result == ToInt(|out|)
  {
    hide Flatten, Prefix, Distinct, ToInt, EvBuffer.Listed, EvBuffer.SlotExact, EvBuffer.LastExact;
    var n;
    n, out := CopyoutFrom(buf, None, datlen);
    if n < 0 {
      return -1, [];
    }
    if n > 0 {
      var r := Drain(buf, n);
      if r < 0 {
        return -1, [];
      }
    }
    result := ToInt(n);
  }
}
