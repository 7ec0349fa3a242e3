// Moving chains between buffers: evbuffer_add_buffer, evbuffer_prepend_buffer,
// evbuffer_remove_buffer.
module BufferSplice {
  import opened Bytes
  import opened Evbuffer
  import BufferAdd
  import BufferDrain

  // Two buffers that share no object.
  ghost predicate Apart(a: EvBuffer, b: EvBuffer)
    reads a, b
  {
    a.g.repr !! b.g.repr
  }

  lemma ApartChains(a: EvBuffer, b: EvBuffer)
    requires a.Separate() && b.Separate() && Apart(a, b)
    ensures a != b && b !in a.g.repr && a !in b.g.repr
    ensures forall c :: c in a.g.chains ==> c !in b.g.chains
    ensures forall i, j :: 0 <= i < |a.g.chains| && 0 <= j < |b.g.chains| ==> a.g.chains[i] != b.g.chains[j]
  {
    forall i, j | 0 <= i < |a.g.chains| && 0 <= j < |b.g.chains| ensures a.g.chains[i] != b.g.chains[j] {
      assert a.g.chains[i] in a.g.repr && b.g.chains[j] in b.g.repr;
    }
  }

  lemma ApartAt(a: EvBuffer, b: EvBuffer, k: nat)
    requires a.Separate() && b.Separate() && Apart(a, b) && k < |a.g.chains|
    ensures a != b
    ensures forall j :: 0 <= j < |b.g.chains| ==> b.g.chains[j] != a.g.chains[k]
  {
    assert a.g.chains[k] in a.g.repr;
  }

  // *chp = src->first, for the slot behind the chains of dst.
  method JoinBack(dst: EvBuffer, src: EvBuffer, slot: Chain?)
    requires dst.Listed() && src.Listed() && Apart(dst, src)
    requires slot == if dst.g.chains == [] then null else dst.g.chains[|dst.g.chains| - 1]
    modifies dst`first, dst`g, (if slot == null then {} else {slot})`next
    ensures dst.Listed() && src.Listed()
    ensures dst.g == Layout(old(dst.g.chains) + src.g.chains, old(dst.g.pieces) + src.g.pieces,
                            |old(dst.g.chains)| + src.g.at, old(dst.g.repr) + (src.g.repr - {src}))
  {
    hide Flatten, Prefix, Distinct, Chain.Data, Chain.Ok;
    ApartChains(dst, src);
    DistinctJoin(dst.g.chains, src.g.chains);
    if slot == null {
      dst.first := src.first;
    } else {
      DistinctAt(dst.g.chains, |dst.g.chains| - 1);
      slot.next := src.first;
    }
    dst.g := Layout(dst.g.chains + src.g.chains, dst.g.pieces + src.g.pieces,
                    |dst.g.chains| + src.g.at, dst.g.repr + (src.g.repr - {src}));
  }

  // src->last->next = dst->first; dst->first = src->first.
  method JoinFront(dst: EvBuffer, src: EvBuffer, ghost at: nat)
    requires dst.Listed() && src.Listed() && src.LastExact() && src.g.chains != [] && Apart(dst, src)
    modifies dst`first, dst`g, src.last`next
    ensures dst.Listed()
    ensures dst.g == Layout(src.g.chains + old(dst.g.chains), src.g.pieces + old(dst.g.pieces),
                            at, old(dst.g.repr) + (src.g.repr - {src}))
  {
    hide Flatten, Prefix, Distinct, Chain.Data, Chain.Ok;
    ApartChains(dst, src);
    DistinctJoin(src.g.chains, dst.g.chains);
    DistinctAt(src.g.chains, |src.g.chains| - 1);
    src.last.next := dst.first;
    dst.first := src.first;
    dst.g := Layout(src.g.chains + dst.g.chains, src.g.pieces + dst.g.pieces, at, dst.g.repr + (src.g.repr - {src}));
  }

  // ZERO_CHAIN on a buffer whose chains have moved elsewhere, with its bytes counted as deleted.
  method Emptied(src: EvBuffer)
    requires src.totalLen == src.base + src.nAdd - src.nDel
    modifies src
    ensures src.Valid() && src.SameSwitches()
    ensures src.Contents() == [] && src.g == Layout([], [], 0, {src})
  {
    src.nDel := src.nDel + src.totalLen;
    src.first, src.last, src.lwd, src.totalLen := null, null, null, 0;
    src.g := Layout([], [], 0, {src});
  }

  lemma ApartListed(a: EvBuffer, b: EvBuffer)
    requires a.Listed() && b.Listed() && Apart(a, b)
    ensures a != b && |b.g.pieces| == |b.g.chains|
  {
    a.OwnsItself();
    b.OwnsItself();
  }

  // dst->first = src->first, when dst has no chains left.
  method TakeList(dst: EvBuffer, src: EvBuffer)
    requires dst.Listed() && src.Listed() && Apart(dst, src)
    modifies dst`first, dst`g
    ensures dst.Listed() && src.Listed() && dst.g == src.g.(repr := old(dst.g.repr) + (src.g.repr - {src}))
  {
    hide Flatten, Prefix, Distinct, Chain.Data, Chain.Ok;
    ApartChains(dst, src);
    dst.first := src.first;
    dst.g := src.g.(repr := dst.g.repr + (src.g.repr - {src}));
  }

  lemma CopiedCaches(dst: EvBuffer, src: EvBuffer)
    requires dst.g.chains == src.g.chains && dst.g.pieces == src.g.pieces && dst.g.at == src.g.at && |src.g.pieces| == |src.g.chains|
    requires dst.last == src.last && dst.lwd == src.lwd && src.LastExact() && src.SlotExact()
    ensures dst.LastExact() && dst.SlotExact()
  {
  }

  // COPY_CHAIN; the chains dst had, all empty, are freed.
  method CopyChain(dst: EvBuffer, src: EvBuffer)
    requires dst.Valid() && src.Shape() && Apart(dst, src) && dst.totalLen == 0
    modifies dst
    ensures dst.Valid() && dst.SameSwitches() && src.Shape() && dst.Contents() == src.Contents()
    ensures dst.g.repr == old(dst.g.repr) + (src.g.repr - {src})
  {
    hide Flatten, Prefix, Apart, EvBuffer.Listed, EvBuffer.SlotExact, EvBuffer.LastExact;
    ApartListed(dst, src);
    TakeList(dst, src);
    dst.last, dst.lwd := src.last, src.lwd;
    dst.totalLen := src.totalLen;
    dst.nAdd := dst.nAdd + src.totalLen;
    CopiedCaches(dst, src);
  }

  // Free the chains of dst behind its data, and link those of src there.
  method AppendLists(dst: EvBuffer, src: EvBuffer) returns (slot: Chain?)
    requires dst.Shape() && src.Shape() && Apart(dst, src) && dst.totalLen > 0 && src.totalLen > 0
    modifies dst`first, dst`g, dst.TailNode()`next
    ensures dst.Listed() && src.Listed()
    ensures dst.g.repr == old(dst.g.repr) + (src.g.repr - {src})
    ensures dst.Contents() == old(dst.Contents()) + src.Contents()
    ensures dst.Caches(if src.lwd == null then slot else src.lwd, src.last)
  {
    hide Flatten, Prefix, Distinct, Chain.Data, Chain.Ok, EvBuffer.Linked;
    BufferDrain.DataBounds(dst);
    BufferDrain.DataBounds(src);
    ApartAt(dst, src, dst.g.at);
    slot := dst.FreeTrailingEmptyChains();
    FlattenConcat(dst.g.pieces, src.g.pieces);
    JoinBack(dst, src, slot);
  }

  // APPEND_CHAIN
  method AppendChain(dst: EvBuffer, src: EvBuffer)
    requires dst.Valid() && src.Shape() && Apart(dst, src) && src.totalLen > 0 && dst.totalLen > 0
    modifies dst, dst.g.chains
    ensures dst.Valid() && dst.SameSwitches() && src.Shape()
    ensures dst.Contents() == old(dst.Contents()) + src.Contents()
    ensures dst.g.repr == old(dst.g.repr) + (src.g.repr - {src})
  {
    hide Flatten, Prefix, Distinct, EvBuffer.Caches, EvBuffer.Separate, EvBuffer.Linked, EvBuffer.Holds, EvBuffer.SlotExact;
    ApartChains(dst, src);
    dst.SlotFacts();
    var slot := AppendLists(dst, src);
    if src.lwd != null {
      slot := src.lwd;
    }
    dst.SetCaches(slot, src.last, src.totalLen);
  }

  // src->last->next = dst->first; dst->first = src->first: the lists are joined.
  method PrependLists(dst: EvBuffer, src: EvBuffer)
    requires dst.Shape() && src.Shape() && Apart(dst, src) && dst.totalLen > 0 && src.totalLen > 0
    modifies dst`first, dst`g, src.last`next
    ensures dst.Listed()
    ensures dst.g.repr == old(dst.g.repr) + (src.g.repr - {src})
    ensures dst.Contents() == old(src.Contents()) + old(dst.Contents())
    ensures dst.Caches(if dst.lwd == null then src.last else dst.lwd, dst.last)
  {
    hide Flatten, Prefix, Distinct, Chain.Data, Chain.Ok, EvBuffer.Linked;
    BufferDrain.DataBounds(dst);
    BufferDrain.DataBounds(src);
    FlattenConcat(src.g.pieces, dst.g.pieces);
    JoinFront(dst, src, |src.g.chains| + dst.g.at);
  }

  // PREPEND_CHAIN; *last_with_datap is not NULL, since dst holds data.
  method PrependChain(dst: EvBuffer, src: EvBuffer)
    requires dst.Valid() && src.Shape() && Apart(dst, src) && src.totalLen > 0 && dst.totalLen > 0
    modifies dst, src.g.chains
    ensures dst.Valid() && dst.SameSwitches()
    ensures dst.Contents() == old(src.Contents()) + old(dst.Contents())
    ensures dst.g.repr == old(dst.g.repr) + (src.g.repr - {src})
    ensures unchanged(src)
  {
    hide Flatten, Prefix, Distinct, EvBuffer.Caches, EvBuffer.Separate, EvBuffer.Linked, EvBuffer.Holds, EvBuffer.SlotExact;
    ApartChains(dst, src);
    src.SlotFacts();
    BufferDrain.DataBounds(src);
    PrependLists(dst, src);
    dst.SetCaches(if dst.lwd == null then src.last else dst.lwd, dst.last, src.totalLen);
  }

  // evbuffer_add_buffer
  method AddBuffer(outbuf: EvBuffer, inbuf: EvBuffer) returns (result: int)
    requires outbuf.Valid() && inbuf.Valid() && (outbuf != inbuf ==> Apart(outbuf, inbuf))
    modifies outbuf, inbuf, outbuf.g.chains
    ensures outbuf.Valid() && inbuf.Valid() && (outbuf != inbuf ==> Apart(outbuf, inbuf))
    ensures outbuf.SameSwitches() && inbuf.SameSwitches()
    ensures outbuf.g.repr + inbuf.g.repr == old(outbuf.g.repr + inbuf.g.repr)
    ensures var idle := old(inbuf.totalLen) == 0 || outbuf == inbuf;
            result == (if !idle && (outbuf.freezeEnd || inbuf.freezeStart) then -1 else 0) &&
            if idle || result < 0
            then outbuf.Contents() == old(outbuf.Contents()) && inbuf.Contents() == old(inbuf.Contents())
            else outbuf.Contents() == old(outbuf.Contents()) + old(inbuf.Contents()) && inbuf.Contents() == []
  {
    hide Flatten, Prefix, Distinct, EvBuffer.Listed, EvBuffer.SlotExact, EvBuffer.LastExact;
    if inbuf.totalLen == 0 || outbuf == inbuf {
      return 0;
    }
    if outbuf.freezeEnd || inbuf.freezeStart {
      return -1;
    }
    assert outbuf in outbuf.g.repr && inbuf in inbuf.g.repr by { outbuf.OwnsItself(); inbuf.OwnsItself(); }
    if outbuf.totalLen == 0 {
      CopyChain(outbuf, inbuf);
    } else {
      AppendChain(outbuf, inbuf);
    }
    Emptied(inbuf);
    inbuf.InvokeCallbacks();
    outbuf.InvokeCallbacks();
    return 0;
  }

  // evbuffer_prepend_buffer
  method PrependBuffer(outbuf: EvBuffer, inbuf: EvBuffer) returns (result: int)
    requires outbuf.Valid() && inbuf.Valid() && (outbuf != inbuf ==> Apart(outbuf, inbuf))
    modifies outbuf, inbuf, inbuf.g.chains
    ensures outbuf.Valid() && inbuf.Valid() && (outbuf != inbuf ==> Apart(outbuf, inbuf))
    ensures outbuf.SameSwitches() && inbuf.SameSwitches()
    ensures outbuf.g.repr + inbuf.g.repr == old(outbuf.g.repr + inbuf.g.repr)
    ensures var idle := old(inbuf.totalLen) == 0 || outbuf == inbuf;
            result == (if !idle && (outbuf.freezeStart || inbuf.freezeStart) then -1 else 0) &&
            if idle || result < 0
            then outbuf.Contents() == old(outbuf.Contents()) && inbuf.Contents() == old(inbuf.Contents())
            else outbuf.Contents() == old(inbuf.Contents()) + old(outbuf.Contents()) && inbuf.Contents() == []
  {
    hide Flatten, Prefix, Distinct, EvBuffer.Listed, EvBuffer.SlotExact, EvBuffer.LastExact;
    if inbuf.totalLen == 0 || outbuf == inbuf {
      return 0;
    }
    if outbuf.freezeStart || inbuf.freezeStart {
      return -1;
    }
    assert outbuf in outbuf.g.repr && inbuf in inbuf.g.repr by { outbuf.OwnsItself(); inbuf.OwnsItself(); }
    if outbuf.totalLen == 0 {
      CopyChain(outbuf, inbuf);
    } else {
      PrependChain(outbuf, inbuf);
    }
    Emptied(inbuf);
    inbuf.InvokeCallbacks();
    outbuf.InvokeCallbacks();
    return 0;
  }

  // advance_last_with_data: bring the slot up to the last chain with data.
  method AdvanceLastWithData(buf: EvBuffer)
    requires buf.Listed() && SlotAt(buf)
    modifies buf`lwd, buf`g
    ensures buf.Listed() && buf.SlotExact()
    ensures buf.g == old(buf.g).(at := buf.g.at)
  {
    hide Flatten, Prefix, Distinct, EvBuffer.Separate, EvBuffer.Linked, EvBuffer.Holds;
    SlotAtFacts(buf);
    var slot, chain := buf.lwd, buf.SlotChain();
    if chain == null {
      return;
    }
    ghost var k: nat, at: nat := buf.g.at, buf.g.at;
    buf.NextFacts(k);
    while chain.next != null
      invariant buf.Listed() && buf.g == old(buf.g) && at <= k < |buf.g.chains|
      invariant chain == buf.g.chains[k]
      invariant chain.next == if k + 1 < |buf.g.chains| then buf.g.chains[k + 1] else null
      invariant buf.lwd == if at == 0 then null else buf.g.chains[at - 1]
      invariant at > 0 ==> buf.g.pieces[at] != []
      invariant forall i :: at < i <= k ==> buf.g.pieces[i] == []
      decreases |buf.g.chains| - k
    {
      slot, chain, k := chain, chain.next, k + 1;
      buf.NextFacts(k);
      if chain.off != 0 {
        buf.lwd := slot;
        at := k;
      }
    }
    buf.SetAt(at);
  }

  lemma SlotAtFacts(buf: EvBuffer)
    requires buf.Listed() && SlotAt(buf)
    ensures buf.SlotChain() == null <==> buf.g.chains == []
    ensures buf.g.chains != [] ==> buf.g.at < |buf.g.chains| && buf.SlotChain() == buf.g.chains[buf.g.at]
  {
    hide Flatten, Prefix, Distinct, EvBuffer.Holds;
    if 0 < buf.g.at {
      buf.NextFacts(buf.g.at - 1);
    }
  }

  // The slot is that of chain `at`, which may lie before the last data.
  ghost predicate SlotAt(buf: EvBuffer)
    reads buf`g, buf`lwd
  {
    && |buf.g.pieces| == |buf.g.chains|
    && if buf.g.at == 0 then buf.lwd == null
       else buf.g.at < |buf.g.chains| && buf.lwd == buf.g.chains[buf.g.at - 1] && buf.g.pieces[buf.g.at] != []
  }

  // The chains that leave a buffer with its first k chains.
  ghost function Moved(all: Layout, k: nat): set<object>
    requires k <= |all.chains|
  {
    set i | 0 <= i < k :: all.chains[i]
  }

  // previous->next = NULL; src->first = chain: the first k chains are on their own.
  method DetachFront(src: EvBuffer, chain: Chain, previous: Chain, ghost k: nat)
    requires src.Listed() && 0 < k <= src.g.at && k < |src.g.chains|
    requires chain == src.g.chains[k] && previous == src.g.chains[k - 1]
    modifies src`first, src`g, previous`next
    ensures src.Listed() && src.first == chain
    ensures Segment(old(src.g.chains)[..k], old(src.g.pieces)[..k])
    ensures src.g == old(Layout(src.g.chains[k..], src.g.pieces[k..], src.g.at - k, src.g.repr - Moved(src.g, k)))
  {
    hide Flatten, Prefix, Distinct, Chain.Data, Chain.Ok, Moved;
    DistinctCut(src.g.chains, k);
    DistinctAt(src.g.chains, k - 1);
    MovedSplit(src, src.g, k);
    previous.next := null;
    src.first := chain;
    src.g := Layout(src.g.chains[k..], src.g.pieces[k..], src.g.at - k, src.g.repr - Moved(src.g, k));
  }

  // *chp = head, for the slot behind the chains of dst and a list on its own.
  method JoinSegment(dst: EvBuffer, slot: Chain?, head: Chain, ghost cs: seq<Chain>, ghost ps: seq<seq<byte>>,
                     ghost moved: set<object>)
    requires dst.Listed() && cs != [] && Segment(cs, ps) && head == cs[0]
    requires forall i :: 0 <= i < |cs| ==> cs[i] in moved
    requires dst.g.repr !! moved
    requires slot == if dst.g.chains == [] then null else dst.g.chains[|dst.g.chains| - 1]
    modifies dst`first, dst`g, (if slot == null then {} else {slot})`next
    ensures dst.Listed()
    ensures dst.g == old(Layout(dst.g.chains + cs, dst.g.pieces + ps, dst.g.at, dst.g.repr + moved))
  {
    hide Flatten, Prefix, Distinct, Chain.Data, Chain.Ok;
    assert forall c :: c in dst.g.chains ==> c !in cs;
    DistinctJoin(dst.g.chains, cs);
    if slot == null {
      dst.first := head;
    } else {
      DistinctAt(dst.g.chains, |dst.g.chains| - 1);
      slot.next := head;
    }
    dst.g := Layout(dst.g.chains + cs, dst.g.pieces + ps, dst.g.at, dst.g.repr + moved);
  }

  // Move the first k chains of src behind the chains of dst.
  method MoveFront(dst: EvBuffer, src: EvBuffer, slot: Chain?, chain: Chain, previous: Chain, ghost k: nat)
    requires dst.Listed() && src.Listed() && Apart(dst, src)
    requires slot == if dst.g.chains == [] then null else dst.g.chains[|dst.g.chains| - 1]
    requires 0 < k <= src.g.at && k < |src.g.chains| && chain == src.g.chains[k] && previous == src.g.chains[k - 1]
    modifies dst`first, dst`g, src`first, src`g, previous`next, (if slot == null then {} else {slot})`next
    ensures dst.Listed() && src.Listed()
    ensures src.first == chain
    ensures dst.g == old(Layout(dst.g.chains + src.g.chains[..k], dst.g.pieces + src.g.pieces[..k],
                                dst.g.at, dst.g.repr + Moved(src.g, k)))
    ensures src.g == old(Layout(src.g.chains[k..], src.g.pieces[k..], src.g.at - k, src.g.repr - Moved(src.g, k)))
  {
    hide Flatten, Prefix, Distinct, Segment, Chain.Data, Chain.Ok, Moved;
    ApartChains(dst, src);
    MovedSplit(src, src.g, k);
    ghost var o, moved := src.g, Moved(src.g, k);
    var head := src.first;
    DetachFront(src, chain, previous, k);
    JoinSegment(dst, slot, head, o.chains[..k], o.pieces[..k], moved);
  }

  lemma MovedSplit(src: EvBuffer, all: Layout, k: nat)
    requires Distinct(all.chains) && k <= |all.chains|
    requires forall i :: 0 <= i < |all.chains| ==> all.chains[i] in all.repr
    ensures forall i :: 0 <= i < k ==> all.chains[i] in Moved(all, k)
    ensures forall i :: k <= i < |all.chains| ==> all.chains[i] in all.repr - Moved(all, k)
    ensures Moved(all, k) <= all.repr && src !in Moved(all, k)
  {
  }

  // The slot has been kept clear of the first k chains.
  ghost predicate Cleared(g: Layout, lwd: Chain?, k: nat) {
    && k <= g.at < |g.chains| == |g.pieces| && g.pieces[g.at] != []
    && (forall i :: g.at < i < |g.chains| ==> g.pieces[i] == [])
    && lwd == if k == g.at then null else g.chains[g.at - 1]
  }

  lemma MovedApart(dst: EvBuffer, out: set<object>, all: Layout, k: nat)
    requires out !! all.repr && k <= |all.chains|
    requires forall i :: 0 <= i < |all.chains| ==> all.chains[i] in all.repr
    ensures (out + Moved(all, k)) !! (all.repr - Moved(all, k))
    ensures out + Moved(all, k) + (all.repr - Moved(all, k)) == out + all.repr
  {
  }

  // Free the empty chains behind the data of dst, and move the first k chains of src there.
  method MoveLists(dst: EvBuffer, src: EvBuffer, chain: Chain, previous: Chain, ghost k: nat)
    requires dst.Shape() && src.Listed() && Apart(dst, src)
    requires 0 < k <= src.g.at < |src.g.chains| == |src.g.pieces| && chain == src.g.chains[k] && previous == src.g.chains[k - 1]
    modifies dst`first, dst`g, src`first, src`g, previous`next, dst.TailNode()`next
    ensures dst.Listed() && SlotAt(dst) && src.first == chain && Apart(dst, src)
    ensures src.Listed()
    ensures dst.g.repr + src.g.repr == old(dst.g.repr + src.g.repr)
    ensures dst.g.chains != [] && previous == dst.g.chains[|dst.g.chains| - 1]
    ensures dst.Contents() == old(dst.Contents()) + old(Flatten(src.g.pieces[..k]))
    ensures src.g.chains == old(src.g.chains)[k..] && src.g.pieces == old(src.g.pieces)[k..]
    ensures src.g.at == old(src.g.at) - k
  {
    hide Flatten, Prefix, Distinct, Chain.Data, Chain.Ok, Moved, EvBuffer.Linked;
    ApartNode(dst, src);
    MovedApart(dst, dst.g.repr, src.g, k);
    var slot := dst.FreeTrailingEmptyChains();
    FlattenConcat(dst.g.pieces, src.g.pieces[..k]);
    MoveFront(dst, src, slot, chain, previous, k);
  }

  lemma ApartNode(dst: EvBuffer, src: EvBuffer)
    requires dst.Shape() && src.Separate() && Apart(dst, src)
    ensures dst != src
    ensures forall c :: c in dst.TailNode() ==> c in dst.g.chains
    ensures forall c, j :: c in dst.TailNode() && 0 <= j < |src.g.chains| ==> c != src.g.chains[j]
  {
    hide Flatten, Prefix, Distinct;
    if 0 < dst.Kept() <= |dst.g.chains| {
      ApartAt(dst, src, dst.Kept() - 1);
    }
  }

  // The caches of dst after n bytes of whole chains, the last of them `previous`, have arrived.
  method FinishDst(dst: EvBuffer, previous: Chain, n: nat)
    requires dst.Listed() && SlotAt(dst) && dst.g.chains != [] && previous == dst.g.chains[|dst.g.chains| - 1]
    requires |dst.Contents()| == dst.totalLen + n && dst.totalLen == dst.base + dst.nAdd - dst.nDel
    modifies dst`last, dst`lwd, dst`g, dst`totalLen, dst`nAdd
    ensures dst.Valid() && dst.g.repr == old(dst.g.repr) && dst.Contents() == old(dst.Contents())
  {
    hide Flatten, Prefix, Distinct, EvBuffer.Separate, EvBuffer.Linked, EvBuffer.Holds, SlotAt;
    dst.last := previous;
    AdvanceLastWithData(dst);
    dst.totalLen := dst.totalLen + n;
    dst.nAdd := dst.nAdd + n;
  }

  // The caches and the accounting of src after its first k chains, n bytes, have left.
  method FinishSrc(src: EvBuffer, n: nat, ghost o: Layout, ghost k: nat)
    requires src.Listed() && Cleared(o, src.lwd, k) && src.last == o.chains[|o.chains| - 1]
    requires src.g.chains == o.chains[k..] && src.g.pieces == o.pieces[k..] && src.g.at == o.at - k
    requires |src.Contents()| == src.totalLen - n && src.totalLen == src.base + src.nAdd - src.nDel
    modifies src`totalLen, src`nDel
    ensures src.Valid()
  {
    hide Flatten, Prefix, Distinct, EvBuffer.Separate, EvBuffer.Linked, EvBuffer.Holds;
    src.totalLen := src.totalLen - n;
    src.nDel := src.nDel + n;
  }

  // The splice in evbuffer_remove_buffer: the chains of src that go as a whole move to dst.
  method SpliceWhole(dst: EvBuffer, src: EvBuffer, chain: Chain, previous: Chain, n: nat, ghost k: nat)
    requires dst.Valid() && Apart(dst, src)
    requires src.Listed() && src.LastExact() && src.totalLen == |src.Contents()| == src.base + src.nAdd - src.nDel
    requires 0 < k <= src.g.at < |src.g.chains| == |src.g.pieces| && chain == src.g.chains[k] && previous == src.g.chains[k - 1]
    requires n == |Prefix(src.g.pieces, k)| && Cleared(src.g, src.lwd, k)
    modifies dst, src, previous`next, dst.TailNode()`next
    ensures dst.Valid() && src.Valid() && Apart(dst, src) && dst.SameSwitches() && src.SameSwitches()
    ensures dst.g.repr + src.g.repr == old(dst.g.repr + src.g.repr)
    ensures src.first == chain
    ensures n <= |old(src.Contents())|
    ensures dst.Contents() == old(dst.Contents()) + old(src.Contents())[..n]
    ensures src.Contents() == old(src.Contents())[n..]
  {
    hide Flatten, Prefix, Distinct, Chain.Data, Chain.Ok, EvBuffer.Separate, EvBuffer.Linked, EvBuffer.Holds, SlotAt, Cleared;
    FlattenDrop(src.g.pieces, k);
    FlattenSplit(src.g.pieces, k);
    ApartNode(dst, src);
    ghost var o := src.g;
    MoveLists(dst, src, chain, previous, k);
    FinishDst(dst, previous, n);
    FinishSrc(src, n, o, k);
  }

  // The loop of evbuffer_remove_buffer: k whole chains, n bytes in all, are to move.
  method WalkWhole(src: EvBuffer, datlen: nat)
    returns (chain: Chain, previous: Chain, n: nat, ghost k: nat)
    requires src.Shape() && datlen < src.totalLen
    modifies src`lwd
    ensures src.Listed() && src.LastExact() && k <= src.g.at < |src.g.chains| == |src.g.pieces|
    ensures n == |Prefix(src.g.pieces, k)| <= datlen < n + chain.off
    ensures chain == src.g.chains[k] && chain.Ok() && (k > 0 ==> previous == src.g.chains[k - 1])
    ensures Cleared(src.g, src.lwd, k)
    ensures chain == src.first <==> k == 0
    ensures k == 0 ==> n == 0 && src.lwd == old(src.lwd)
  {
    hide Flatten, Chain.Data;
    var remaining;
    BufferDrain.DataBounds(src);
    chain, previous, remaining, k := BufferDrain.SkipWhole(src, datlen);
    n := datlen - remaining;
  }

  // How many of the first k pieces lie whole in the first n bytes.
  ghost function Whole(pieces: seq<seq<byte>>, n: nat, k: nat): (w: nat)
    requires k <= |pieces|
    ensures w <= k && |Prefix(pieces, w)| <= n
  {
    if |Prefix(pieces, k)| <= n then k else Whole(pieces, n, k - 1)
  }

  // How many of the first n bytes are the start of a piece that does not lie whole in them.
  ghost function Cut(pieces: seq<seq<byte>>, n: nat): nat {
    n - |Prefix(pieces, Whole(pieces, n, |pieces|))|
  }

  lemma {:induction false} WholeIs(pieces: seq<seq<byte>>, n: nat, k: nat, j: nat)
    requires k < j <= |pieces| && |Prefix(pieces, k)| <= n < |Prefix(pieces, k)| + |pieces[k]|
    ensures Whole(pieces, n, j) == k
  {
    PrefixMonotone(pieces, k + 1, j);
    assert |Prefix(pieces, k + 1)| > n;
    if j > k + 1 {
      WholeIs(pieces, n, k, j - 1);
    }
  }

  // ... and the splice of the chains it has walked over.
  method RemoveWhole(src: EvBuffer, dst: EvBuffer, datlen: nat) returns (chain: Chain, remaining: nat)
    requires src.Valid() && dst.Valid() && Apart(dst, src) && datlen < src.totalLen
    modifies src, dst, src.g.chains, dst.g.chains
    ensures src.Valid() && dst.Valid() && Apart(dst, src) && src.SameSwitches() && dst.SameSwitches()
    ensures dst.g.repr + src.g.repr == old(dst.g.repr + src.g.repr)
    ensures chain == src.first && chain.Ok() && remaining < chain.off && remaining <= datlen < |old(src.Contents())|
    ensures remaining == Cut(old(src.g.pieces), datlen)
    ensures src.Contents() == old(src.Contents())[datlen - remaining..]
    ensures dst.Contents() == old(dst.Contents()) + old(src.Contents())[..datlen - remaining]
  {
    hide Flatten, Prefix, Distinct, Chain.Data, EvBuffer.Separate, EvBuffer.Linked, EvBuffer.Holds, Cleared;
    ApartNode(dst, src);
    var previous, n;
    ghost var k;
    chain, previous, n, k := WalkWhole(src, datlen);
    remaining := datlen - n;
    src.NextFacts(k);
    WholeIs(src.g.pieces, datlen, k, |src.g.pieces|);
    if chain != src.first {
      SpliceWhole(dst, src, chain, previous, n, k);
    }
  }

  // The part of evbuffer_remove_buffer that leaves data in src. The bytes of the partly moved
  // chain go through evbuffer_add, whose failure is not looked at: `lost` counts what is then
  // in neither buffer.
  method RemovePart(src: EvBuffer, dst: EvBuffer, datlen: nat) returns (ghost lost: nat)
    requires src.Valid() && dst.Valid() && Apart(dst, src) && datlen < src.totalLen && !dst.freezeEnd
    modifies src.g.repr, dst.g.repr
    ensures src.Valid() && dst.Valid() && Apart(dst, src) && src.SameSwitches() && dst.SameSwitches()
    ensures fresh(dst.g.repr + src.g.repr - old(dst.g.repr + src.g.repr))
    ensures datlen < |old(src.Contents())| && src.Contents() == old(src.Contents())[datlen..]
    ensures lost <= datlen && dst.Contents() == old(dst.Contents()) + old(src.Contents())[..datlen - lost]
    ensures lost == if old(dst.totalLen) + datlen > SIZE_MAX then Cut(old(src.g.pieces), datlen) else 0
  {
    hide Flatten, Prefix, Distinct, Cut, EvBuffer.Listed, EvBuffer.SlotExact, EvBuffer.LastExact, Chain.Data;
    src.OwnsItself();
    dst.OwnsItself();
    var chain, remaining := RemoveWhole(src, dst, datlen);
    src.OwnsItself();
    dst.OwnsItself();
    lost := MoveRest(src, dst, chain, remaining);
  }

  // Copy n bytes of the first chain of src to dst and take them off src.
  method MoveRest(src: EvBuffer, dst: EvBuffer, chain: Chain, n: nat) returns (ghost lost: nat)
    requires src.Valid() && dst.Valid() && Apart(dst, src) && chain == src.first && chain.Ok() && n < chain.off
    requires !dst.freezeEnd
    modifies src, dst, src.g.chains, dst.g.chains
    ensures src.Valid() && dst.Valid() && Apart(dst, src) && src.SameSwitches() && dst.SameSwitches()
    ensures fresh(dst.g.repr + src.g.repr - old(dst.g.repr + src.g.repr))
    ensures n <= |old(src.Contents())| && src.Contents() == old(src.Contents())[n..]
    ensures dst.Contents() == old(dst.Contents()) + if lost == 0 then old(src.Contents())[..n] else []
    ensures lost == if n > 0 && old(dst.totalLen) + n > SIZE_MAX then n else 0
  {
    hide Flatten, Prefix, Distinct, EvBuffer.Separate, EvBuffer.Linked, EvBuffer.SlotExact, Chain.Data;
    ApartChains(dst, src);
    FirstBytes(src, n);
    var r := BufferAdd.Add(dst, chain.mem[chain.misalign..chain.misalign + n]);
    lost := if r < 0 then n else 0;
    ApartChains(dst, src);
    assert chain == src.g.chains[0];
    BufferDrain.ShrinkFirst(src, chain, n);
  }

  // The first chain holds the first bytes.
  lemma FirstBytes(buf: EvBuffer, n: nat)
    requires buf.Shape() && buf.first != null && buf.first.Ok() && n <= buf.first.off
    ensures buf.g.chains != [] && buf.first == buf.g.chains[0] && n <= |buf.Contents()|
    ensures buf.Contents()[..n] == buf.first.mem[buf.first.misalign..buf.first.misalign + n]
  {
    FlattenSlice(buf.g.pieces, 0, 0, n);
  }

  // evbuffer_remove_buffer
  method RemoveBuffer(src: EvBuffer, dst: EvBuffer, datlen: nat) returns (result: int, ghost lost: nat)
    requires src.Valid() && dst.Valid() && (dst != src ==> Apart(dst, src))
    modifies src.g.repr, dst.g.repr
    ensures src.Valid() && dst.Valid() && (dst != src ==> Apart(dst, src))
    ensures src.SameSwitches() && dst.SameSwitches()
    ensures fresh(dst.g.repr + src.g.repr - old(dst.g.repr + src.g.repr))
    ensures var idle := datlen == 0 || dst == src;
            var n := if datlen < |old(src.Contents())| then datlen else |old(src.Contents())|;
            if idle || dst.freezeEnd || src.freezeStart
            then result == (if idle then 0 else -1) && lost == 0 &&
                 src.Contents() == old(src.Contents()) && dst.Contents() == old(dst.Contents())
            else result == ToInt(n) && lost <= n && src.Contents() == old(src.Contents())[n..] &&
                 dst.Contents() == old(dst.Contents()) + old(src.Contents())[..n - lost]
    ensures datlen > 0 && dst != src && !dst.freezeEnd && !src.freezeStart ==>
              lost == if datlen < old(src.totalLen) && old(dst.totalLen) + datlen > SIZE_MAX then Cut(old(src.g.pieces), datlen) else 0
  {
    hide Cut, ToInt, Flatten, Prefix, Distinct, EvBuffer.Listed, EvBuffer.SlotExact, EvBuffer.LastExact;
    if datlen == 0 || dst == src {
      return 0, 0;
    }
    if dst.freezeEnd || src.freezeStart {
      return -1, 0;
    }
    src.OwnsItself();
    dst.OwnsItself();
    if datlen >= src.totalLen {
      result := ToInt(src.totalLen);
      var _ := AddBuffer(dst, src);
      lost := 0;
    } else {
      lost := RemovePart(src, dst, datlen);
      src.InvokeCallbacks();
      dst.InvokeCallbacks();
      result := ToInt(datlen);
    }
  }
}
