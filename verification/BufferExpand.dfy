// Making room at the end: evbuffer_expand_singlechain, evbuffer_expand.
module BufferExpand {
  import opened Bytes
  import opened Evbuffer
  import BufferAdd

  // Chain k of the buffer is in the slot or behind it.
  ghost predicate Writable(buf: EvBuffer, chain: Chain, k: nat)
    reads buf`g
  {
    buf.g.at <= k < |buf.g.chains| && chain == buf.g.chains[k]
  }

  // What a chain returned by evbuffer_expand_singlechain is good for.
  ghost predicate Provided(buf: EvBuffer, chain: Chain, k: nat, datlen: nat)
    reads buf, buf.g.chains
  {
    Writable(buf, chain, k) && chain.Ok() && datlen <= chain.Space()
  }

  // The position of the first chain with space on it.
  ghost function First(g: Layout): nat
    reads g.chains
  {
    if g.at < |g.chains| && g.chains[g.at].Ok() && g.chains[g.at].Space() == 0 then g.at + 1 else g.at
  }

  // The chain is too full for datlen more bytes, and has data that is not worth moving to its front.
  predicate Short(chain: Chain, datlen: nat)
    requires chain.Ok()
    reads chain
  {
    chain.Space() < datlen && chain.off != 0 && !BufferAdd.ShouldRealign(chain, datlen)
  }

  // Nor is it worth copying it.
  predicate Spent(chain: Chain, datlen: nat)
    requires chain.Ok()
    reads chain
  {
    chain.Space() < |chain.mem| / 8 || chain.off > MAX_TO_COPY_IN_EXPAND || datlen >= CHAIN_MAX - chain.off
  }

  // It is worth it for up to 4096 bytes of data, if an eighth of the memory is free, and all fits a chain.
  lemma CopyWorth(chain: Chain, datlen: nat)
    requires chain.Ok()
    ensures !Spent(chain, datlen) <==>
      8 * chain.Space() + 8 > |chain.mem| && chain.off <= 4096 && chain.off + datlen < 0x7fff_ffff_ffff_ffff
  {
  }

  // The slot chain has space, and data, but too little space.
  ghost predicate SlotShort(g: Layout, datlen: nat)
    reads g.chains
  {
    g.at < |g.chains| && g.chains[g.at].Ok() && g.chains[g.at].Space() != 0 && Short(g.chains[g.at], datlen)
  }

  // The chain behind the slot chain has the space.
  ghost predicate NextHas(g: Layout, datlen: nat)
    reads g.chains
  {
    g.at + 1 < |g.chains| && g.chains[g.at + 1].Ok() && g.chains[g.at + 1].Space() >= datlen
  }

  // The chain behind the slot chain is used, although the slot chain has space.
  ghost predicate PassesOver(g: Layout, datlen: nat)
    reads g.chains
  {
    SlotShort(g, datlen) && Spent(g.chains[g.at], datlen) && NextHas(g, datlen)
  }

  // The slot chain is replaced by a larger copy.
  ghost predicate Copies(g: Layout, datlen: nat)
    reads g.chains
  {
    SlotShort(g, datlen) && !Spent(g.chains[g.at], datlen)
  }

  // A new chain is added.
  ghost predicate NeedsNew(g: Layout, datlen: nat)
    reads g.chains
  {
    var k := First(g);
    || k >= |g.chains|
    || (g.chains[k].Ok() && g.chains[k].Space() < datlen && g.chains[k].off == 0)
    || (SlotShort(g, datlen) && Spent(g.chains[g.at], datlen) && !NextHas(g, datlen))
  }

  // There is no memory for the chain that is needed.
  ghost predicate Fails(g: Layout, datlen: nat)
    reads g.chains
  {
    || (NeedsNew(g, datlen) && datlen > MAX_PAYLOAD)
    || (Copies(g, datlen) && g.chains[g.at].off + datlen > MAX_PAYLOAD)
  }

  // Chain `result` is new, and the last one, behind those with data.
  twostate predicate Inserted(buf: EvBuffer, new result: Chain, datlen: nat)
    reads buf`g, result
  {
    && |result.mem| == Capacity(datlen) && result.off == 0 && result.misalign == 0
    && old(buf.Kept()) <= |old(buf.g.chains)| && buf.g.chains == old(buf.g.chains)[..old(buf.Kept())] + [result]
  }

  // Replace the slot chain by a larger one with the same data.
  method Resize(buf: EvBuffer, chain: Chain, datlen: nat) returns (result: Chain?)
    requires buf.Valid() && chain == buf.SlotChain() && chain.Ok()
    modifies buf, buf.g.chains`next
    ensures buf.Valid() && buf.SameSwitches() && fresh(buf.g.repr - old(buf.g.repr))
    ensures buf.Contents() == old(buf.Contents())
    ensures result == null <==> chain.off + datlen > MAX_PAYLOAD
    ensures result != null ==> Provided(buf, result, buf.g.at, datlen)
  {
    hide Flatten, Prefix, Distinct, Chain.Data, EvBuffer.Separate, EvBuffer.Linked, EvBuffer.Holds, EvBuffer.SlotExact;
    buf.SlotFacts();
    result := LargerCopy(buf, chain, datlen, buf.g.at);
    if result != null {
      Swap(buf, chain, result);
    }
  }

  // *chainp = tmp, for the slot chain.
  method Swap(buf: EvBuffer, chain: Chain, tmp: Chain)
    requires buf.Valid() && buf.g.at < |buf.g.chains| && chain == buf.g.chains[buf.g.at]
    requires tmp !in buf.g.repr && tmp.Ok() && tmp.Data() == buf.g.pieces[buf.g.at]
    modifies buf`first, buf`last, buf`g, buf.g.chains`next, tmp`next
    ensures buf.Valid() && buf.g == old(buf.g.(chains := buf.g.chains[buf.g.at := tmp], repr := buf.g.repr + {tmp}))
  {
    hide Flatten, Prefix, Chain.Data, Chain.Ok, EvBuffer.Linked, EvBuffer.Holds;
    buf.SlotFacts();
    ghost var o := buf.g;
    buf.ReplaceAt(buf.g.at, buf.lwd, chain, tmp);
    FixLast(buf, chain, tmp, o);
  }

  // A new chain with the data of chain k and room for datlen more bytes.
  method LargerCopy(buf: EvBuffer, chain: Chain, datlen: nat, ghost k: nat) returns (tmp: Chain?)
    requires buf.Listed() && k < |buf.g.chains| && chain == buf.g.chains[k]
    ensures chain.Ok() && (tmp == null <==> chain.off + datlen > MAX_PAYLOAD)
    ensures tmp != null ==> fresh(tmp) && tmp.Ok() && tmp.Data() == buf.g.pieces[k] && datlen <= tmp.Space()
  {
    hide Flatten, Prefix, Distinct, Chain.Data, EvBuffer.Separate, EvBuffer.Linked;
    buf.PieceFacts(k);
    tmp := ChainNew(chain.off + datlen);
    if tmp != null {
      tmp.Append(chain.mem[chain.misalign..chain.misalign + chain.off]);
    }
  }

  // if (buf->last == chain) buf->last = tmp, after tmp has taken the place of chain.
  method FixLast(buf: EvBuffer, chain: Chain, tmp: Chain, ghost o: Layout)
    requires buf.Listed() && o.at < |o.chains| && chain == o.chains[o.at] && Distinct(o.chains)
    requires buf.g.chains == o.chains[o.at := tmp] && buf.g.pieces == o.pieces && buf.g.at == o.at
    requires buf.last == o.chains[|o.chains| - 1]
    requires buf.lwd == (if o.at == 0 then null else o.chains[o.at - 1]) && (o.at > 0 ==> o.pieces[o.at] != [])
    requires forall i :: o.at < i < |o.chains| ==> o.pieces[i] == []
    requires buf.totalLen == |buf.Contents()| == buf.base + buf.nAdd - buf.nDel
    modifies buf`last
    ensures buf.Valid()
  {
    hide Flatten, Prefix, Distinct, Chain.Data, EvBuffer.Separate, EvBuffer.Linked;
    DistinctAt(o.chains, o.at);
    if buf.last == chain {
      buf.last := tmp;
    }
  }

  // evbuffer_chain_insert_new
  method InsertNew(buf: EvBuffer, datlen: nat) returns (result: Chain?, ghost k: nat)
    requires buf.Valid()
    modifies buf, buf.g.chains`next
    ensures buf.Valid() && buf.SameSwitches() && fresh(buf.g.repr - old(buf.g.repr))
    ensures buf.Contents() == old(buf.Contents())
    ensures result == null <==> datlen > MAX_PAYLOAD
    ensures result != null ==> Provided(buf, result, k, datlen) && k == |buf.g.chains| - 1 && Inserted(buf, result, datlen)
  {
    hide Flatten, Prefix, Distinct, Chain.Data, EvBuffer.Listed, EvBuffer.SlotExact, EvBuffer.LastExact;
    buf.SlotFacts();
    k := 0;
    result := ChainNew(datlen);
    if result != null {
      buf.ChainInsert(result);
      buf.SlotFacts();
      k := |buf.g.chains| - 1;
    }
  }

  // evbuffer_expand_singlechain; k is the position of the result.
  method ExpandSinglechain(buf: EvBuffer, datlen: nat) returns (result: Chain?, ghost k: nat)
    requires buf.Valid()
    modifies buf, buf.g.chains`next, buf.g.chains`mem, buf.g.chains`misalign
    ensures buf.Valid() && buf.SameSwitches() && fresh(buf.g.repr - old(buf.g.repr))
    ensures buf.Contents() == old(buf.Contents())
    ensures result == null <==> old(Fails(buf.g, datlen))
    ensures result != null ==> Provided(buf, result, k, datlen)
    ensures if old(PassesOver(buf.g, datlen)) then k == buf.g.at + 1 && buf.g == old(buf.g) && unchanged(buf.g.chains)
            else result != null ==> k == |buf.g.chains| - 1 || k == First(buf.g)
    ensures old(NeedsNew(buf.g, datlen)) && result != null ==> Inserted(buf, result, datlen)
    ensures old(NeedsNew(buf.g, datlen)) ==> forall c :: c in old(buf.g.chains) ==> unchanged(c`mem, c`misalign)
  {
    hide Flatten, Prefix, Distinct, Chain.Data, EvBuffer.Separate, EvBuffer.Linked, EvBuffer.Holds;
    buf.SlotFacts();
    var chain := buf.SlotChain();
    k := buf.g.at;
    if chain != null && chain.Space() == 0 {
      buf.NextFacts(k);
      chain, k := chain.next, k + 1;
    }
    if chain == null {
      result, k := InsertNew(buf, datlen);
      return;
    }
    buf.NextFacts(k);
    if chain.Space() >= datlen {
      return chain, k;
    }
    if chain.off == 0 {
      result, k := InsertNew(buf, datlen);
      return;
    }
    if BufferAdd.ShouldRealign(chain, datlen) {
      buf.AlignAt(k, chain);
      return chain, k;
    }
    result, k := NextOrLarger(buf, chain, datlen);
  }

  // The last choice of evbuffer_expand_singlechain: the next chain, a new one, or a larger copy.
  method NextOrLarger(buf: EvBuffer, chain: Chain, datlen: nat) returns (result: Chain?, ghost k: nat)
    requires buf.Valid() && chain == buf.SlotChain() && SlotShort(buf.g, datlen)
    modifies buf, buf.g.chains`next
    ensures buf.Valid() && buf.SameSwitches() && fresh(buf.g.repr - old(buf.g.repr))
    ensures buf.Contents() == old(buf.Contents())
    ensures result == null <==> old(Fails(buf.g, datlen))
    ensures result != null ==> Provided(buf, result, k, datlen)
    ensures if old(PassesOver(buf.g, datlen)) then k == buf.g.at + 1 && buf.g == old(buf.g) && unchanged(buf.g.chains)
            else result != null ==> k == |buf.g.chains| - 1 || k == First(buf.g)
    ensures old(NeedsNew(buf.g, datlen)) && result != null ==> Inserted(buf, result, datlen)
  {
    hide Flatten, Prefix, Distinct, Chain.Data, EvBuffer.Separate, EvBuffer.Linked, EvBuffer.Holds;
    buf.SlotFacts();
    k := buf.g.at;
    buf.NextFacts(k);
    if Spent(chain, datlen) {
      if chain.next != null {
        buf.NextFacts(k + 1);
        if chain.next.Space() >= datlen {
          return chain.next, k + 1;
        }
      }
      result, k := InsertNew(buf, datlen);
    } else {
      result := Resize(buf, chain, datlen);
      k := buf.g.at;
    }
  }

  // evbuffer_expand: the space is in the slot chain or behind it.
  method Expand(buf: EvBuffer, datlen: nat) returns (result: int, ghost k: nat)
    requires buf.Valid()
    modifies buf, buf.g.chains`next, buf.g.chains`mem, buf.g.chains`misalign
    ensures buf.Valid() && buf.SameSwitches() && fresh(buf.g.repr - old(buf.g.repr))
    ensures buf.Contents() == old(buf.Contents())
    ensures result == if old(Fails(buf.g, datlen)) then -1 else 0
    ensures result == 0 ==> buf.g.at <= k < |buf.g.chains| && Provided(buf, buf.g.chains[k], k, datlen)
  {
    hide Flatten, Prefix, Distinct, Fails, PassesOver, NeedsNew, Inserted, First;
    var chain;
    chain, k := ExpandSinglechain(buf, datlen);
    result := if chain != null then 0 else -1;
  }
}
