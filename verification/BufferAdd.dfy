// Appending and prepending: evbuffer_add, evbuffer_prepend.
module BufferAdd {
  import opened Bytes
  import opened Evbuffer

  // evbuffer_chain_should_realign
  predicate ShouldRealign(chain: Chain, datlen: nat)
    requires chain.Ok()
    reads chain
  {
    |chain.mem| - chain.off >= datlen && chain.off < |chain.mem| / 2 && chain.off <= MAX_TO_REALIGN_IN_EXPAND
  }

  // It is worth it for up to 2048 bytes of data in no more than half the memory, less one byte at least.
  lemma RealignWorth(chain: Chain, datlen: nat)
    requires chain.Ok()
    ensures ShouldRealign(chain, datlen) <==> chain.off + datlen <= |chain.mem| && 2 * chain.off + 2 <= |chain.mem| && chain.off <= 2048
  {
  }

  // How large a chain evbuffer_add asks for once the slot chain is full.
  function NextChainSize(capacity: nat, datlen: nat): nat {
    var doubled := if capacity <= MAX_AUTO_SIZE / 2 then capacity * 2 else capacity;
    if datlen > doubled then datlen else doubled
  }

  // Copy `data` into the new chain `tmp` and insert it, counting the bytes as added.
  method InsertFilled(buf: EvBuffer, tmp: Chain, data: seq<byte>)
    requires buf.Valid() && tmp !in buf.g.repr && tmp.Ok() && tmp.next == null
    requires tmp.off == 0 && |data| <= tmp.Space()
    modifies buf, buf.g.chains, tmp
    ensures buf.Valid() && buf.SameSwitches() && buf.g.repr == old(buf.g.repr) + {tmp}
    ensures buf.Contents() == old(buf.Contents()) + data
  {
    hide Flatten, Prefix, Distinct, EvBuffer.Linked, EvBuffer.Holds, EvBuffer.SlotExact, EvBuffer.LastExact;
    buf.SlotFacts();
    tmp.Append(data);
    buf.ChainInsert(tmp);
    buf.nAdd := buf.nAdd + |data|;
  }

  // The last part of evbuffer_add: fill the slot chain, and put the rest in a new chain.
  method Overflow(buf: EvBuffer, chain: Chain, data: seq<byte>) returns (result: int)
    requires buf.Valid() && chain == buf.SlotChain() && chain.Ok() && chain.Space() < |data|
    modifies buf, buf.g.chains
    ensures buf.Valid() && buf.SameSwitches() && fresh(buf.g.repr - old(buf.g.repr))
    ensures result == if |data| <= MAX_PAYLOAD then 0 else -1
    ensures buf.Contents() == old(buf.Contents()) + if result == 0 then data else []
  {
    hide Flatten, Prefix, Distinct, Chain.Data, EvBuffer.Listed, EvBuffer.SlotExact, EvBuffer.LastExact;
    buf.SlotFacts();
    var remain := chain.Space();
    var tmp := ChainNew(NextChainSize(|chain.mem|, |data|));
    if tmp == null {
      return -1;
    }
    assert data == data[..remain] + data[remain..];
    if remain > 0 {
      buf.GrowSlot(chain, data[..remain]);
    }
    InsertFilled(buf, tmp, data[remain..]);
    return 0;
  }

  // The bytes go in the slot chain, as far as there is space, and in a new chain behind it.
  method AddBehind(buf: EvBuffer, chain: Chain, data: seq<byte>) returns (result: int)
    requires buf.Valid() && chain == buf.SlotChain() && chain.Ok()
    modifies buf, buf.g.chains
    ensures buf.Valid() && buf.SameSwitches() && fresh(buf.g.repr - old(buf.g.repr))
    ensures result == if |data| <= MAX_PAYLOAD then 0 else -1
    ensures buf.Contents() == old(buf.Contents()) + if result == 0 then data else []
  {
    hide Flatten, Prefix, Distinct, Chain.Data, EvBuffer.Listed, EvBuffer.SlotExact, EvBuffer.LastExact;
    buf.SlotFacts();
    if chain.Space() >= |data| {
      buf.GrowSlot(chain, data);
    } else if ShouldRealign(chain, |data|) {
      buf.AlignAt(buf.g.at, chain);
      buf.GrowSlot(chain, data);
    } else {
      result := Overflow(buf, chain, data);
      return;
    }
    return 0;
  }

  // evbuffer_add
  method Add(buf: EvBuffer, data: seq<byte>) returns (result: int)
    requires buf.Valid()
    modifies buf, buf.g.chains
    ensures buf.Valid() && buf.SameSwitches() && fresh(buf.g.repr - old(buf.g.repr))
    ensures result == if !buf.freezeEnd && old(buf.totalLen) + |data| <= SIZE_MAX && |data| <= MAX_PAYLOAD
                      then 0 else -1
    ensures buf.Contents() == old(buf.Contents()) + if result == 0 then data else []
  {
    hide Flatten, Prefix, Distinct, Chain.Data, EvBuffer.Listed, EvBuffer.SlotExact, EvBuffer.LastExact;
    if buf.freezeEnd || |data| > SIZE_MAX - buf.totalLen {
      return -1;
    }
    buf.SlotFacts();
    var chain := buf.SlotChain();
    if chain == null {
      chain := ChainNew(|data|);
      if chain == null {
        return -1;
      }
      buf.ChainInsert(chain);
      assert buf.g.chains == [chain];
      buf.SlotFacts();
    }
    result := AddBehind(buf, chain, data);
    if result == 0 {
      buf.InvokeCallbacks();
    }
  }

  // How many bytes evbuffer_prepend can put in front without a new chain.
  function FrontRoom(buf: EvBuffer): nat
    reads buf, buf.first
  {
    if buf.first == null then 0 else if buf.first.off == 0 then |buf.first.mem| else buf.first.misalign
  }

  // Copy into the misalignment of the first chain, counting the bytes as added.
  method GrowFront(buf: EvBuffer, chain: Chain, d: seq<byte>)
    requires buf.Valid() && chain == buf.first && |d| <= chain.misalign
    modifies buf`totalLen, buf`nAdd, buf`g, chain`off, chain`misalign, chain`mem
    ensures buf.Valid() && buf.Contents() == d + old(buf.Contents())
    ensures buf.g.repr == old(buf.g.repr) && buf.g.chains == old(buf.g.chains) && buf.g.at == old(buf.g.at)
    ensures chain.off == old(chain.off) + |d|
  {
    hide Flatten, Prefix, Distinct, Chain.Data, Chain.Ok;
    FlattenGrowFront(buf.g.pieces, d);
    buf.PrependTo(0, chain, d);
    buf.totalLen := buf.totalLen + |d|;
    buf.nAdd := buf.nAdd + |d|;
  }

  lemma FirstPiece(buf: EvBuffer)
    requires buf.Listed() && buf.first != null
    ensures |buf.g.pieces| == |buf.g.chains| > 0 && buf.first == buf.g.chains[0] && |buf.g.pieces[0]| == buf.first.off
  {
    hide Flatten, Prefix, Distinct;
  }

  // Put a chain with data in front of a chain with data.
  method LinkFirst(buf: EvBuffer, tmp: Chain)
    requires buf.Valid() && tmp !in buf.g.repr && tmp.Ok() && tmp.off > 0
    requires buf.first != null && buf.first.off > 0
    modifies buf`first, buf`lwd, buf`totalLen, buf`nAdd, buf`g, tmp`next
    ensures buf.Valid() && buf.g.repr == old(buf.g.repr) + {tmp}
    ensures buf.Contents() == tmp.Data() + old(buf.Contents())
  {
    hide Flatten, Prefix, EvBuffer.Listed;
    FirstPiece(buf);
    assert |tmp.Data()| == tmp.off;
    FlattenCons(tmp.Data(), buf.g.pieces);
    var chain := buf.first;
    if buf.lwd == null && chain.off > 0 {
      buf.lwd := tmp;
    }
    buf.PushFront(tmp, buf.g.at + 1);
    buf.totalLen := buf.totalLen + tmp.off;
    buf.nAdd := buf.nAdd + tmp.off;
  }

  // The last part of evbuffer_prepend: what does not fit goes in a new first chain,
  // flush with the end of its memory.
  method PrependChain(buf: EvBuffer, data: seq<byte>) returns (result: int)
    requires buf.Valid() && buf.first != null && buf.first.off > 0 && data != []
    modifies buf
    ensures buf.Valid() && buf.SameSwitches() && fresh(buf.g.repr - old(buf.g.repr))
    ensures result == if |data| <= MAX_PAYLOAD then 0 else -1
    ensures buf.Contents() == (if result == 0 then data else []) + old(buf.Contents())
  {
    hide Flatten, Prefix, Distinct, EvBuffer.Listed, EvBuffer.SlotExact, EvBuffer.LastExact;
    var tmp := ChainNew(|data|);
    if tmp == null {
      return -1;
    }
    tmp.misalign := |tmp.mem|;
    tmp.Prepend(data);
    LinkFirst(buf, tmp);
    return 0;
  }

  // The chain evbuffer_prepend works on: the first one, made if missing, with its free
  // space in front of the data.
  method FrontChain(buf: EvBuffer, datlen: nat) returns (chain: Chain?)
    requires buf.Valid() && datlen > 0
    modifies buf, buf.first
    ensures buf.Valid() && buf.SameSwitches() && fresh(buf.g.repr - old(buf.g.repr))
    ensures buf.Contents() == old(buf.Contents())
    ensures chain == null <==> old(buf.first) == null && datlen > MAX_PAYLOAD
    ensures chain == null ==> buf.first == null
    ensures chain != null ==> chain == buf.first && (chain in old(buf.g.chains) || fresh(chain))
    ensures chain != null && old(buf.first) != null ==> chain.misalign == old(FrontRoom(buf)) && chain == old(buf.first)
    ensures chain != null && old(buf.first) == null ==> datlen <= chain.misalign
    ensures chain != null && chain.off == 0 ==> chain.misalign > 0
  {
    hide Flatten, Prefix, Distinct, EvBuffer.SlotExact, Chain.Data;
    buf.SlotFacts();
    chain := buf.first;
    if chain == null {
      chain := ChainNew(datlen);
      if chain == null {
        return;
      }
      buf.ChainInsert(chain);
      assert buf.g.chains == [chain];
    }
    if chain.off == 0 {
      buf.SetMisalign(0, chain, |chain.mem|);
    }
  }

  // The bytes go in front of the first chain, as far as there is space, and in a new chain before it.
  method PrependTo(buf: EvBuffer, chain: Chain, data: seq<byte>) returns (result: int)
    requires buf.Valid() && chain == buf.first && data != [] && (chain.off == 0 ==> chain.misalign > 0)
    modifies buf, chain
    ensures buf.Valid() && buf.SameSwitches() && fresh(buf.g.repr - old(buf.g.repr))
    ensures result == if |data| <= old(chain.misalign) + MAX_PAYLOAD then 0 else -1
    ensures buf.Contents() == (if result == 0 then data else data[|data| - old(chain.misalign)..]) + old(buf.Contents())
  {
    hide Flatten, Prefix, Distinct, EvBuffer.Listed, EvBuffer.SlotExact, EvBuffer.LastExact, Chain.Data;
    if chain.misalign >= |data| {
      GrowFront(buf, chain, data);
      return 0;
    }
    var k := |data| - chain.misalign;
    assert data == data[..k] + data[k..] && data[|data|..] + buf.Contents() == buf.Contents();
    if chain.misalign > 0 {
      GrowFront(buf, chain, data[k..]);
    }
    result := PrependChain(buf, data[..k]);
  }

  // evbuffer_prepend. When the part that does not fit in front of the first chain cannot be
  // allocated, -1 is returned although the part that does fit has been prepended.
  method PrependBytes(buf: EvBuffer, data: seq<byte>) returns (result: int)
    requires buf.Valid()
    modifies buf, buf.g.chains
    ensures buf.Valid() && buf.SameSwitches() && fresh(buf.g.repr - old(buf.g.repr))
    ensures var open := !buf.freezeStart && old(buf.totalLen) + |data| <= SIZE_MAX;
            var room := old(FrontRoom(buf));
            result == (if data == [] || (open && |data| <= room + MAX_PAYLOAD) then 0 else -1) &&
            buf.Contents() ==
              (if result == 0 then data else if open then data[|data| - room..] else []) + old(buf.Contents())
  {
    hide Flatten, Prefix, Distinct, EvBuffer.Listed, EvBuffer.SlotExact, EvBuffer.LastExact, Chain.Data;
    if data == [] {
      return 0;
    }
    if buf.freezeStart || |data| > SIZE_MAX - buf.totalLen {
      return -1;
    }
    buf.SlotFacts();
    var chain := FrontChain(buf, |data|);
    if chain == null {
      return -1;
    }
    result := PrependTo(buf, chain, data);
    if result == 0 {
      buf.InvokeCallbacks();
    }
  }
}
