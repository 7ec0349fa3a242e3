// Linearising the front of a buffer: evbuffer_pullup.
module BufferPullup {
  import opened Bytes
  import opened Evbuffer

  // The copying loop of evbuffer_pullup: walk from chain k0 over the chains that are pulled
  // up as a whole, collecting what is copied out of them and whether the chain in the slot,
  // or the chain holding the slot, goes away.
  method PullWalk(buf: EvBuffer, start: Chain?, want: nat, ghost k0: nat)
    returns (data: seq<byte>, chain: Chain?, size: nat, removedLast: bool, removedLastp: bool, ghost k: nat)
    requires buf.Shape() && buf.g.chains != [] && k0 <= |buf.g.chains|
    requires start == if k0 < |buf.g.chains| then buf.g.chains[k0] else null
    requires |Prefix(buf.g.pieces, k0)| + want <= buf.totalLen
    ensures k0 <= k <= |buf.g.chains| && chain == if k < |buf.g.chains| then buf.g.chains[k] else null
    ensures |data| + size == want && Prefix(buf.g.pieces, k) == Prefix(buf.g.pieces, k0) + data
    ensures if chain == null then size == 0 else size < |buf.g.pieces[k]|
    ensures removedLast <==> k0 <= buf.g.at < k
    ensures removedLastp <==> k0 <= buf.g.at - 1 < k
  {
    hide Distinct, Chain.Data, EvBuffer.Linked, EvBuffer.Holds, EvBuffer.LastExact;
    data, chain, size, removedLast, removedLastp, k := [], start, want, false, false, k0;
    var lastWithData := buf.SlotChain();
    buf.SlotFacts();
    buf.NextFacts(0);
    while chain != null && size >= chain.off
      invariant k0 <= k <= |buf.g.chains| && chain == if k < |buf.g.chains| then buf.g.chains[k] else null
      invariant |data| + size == want && Prefix(buf.g.pieces, k) == Prefix(buf.g.pieces, k0) + data
      invariant removedLast <==> k0 <= buf.g.at < k
      invariant removedLastp <==> k0 <= buf.g.at - 1 < k
      decreases |buf.g.chains| - k
    {
      buf.NextFacts(k);
      DistinctAt(buf.g.chains, k);
      buf.PieceFacts(k);
      data := data + chain.mem[chain.misalign..chain.misalign + chain.off];
      size := size - chain.off;
      if chain == lastWithData {
        removedLast := true;
      }
      if chain == buf.lwd {
        removedLastp := true;
      }
      chain, k := chain.next, k + 1;
    }
    if chain != null {
      buf.NextFacts(k);
    }
  }

  // The list surgery of evbuffer_pullup when the first k chains, all of them, are in `tmp`.
  method PullAll(buf: EvBuffer, tmp: Chain, ghost k: nat)
    requires 0 < k == |buf.g.chains| && buf.ListedFrom(k)
    requires tmp.Ok() && (tmp !in buf.g.repr || tmp == buf.g.chains[0]) && tmp.Data() == Prefix(buf.g.pieces, k)
    modifies buf`first, buf`g, tmp`next
    ensures buf.Listed() && buf.first == tmp && buf.g.repr == old(buf.g.repr) + {tmp}
    ensures buf.g.chains == [tmp] && buf.g.at == 0 && |buf.g.pieces| == 1 && buf.Contents() == old(buf.Contents())
    ensures tmp.Data() == old(tmp.Data())
  {
    hide Prefix, Distinct, Chain.Ok, Chain.Data, EvBuffer.Separate, EvBuffer.Linked;
    FlattenSingle(tmp.Data());
    assert buf.g.chains[k..] == [] && buf.g.pieces[k..] == [];
    ghost var t := tmp.Data();
    buf.ReplaceFront(k, tmp, null, 0);
    assert buf.g.pieces == [t] && buf.g.chains == [tmp];
  }

  // ... and when `size` bytes of chain k are in it, too.
  method PullSome(buf: EvBuffer, tmp: Chain, chain: Chain, size: nat, ghost k: nat)
    requires 0 < k <= buf.g.at < |buf.g.chains| == |buf.g.pieces| && buf.ListedFrom(k) && chain == buf.g.chains[k]
    requires tmp.Ok() && (tmp !in buf.g.repr || tmp == buf.g.chains[0]) && size < |buf.g.pieces[k]|
    requires tmp.Data() == Prefix(buf.g.pieces, k) + buf.g.pieces[k][..size]
    modifies buf`first, buf`g, tmp`next, chain`off, chain`misalign
    ensures buf.Listed() && buf.first == tmp && buf.g.repr == old(buf.g.repr) + {tmp}
    ensures tmp.Data() == old(tmp.Data()) && buf.Contents() == old(buf.Contents())
    ensures buf.g.chains == [tmp] + old(buf.g.chains)[k..] && buf.g.at == old(buf.g.at) + 1 - k
    ensures buf.g.pieces == [tmp.Data(), old(buf.g.pieces)[k][size..]] + old(buf.g.pieces)[k + 1..]
  {
    hide Flatten, Prefix, Distinct, Chain.Ok, Chain.Data, EvBuffer.Linked;
    FlattenPull(buf.g.pieces, k, size);
    ghost var p, t := buf.g.pieces, tmp.Data();
    DistinctAt(buf.g.chains, 0);
    buf.ReplaceFront(k, tmp, chain, buf.g.at + 1 - k);
    buf.ConsumeFrom(1, chain, size);
    assert buf.g.pieces == [t, p[k][size..]] + p[k + 1..];
  }

  // Where the slot and the end are after the first k chains have become one.
  lemma PullCaches(o: Layout, n: Layout, tmp: Chain, t: seq<byte>, size: nat, k: nat)
    requires 0 < k <= o.at < |o.chains| == |o.pieces| && size < |o.pieces[k]| && o.pieces[o.at] != []
    requires forall i :: o.at < i < |o.pieces| ==> o.pieces[i] == []
    requires n.chains == [tmp] + o.chains[k..] && n.at == o.at + 1 - k
    requires n.pieces == [t, o.pieces[k][size..]] + o.pieces[k + 1..]
    ensures 0 < n.at < |n.chains| == |n.pieces| && n.pieces[n.at] != []
    ensures forall i :: n.at < i < |n.pieces| ==> n.pieces[i] == []
    ensures n.chains[n.at - 1] == if o.at == k then tmp else o.chains[o.at - 1]
    ensures n.chains[|n.chains| - 1] == o.chains[|o.chains| - 1]
  {
  }

  // The same, in terms of the caches.
  method PullSomeCached(buf: EvBuffer, tmp: Chain, chain: Chain, size: nat, ghost k: nat)
    requires 0 < k <= buf.g.at < |buf.g.chains| == |buf.g.pieces| && buf.ListedFrom(k) && chain == buf.g.chains[k]
    requires tmp.Ok() && (tmp !in buf.g.repr || tmp == buf.g.chains[0]) && size < |buf.g.pieces[k]|
    requires tmp.Data() == Prefix(buf.g.pieces, k) + buf.g.pieces[k][..size]
    requires buf.Caches(buf.lwd, buf.last)
    modifies buf`first, buf`g, tmp`next, chain`off, chain`misalign
    ensures buf.Listed() && buf.first == tmp && buf.g.repr == old(buf.g.repr) + {tmp}
    ensures tmp.Data() == old(tmp.Data()) && buf.Contents() == old(buf.Contents())
    ensures buf.Caches(if old(buf.g.at) == k then tmp else buf.lwd, buf.last)
    ensures |buf.g.chains| > 1 && buf.g.chains[0] == tmp && buf.g.chains[1] == chain && buf.g.pieces[1] != []
  {
    hide Flatten, Prefix, Distinct, Chain.Ok, Chain.Data, EvBuffer.ListedFrom, EvBuffer.Listed;
    ghost var o, t := buf.g, tmp.Data();
    PullSome(buf, tmp, chain, size, k);
    PullCaches(o, buf.g, tmp, t, size, k);
  }

  // memcpy into tmp, the chain everything is pulled into.
  method Fill(buf: EvBuffer, tmp: Chain, d: seq<byte>, ghost k: nat)
    requires buf.Listed() && 0 < k <= |buf.g.chains|
    requires tmp.Ok() && |d| <= tmp.Space() && (tmp !in buf.g.repr || tmp == buf.g.chains[0])
    modifies tmp`off, tmp`mem
    ensures buf.ListedFrom(k) && tmp.Ok() && tmp.Data() == old(tmp.Data()) + d
  {
    hide Flatten, Prefix, Distinct, Chain.Data;
    DistinctAt(buf.g.chains, 0);
    tmp.Append(d);
  }

  // The end of evbuffer_pullup when no chain is left.
  method FinishAll(buf: EvBuffer, tmp: Chain, data: seq<byte>, ghost k0: nat)
    requires buf.Valid() && k0 <= 1 <= |buf.g.chains|
    requires tmp.Ok() && |data| <= tmp.Space() && (if k0 == 0 then tmp !in buf.g.repr else tmp == buf.g.chains[0])
    requires Prefix(buf.g.pieces, |buf.g.chains|) == tmp.Data() + data
    modifies buf, tmp
    ensures buf.Valid() && buf.SameSwitches() && buf.Contents() == old(buf.Contents())
    ensures buf.first == tmp && tmp.off == old(tmp.off) + |data| && buf.g.repr == old(buf.g.repr) + {tmp}
  {
    hide Flatten, Prefix, Distinct, Chain.Data, EvBuffer.Separate, EvBuffer.Linked;
    ghost var k := |buf.g.chains|;
    Fill(buf, tmp, data, k);
    PullAll(buf, tmp, k);
    buf.SetSingle(tmp);
  }

  // Copy into tmp and let it replace the first k chains and `size` bytes of chain k.
  method PullTail(buf: EvBuffer, tmp: Chain, chain: Chain, data: seq<byte>, size: nat, ghost k: nat)
    requires buf.Listed() && buf.Caches(buf.lwd, buf.last) && 0 < k <= buf.g.at && chain == buf.g.chains[k] && size < |buf.g.pieces[k]|
    requires tmp.Ok() && |data| + size <= tmp.Space() && (tmp !in buf.g.repr || tmp == buf.g.chains[0])
    requires Prefix(buf.g.pieces, k) == tmp.Data() + data
    modifies buf`first, buf`g, tmp, chain`off, chain`misalign
    ensures buf.Listed() && buf.first == tmp && buf.g.repr == old(buf.g.repr) + {tmp} && buf.Contents() == old(buf.Contents())
    ensures buf.Caches(if old(buf.g.at) == k then tmp else buf.lwd, buf.last)
    ensures |buf.g.chains| > 1 && buf.g.chains[0] == tmp && buf.g.chains[1] == chain && buf.g.pieces[1] != []
    ensures tmp.off == old(tmp.off) + |data| + size
  {
    hide Flatten, Prefix, Distinct, Chain.Data, EvBuffer.Listed;
    buf.PieceFacts(k);
    ghost var front := buf.g.pieces[k][..size];
    SliceSlice(chain.mem, chain.misalign, chain.misalign + chain.off, 0, size);
    var d := data + chain.mem[chain.misalign..chain.misalign + size];
    assert d == data + front;
    ghost var t, n := tmp.Data(), tmp.off;
    Fill(buf, tmp, d, k);
    assert tmp.Data() == t + d == (t + data) + front;
    Length(tmp, t, d, n);
    PullSomeCached(buf, tmp, chain, size, k);
    buf.NextFacts(0);
    Length(tmp, t, d, n);
  }

  lemma CachesOf(buf: EvBuffer)
    requires buf.Valid() && buf.g.at > 0
    ensures buf.Caches(buf.lwd, buf.last)
  {
  }

  lemma Length(tmp: Chain, t: seq<byte>, d: seq<byte>, n: nat)
    requires tmp.Ok() && tmp.Data() == t + d && |t| == n
    ensures tmp.off == n + |d|
  {
  }

  // ... and when `size` bytes of `chain` are pulled up and the rest of it stays.
  method FinishSome(buf: EvBuffer, tmp: Chain, chain: Chain, data: seq<byte>, size: nat,
                    removedLastp: bool, ghost k0: nat, ghost k: nat)
    requires buf.Valid() && k0 <= 1 <= k <= buf.g.at < |buf.g.chains|
    requires chain == buf.g.chains[k] && size < |buf.g.pieces[k]|
    requires tmp.Ok() && |data| + size <= tmp.Space() && (if k0 == 0 then tmp !in buf.g.repr else tmp == buf.g.chains[0])
    requires Prefix(buf.g.pieces, k) == tmp.Data() + data
    requires removedLastp <==> k0 <= buf.g.at - 1 < k
    modifies buf, tmp, chain
    ensures buf.Valid() && buf.SameSwitches() && buf.Contents() == old(buf.Contents())
    ensures buf.first == tmp && tmp.off == old(tmp.off) + |data| + size && buf.g.repr == old(buf.g.repr) + {tmp}
  {
    hide Flatten, Prefix, Distinct, Chain.Data, EvBuffer.Listed;
    CachesOf(buf);
    PullTail(buf, tmp, chain, data, size, k);
    var slot := buf.lwd;
    if removedLastp {
      buf.NextFacts(0);
      buf.NextFacts(1);
      assert buf.first.next != null && buf.first.next.off != 0;
      slot := buf.first;
    }
    buf.SetCaches(slot, buf.last, 0);
  }

  // evbuffer_pullup. A result is the first chain, which then holds the bytes asked for.
  method Pullup(buf: EvBuffer, want: int) returns (result: Chain?)
    requires buf.Valid()
    modifies buf, buf.g.chains
    ensures buf.Valid() && buf.SameSwitches() && buf.Contents() == old(buf.Contents())
    ensures fresh(buf.g.repr - old(buf.g.repr))
    ensures var n := if want < 0 then |buf.Contents()| else want;
            && (result == null <==> n == 0 || n > |buf.Contents()| || n > MAX_PAYLOAD)
            && (result != null ==> result == buf.first && result.Ok() && n <= result.off <= |buf.Contents()|
                                   && result.Data() == buf.Contents()[..result.off])
  {
    hide Flatten, Prefix, Distinct, Chain.Data, EvBuffer.Listed, EvBuffer.SlotExact, EvBuffer.LastExact;
    buf.SlotFacts();
    var size := if want < 0 then buf.totalLen else want;
    if size == 0 || size > buf.totalLen {
      return null;
    }
    FirstIs(buf);
    var chain := buf.first;
    if chain.off < size {
      var done := PullUp(buf, chain, size);
      if !done {
        return null;
      }
    }
    FirstIs(buf);
    result := buf.first;
  }

  // Pull `more` bytes of the chains from k0 on up into tmp: the first chain, or a new one.
  method PullInto(buf: EvBuffer, tmp: Chain, start: Chain?, more: nat, ghost k0: nat)
    requires buf.Valid() && k0 <= 1 <= |buf.g.chains| && start == if k0 < |buf.g.chains| then buf.g.chains[k0] else null
    requires tmp.Ok() && more <= tmp.Space() && (if k0 == 0 then tmp !in buf.g.repr else tmp == buf.g.chains[0])
    requires tmp.Data() == Prefix(buf.g.pieces, k0) && 0 < more <= buf.totalLen - tmp.off
    requires (k0 == 0 ==> |buf.g.pieces[0]| < more) && buf.g.at > 0
    modifies buf, tmp, buf.g.chains
    ensures buf.Valid() && buf.SameSwitches() && buf.Contents() == old(buf.Contents())
    ensures buf.g.repr == old(buf.g.repr) + {tmp} && buf.first == tmp && tmp.off == old(tmp.off) + more
  {
    hide Flatten, Prefix, Distinct, Chain.Data, EvBuffer.Linked;
    var data, rest, left, removedLast, removedLastp, k := PullWalk(buf, start, more, k0);
    if rest == null {
      assert removedLast;
      FinishAll(buf, tmp, data, k0);
    } else {
      assert !removedLast;
      FinishSome(buf, tmp, rest, data, left, removedLastp, k0, k);
    }
  }

  // The part of evbuffer_pullup that has to move bytes.
  method PullUp(buf: EvBuffer, chain: Chain, size: nat) returns (done: bool)
    requires buf.Valid() && chain == buf.first && chain.Ok() && chain.off < size <= buf.totalLen
    modifies buf, buf.g.chains
    ensures buf.Valid() && buf.SameSwitches() && buf.Contents() == old(buf.Contents())
    ensures fresh(buf.g.repr - old(buf.g.repr))
    ensures done <==> size <= MAX_PAYLOAD
    ensures done ==> buf.first != null && size <= buf.first.off
  {
    hide Flatten, Prefix, Distinct, Chain.Data, EvBuffer.Linked;
    FirstIs(buf);
    buf.NextFacts(0);
    var tmp, start, copied := chain, chain.next, chain.off;
    ghost var k0 := 1;
    if |chain.mem| - chain.misalign < size {
      tmp := ChainNew(size);
      if tmp == null {
        return false;
      }
      start, copied, k0 := chain, 0, 0;
    }
    PullInto(buf, tmp, start, size - copied, k0);
    return true;
  }

  // The first chain of a buffer with data.
  lemma FirstIs(buf: EvBuffer)
    requires buf.Shape() && buf.totalLen > 0
    ensures buf.g.chains != [] && buf.first == buf.g.chains[0] && buf.first.Ok()
    ensures buf.first.off <= |buf.Contents()| && buf.first.Data() == buf.Contents()[..buf.first.off]
    ensures Prefix(buf.g.pieces, 0) == [] && Prefix(buf.g.pieces, 1) == buf.first.Data()
    ensures buf.first.off < buf.totalLen ==> buf.g.at > 0
  {
    FlattenAt(buf.g.pieces, 0);
    if buf.g.at == 0 {
      FlattenEmpty(buf.g.pieces[1..]);
    }
  }
}
