// Reserving and committing free space: evbuffer_expand_fast_, evbuffer_read_setup_vecs_,
// evbuffer_reserve_space, evbuffer_commit_space.
module BufferReserve {
  import opened Bytes
  import opened Evbuffer
  import BufferAdd
  import BufferSplice
  import BufferExpand

  // struct evbuffer_iovec: `len` bytes of memory of `chain`, from position `start` on.
  datatype Vec = Vec(chain: Chain?, start: nat, len: nat)

  function Sum(s: seq<nat>): nat {
    if s == [] then 0 else Sum(s[..|s| - 1]) + s[|s| - 1]
  }

  lemma SumPush(s: seq<nat>, x: nat)
    ensures Sum(s + [x]) == Sum(s) + x
  {
    assert (s + [x])[..|s|] == s;
  }

  // The position of the first chain with space on it once an empty slot chain has been realigned.
  ghost function Start(g: Layout): nat
    reads g.chains
  {
    if g.at < |g.chains| && g.chains[g.at].off == 0 then g.at else BufferExpand.First(g)
  }

  // The free space of the chains from `s` on.
  ghost predicate Room(chains: seq<Chain>, s: nat, spaces: seq<nat>)
    reads chains
  {
    && s + |spaces| <= |chains|
    && forall j {:trigger chains[j]} :: s <= j < s + |spaces| ==> chains[j].Ok() && chains[j].Space() == spaces[j - s]
  }

  // The slot chain has been realigned if it is empty.
  ghost predicate Settled(g: Layout)
    reads g.chains
  {
    g.at < |g.chains| && g.chains[g.at].Ok() && (g.chains[g.at].off == 0 ==> g.chains[g.at].Space() > 0)
  }

  // One chain of the scan: an empty one is realigned, so that all of it is free.
  method Count(buf: EvBuffer, chain: Chain, ghost k: nat) returns (space: nat)
    requires buf.Shape() && buf.g.at <= k < |buf.g.chains| && chain == buf.g.chains[k]
    modifies chain`misalign
    ensures buf.Shape() && chain.Ok() && space == chain.Space() && (chain.off == 0 ==> space > 0)
    ensures k > buf.g.at ==> chain.off == 0
    ensures chain.off != 0 ==> unchanged(chain)
    ensures chain.misalign <= old(chain.misalign)
  {
    hide Flatten, Prefix, Distinct, Chain.Data, EvBuffer.Linked, EvBuffer.Separate;
    buf.NextFacts(k);
    if chain.off == 0 {
      buf.SetMisalign(k, chain, 0);
    }
    space := chain.Space();
  }

  // What the scan has found once it has looked at the chains before k.
  ghost predicate Scanned(g: Layout, k: nat, spaces: seq<nat>, avail: nat)
    reads g.chains
  {
    && Sum(spaces) == avail && g.at <= k <= |g.chains|
    && (k == g.at ==> spaces == [])
    && (k > g.at ==> Settled(g) && Start(g) + |spaces| == k && Room(g.chains, Start(g), spaces))
  }

  // One step of the scan.
  method Step(buf: EvBuffer, chain: Chain, ghost k: nat, ghost spaces: seq<nat>, avail: nat, used: nat)
    returns (avail': nat, used': nat, ghost spaces': seq<nat>)
    requires buf.Shape() && buf.g.at <= k < |buf.g.chains| && chain == buf.g.chains[k]
    requires Scanned(buf.g, k, spaces, avail) && used == |spaces|
    modifies chain`misalign
    ensures buf.Shape() && Scanned(buf.g, k + 1, spaces', avail') && used' == |spaces'| && used <= used' <= used + 1
    ensures Start(buf.g) == old(Start(buf.g)) && chain.misalign <= old(chain.misalign)
  {
    hide Flatten, Prefix, Sum, Distinct, Chain.Data, EvBuffer.Linked, EvBuffer.Holds, EvBuffer.SlotExact, EvBuffer.LastExact;
    DistinctAt(buf.g.chains, k);
    label L:
    var space := Count(buf, chain, k);
    avail', used', spaces' := avail, used, spaces;
    if k > buf.g.at {
      assert Settled(buf.g);
      assert Room(buf.g.chains, Start(buf.g), spaces);
    }
    if space != 0 {
      SumPush(spaces, space);
      avail', used', spaces' := avail + space, used + 1, spaces + [space];
    }
  }

  // The scan of evbuffer_expand_fast_ over the chains that can be written to.
  method Scan(buf: EvBuffer, datlen: nat, n: nat)
    returns (used: nat, avail: nat, ghost spaces: seq<nat>, ghost k: nat)
    requires buf.Shape() && buf.g.chains != [] && n >= 2
    modifies buf.g.chains`misalign
    ensures buf.Shape() && Scanned(buf.g, k, spaces, avail) && k > buf.g.at
    ensures |spaces| == used <= n
    ensures avail < datlen && used < n ==> k == |buf.g.chains|
    ensures Start(buf.g) == old(Start(buf.g)) && buf.g == old(buf.g)
    ensures forall c :: c in buf.g.chains ==> c.misalign <= old(c.misalign)
  {
    hide Flatten, Prefix, Distinct, Chain.Data, EvBuffer.Listed, EvBuffer.SlotExact, EvBuffer.LastExact;
    hide Settled, Start, Room;
    buf.SlotFacts();
    var chain := buf.SlotChain();
    used, avail, spaces, k := 0, 0, [], buf.g.at;
    while chain != null
      invariant buf.Shape() && Scanned(buf.g, k, spaces, avail) && |spaces| == used < n
      invariant chain == if k < |buf.g.chains| then buf.g.chains[k] else null
      invariant k == buf.g.at ==> chain != null
      invariant Start(buf.g) == old(Start(buf.g)) && buf.g == old(buf.g)
      invariant forall c :: c in buf.g.chains ==> c.misalign <= old(c.misalign)
      decreases |buf.g.chains| - k
    {
      avail, used, spaces := Step(buf, chain, k, spaces, avail, used);
      buf.NextFacts(k);
      chain, k := chain.next, k + 1;
      if avail >= datlen || used == n {
        return;
      }
    }
  }

  // The chains from the first one with space on provide `want` bytes in at most n pieces.
  ghost predicate Roomy(buf: EvBuffer, want: nat, n: nat, spaces: seq<nat>)
    reads buf`g, buf.g.chains
  {
    Settled(buf.g) && |spaces| <= n && Room(buf.g.chains, Start(buf.g), spaces) && want <= Sum(spaces)
  }

  // evbuffer_expand_fast_ on an empty list.
  method ExpandEmpty(buf: EvBuffer, datlen: nat, n: nat) returns (result: int, ghost spaces: seq<nat>)
    requires buf.Valid() && buf.g.chains == [] && n >= 2
    modifies buf
    ensures buf.Valid() && buf.SameSwitches() && fresh(buf.g.repr - old(buf.g.repr))
    ensures buf.Contents() == old(buf.Contents())
    ensures if result == 0 then Roomy(buf, datlen, n, spaces) else result == -1 && datlen > MAX_PAYLOAD
    ensures result == 0 ==> spaces != []
  {
    hide Flatten, Prefix, Distinct, Chain.Data, EvBuffer.Listed, EvBuffer.SlotExact, EvBuffer.LastExact;
    spaces := [];
    buf.SlotFacts();
    var chain := ChainNew(datlen);
    if chain == null {
      return -1, spaces;
    }
    buf.ChainInsert(chain);
    buf.SlotFacts();
    spaces := [chain.Space()];
    assert Room(buf.g.chains, Start(buf.g), spaces);
    return 0, spaces;
  }

  // buf->last->next = tmp; buf->last = tmp.
  method AddLast(buf: EvBuffer, tmp: Chain)
    requires buf.Valid() && buf.g.chains != []
    requires tmp !in buf.g.repr && tmp.Ok() && tmp.next == null && tmp.off == 0
    modifies buf`first, buf`last, buf`g, buf.last`next
    ensures buf.Valid() && buf.Contents() == old(buf.Contents())
    ensures buf.g == Layout(old(buf.g.chains) + [tmp], old(buf.g.pieces) + [[]], old(buf.g.at), old(buf.g.repr) + {tmp})
  {
    hide Flatten, Prefix, Distinct, Chain.Data, Chain.Ok, EvBuffer.Linked, EvBuffer.Separate;
    buf.SlotFacts();
    FlattenPush(buf.g.pieces, |buf.g.pieces|, []);
    assert buf.g.pieces[..|buf.g.pieces|] == buf.g.pieces;
    assert buf.Contents() + [] == buf.Contents();
    assert tmp.Data() == [];
    buf.WriteSlot(buf.last, tmp, buf.g.at);
    buf.last := tmp;
  }

  lemma RoomPush(g: Layout, spaces: seq<nat>, tmp: Chain)
    requires g.at < |g.chains| && Settled(g) && Start(g) + |spaces| == |g.chains| && Room(g.chains, Start(g), spaces)
    requires tmp.Ok()
    ensures var g' := g.(chains := g.chains + [tmp], pieces := g.pieces + [[]], repr := g.repr + {tmp});
            Settled(g') && Start(g') == Start(g) && Room(g'.chains, Start(g'), spaces + [tmp.Space()])
  {
  }

  // ... after which its space is free, too.
  method AddRoom(buf: EvBuffer, tmp: Chain, ghost found: seq<nat>) returns (ghost spaces: seq<nat>)
    requires buf.Valid() && buf.g.chains != [] && buf.g.at < |buf.g.chains|
    requires buf.last == buf.g.chains[|buf.g.chains| - 1]
    requires Settled(buf.g) && Start(buf.g) + |found| == |buf.g.chains| && Room(buf.g.chains, Start(buf.g), found)
    requires tmp !in buf.g.repr && tmp.Ok() && tmp.next == null && tmp.off == 0
    modifies buf`first, buf`last, buf`g, buf.last`next
    ensures buf.Valid() && buf.Contents() == old(buf.Contents()) && buf.g.repr == old(buf.g.repr) + {tmp}
    ensures spaces != [] && Roomy(buf, Sum(found) + old(tmp.Space()), |found| + 1, spaces)
    ensures buf.g.chains == old(buf.g.chains) + [tmp] && buf.g.at == old(buf.g.at)
  {
    hide Flatten, Prefix, Sum, Distinct, Chain.Data, EvBuffer.Listed, EvBuffer.SlotExact, EvBuffer.LastExact;
    spaces := found + [tmp.Space()];
    SumPush(found, tmp.Space());
    RoomPush(buf.g, found, tmp);
    AddLast(buf, tmp);
  }

  // evbuffer_expand_fast_: free the empty chains, the slot chain included if it is empty.
  // Returns the free space that is kept.
  method FreeEmpties(buf: EvBuffer) returns (avail: nat)
    requires buf.Valid() && buf.g.chains != []
    modifies buf`first, buf`last, buf`lwd, buf`totalLen, buf`g, buf.g.chains`next
    ensures buf.Valid() && buf.Contents() == old(buf.Contents()) && buf.g.repr == old(buf.g.repr)
    ensures if buf.g.chains == [] then buf.last == null && avail == 0
            else buf.g.at + 1 == |buf.g.chains| && buf.last == old(buf.SlotChain()) == buf.g.chains[buf.g.at] &&
                 buf.last.Ok() && buf.last.off != 0 && old(buf.SlotChain().off) != 0 && avail == buf.last.Space() == old(buf.SlotChain().Space())
  {
    hide Flatten, Prefix, Distinct, Chain.Data, Chain.Ok, EvBuffer.Linked, EvBuffer.Separate;
    buf.SlotFacts();
    buf.NextFacts(buf.g.at);
    var chain := buf.SlotChain();
    if chain.off == 0 {
      assert buf.totalLen == 0 by { AllEmpty(buf); }
      buf.ZeroChain();
      return 0;
    }
    FlattenCut(buf.g.pieces, buf.g.at + 1);
    buf.CutSlot(chain, buf.g.at + 1);
    buf.last := chain;
    avail := chain.Space();
  }

  // Only the buffer without data has an empty slot chain.
  lemma AllEmpty(buf: EvBuffer)
    requires buf.Shape() && buf.g.at < |buf.g.pieces| && buf.g.pieces[buf.g.at] == []
    ensures buf.totalLen == 0 && buf.Contents() == []
  {
    hide Flatten, Prefix, Distinct, Chain.Data, Chain.Ok, EvBuffer.Linked, EvBuffer.Separate;
    FlattenEmpty(buf.g.pieces);
  }

  // A last chain with data is all there is to write to.
  lemma LastRoom(g: Layout, avail: nat) returns (spaces: seq<nat>)
    requires g.at + 1 == |g.chains| && g.chains[g.at].Ok() && g.chains[g.at].off != 0
    requires g.chains[g.at].Space() == avail
    ensures Settled(g) && Start(g) + |spaces| == |g.chains| && Room(g.chains, Start(g), spaces)
    ensures |spaces| <= 1 && Sum(spaces) == avail
  {
    SumPush([], avail);
    spaces := if avail == 0 then [] else [avail];
  }

  // Put a new chain behind a last chain with data and free space `avail`.
  method NewBehind(buf: EvBuffer, datlen: nat, avail: nat) returns (result: int, ghost spaces: seq<nat>)
    requires buf.Valid() && buf.g.at + 1 == |buf.g.chains| && buf.last == buf.g.chains[buf.g.at]
    requires buf.last.Ok() && buf.last.off != 0 && avail == buf.last.Space() < datlen
    modifies buf, buf.last`next
    ensures buf.Valid() && buf.SameSwitches() && fresh(buf.g.repr - old(buf.g.repr))
    ensures buf.Contents() == old(buf.Contents())
    ensures if result == 0 then Roomy(buf, datlen, 2, spaces) else result == -1 && datlen > MAX_PAYLOAD
    ensures result == 0 ==> spaces != []
  {
    hide Flatten, Prefix, Distinct, Sum, Start, Settled, Room, Chain.Data, EvBuffer.Listed, EvBuffer.SlotExact, EvBuffer.LastExact;
    spaces := [];
    var tmp := ChainNew(datlen - avail);
    if tmp == null {
      return -1, spaces;
    }
    spaces := LastRoom(buf.g, avail);
    spaces := AddRoom(buf, tmp, spaces);
    return 0, spaces;
  }

  // evbuffer_expand_fast_ when n chains do not provide enough: one new chain, behind the data,
  // replaces the empty ones.
  method Nuke(buf: EvBuffer, datlen: nat) returns (result: int, ghost spaces: seq<nat>)
    requires buf.Valid() && buf.g.chains != [] && buf.SlotChain().Ok()
    requires buf.SlotChain().off != 0 ==> buf.SlotChain().Space() < datlen
    modifies buf, buf.g.chains`next
    ensures buf.Valid() && buf.SameSwitches() && fresh(buf.g.repr - old(buf.g.repr))
    ensures buf.Contents() == old(buf.Contents())
    ensures if result == 0 then Roomy(buf, datlen, 2, spaces) else result == -1 && datlen > MAX_PAYLOAD
    ensures result == 0 ==> spaces != []
  {
    hide Flatten, Prefix, Distinct, Chain.Data, EvBuffer.Listed, EvBuffer.SlotExact, EvBuffer.LastExact, Roomy;
    buf.SlotFacts();
    var avail := FreeEmpties(buf);
    if buf.last == null {
      result, spaces := ExpandEmpty(buf, datlen, 2);
    } else {
      result, spaces := NewBehind(buf, datlen, avail);
    }
  }

  // No extent is larger than all of them.
  lemma {:induction false} SumBound(s: seq<nat>, i: nat)
    requires i < |s|
    ensures s[i] <= Sum(s)
  {
    if i < |s| - 1 {
      SumBound(s[..|s| - 1], i);
    }
  }

  // The slot chain alone has no more space than the scan has found.
  lemma SlotSpace(g: Layout, k: nat, spaces: seq<nat>, avail: nat)
    requires Scanned(g, k, spaces, avail) && k > g.at
    ensures g.chains[g.at].Ok() && (g.chains[g.at].off != 0 ==> g.chains[g.at].Space() <= avail)
  {
    if g.chains[g.at].Space() > 0 && spaces != [] {
      assert g.chains[Start(g)].Space() == spaces[0];
      SumBound(spaces, 0);
    }
  }

  // The scan counts each chain once.
  lemma ScannedFew(g: Layout, k: nat, spaces: seq<nat>, avail: nat)
    requires Scanned(g, k, spaces, avail)
    ensures |spaces| <= |g.chains| - g.at
  {
  }

  // evbuffer_expand_fast_; `spaces` are the extents that then provide the space.
  method ExpandFast(buf: EvBuffer, datlen: nat, n: nat) returns (result: int, ghost spaces: seq<nat>)
    requires buf.Valid() && n >= 2
    modifies buf, buf.g.chains`next, buf.g.chains`misalign
    ensures buf.Valid() && buf.SameSwitches() && fresh(buf.g.repr - old(buf.g.repr))
    ensures buf.Contents() == old(buf.Contents())
    ensures if result == 0 then Roomy(buf, datlen, n, spaces) else result == -1 && datlen > MAX_PAYLOAD
    ensures result == 0 && spaces == [] ==> old(buf.g.chains) != [] && Start(buf.g) == old(Start(buf.g)) && buf.g == old(buf.g)
    ensures old(buf.g.chains != [] && |buf.g.chains| - buf.g.at < n) ==> old(buf.g.chains) <= buf.g.chains && buf.g.at == old(buf.g.at)
    ensures forall c :: c in old(buf.g.chains) ==> c.misalign <= old(c.misalign)
  {
    hide Flatten, Prefix, Distinct, Chain.Data, EvBuffer.Listed, EvBuffer.SlotExact;
    hide Start, Settled, Room;
    buf.SlotFacts();
    if buf.last == null {
      result, spaces := ExpandEmpty(buf, datlen, n);
      return;
    }
    var used, avail;
    ghost var k;
    used, avail, spaces, k := Scan(buf, datlen, n);
    ScannedFew(buf.g, k, spaces, avail);
    if avail >= datlen {
      return 0, spaces;
    }
    if used < n {
      result, spaces := NewLast(buf, datlen, avail, spaces, n);
    } else {
      SlotSpace(buf.g, k, spaces, avail);
      buf.SlotFacts();
      result, spaces := Nuke(buf, datlen);
    }
  }

  // evbuffer_expand_fast_ when another chain may be used.
  method NewLast(buf: EvBuffer, datlen: nat, avail: nat, ghost found: seq<nat>, n: nat)
    returns (result: int, ghost spaces: seq<nat>)
    requires buf.Valid() && buf.g.chains != [] && buf.last == buf.g.chains[|buf.g.chains| - 1]
    requires buf.g.at < |buf.g.chains| && Scanned(buf.g, |buf.g.chains|, found, avail) && |found| < n && avail < datlen
    modifies buf, buf.last`next
    ensures buf.Valid() && buf.SameSwitches() && fresh(buf.g.repr - old(buf.g.repr))
    ensures buf.Contents() == old(buf.Contents())
    ensures if result == 0 then Roomy(buf, datlen, n, spaces) else result == -1 && datlen > MAX_PAYLOAD
    ensures result == 0 ==> spaces != []
    ensures old(buf.g.chains) <= buf.g.chains && buf.g.at == old(buf.g.at)
  {
    hide Flatten, Prefix, Distinct, Chain.Data, EvBuffer.Listed, EvBuffer.SlotExact, EvBuffer.LastExact;
    spaces := found;
    var tmp := ChainNew(datlen - avail);
    if tmp == null {
      return -1, spaces;
    }
    spaces := AddRoom(buf, tmp, spaces);
    return 0, spaces;
  }

  function Total(vecs: seq<Vec>): nat {
    if vecs == [] then 0 else Total(vecs[..|vecs| - 1]) + vecs[|vecs| - 1].len
  }

  lemma TotalPush(vecs: seq<Vec>, v: Vec)
    ensures Total(vecs + [v]) == Total(vecs) + v.len
  {
    assert (vecs + [v])[..|vecs|] == vecs;
  }

  // Extent v is free memory at the end of the data of a chain.
  ghost predicate Free(v: Vec, chain: Chain)
    reads chain
  {
    chain.Ok() && v.chain == chain && v.start == chain.misalign + chain.off && v.len <= chain.Space()
  }

  // The extents are free memory of consecutive chains, from chain s on.
  ghost predicate Extents(chains: seq<Chain>, s: nat, vecs: seq<Vec>)
    reads chains
  {
    s + |vecs| <= |chains| && forall i :: 0 <= i < |vecs| ==> Free(vecs[i], chains[s + i])
  }

  lemma SumNext(s: seq<nat>, i: nat)
    requires i < |s|
    ensures Sum(s[..i + 1]) == Sum(s[..i]) + s[i]
  {
    SumPush(s[..i], s[i]);
    assert s[..i] + [s[i]] == s[..i + 1];
  }

  // The first chain with space on it: firstchain.
  method FirstChain(buf: EvBuffer) returns (chain: Chain?)
    requires buf.Shape() && Settled(buf.g)
    ensures chain == if Start(buf.g) < |buf.g.chains| then buf.g.chains[Start(buf.g)] else null
  {
    hide Flatten, Prefix, Distinct, Chain.Data, EvBuffer.Separate, EvBuffer.Linked, EvBuffer.Holds, EvBuffer.LastExact;
    buf.SlotFacts();
    buf.NextFacts(buf.g.at);
    chain := buf.SlotChain();
    if chain.Space() == 0 {
      chain := chain.next;
    }
  }

  lemma ExtentsPush(chains: seq<Chain>, s: nat, vecs: seq<Vec>, v: Vec)
    requires Extents(chains, s, vecs) && s + |vecs| < |chains| && Free(v, chains[s + |vecs|])
    ensures Extents(chains, s, vecs + [v])
  {
  }

  lemma ExtentsNone(chains: seq<Chain>, s: nat)
    requires s <= |chains|
    ensures Extents(chains, s, [])
  {
  }

  lemma SumNone()
    ensures Sum([]) == 0
  {
  }

  lemma TotalNone()
    ensures Total([]) == 0
  {
  }

  // The free space of a chain, but no more than `left` if it has to be exact.
  method Extent(chain: Chain, left: nat, exact: bool) returns (v: Vec)
    requires chain.Ok()
    ensures Free(v, chain) && v.len == if exact && left < chain.Space() then left else chain.Space()
  {
    var avail := chain.Space();
    if avail > left && exact {
      avail := left;
    }
    v := Vec(chain, chain.misalign + chain.off, avail);
  }

  // evbuffer_read_setup_vecs_
  method ReadSetupVecs(buf: EvBuffer, howmuch: int, n: nat, exact: bool, ghost spaces: seq<nat>)
    returns (count: int, vecs: seq<Vec>)
    requires buf.Shape()
    requires howmuch >= 0 ==> Roomy(buf, howmuch, n, spaces) && Start(buf.g) < |buf.g.chains|
    ensures if howmuch < 0 then count == -1 && vecs == []
            else count == |vecs| <= n && Extents(buf.g.chains, Start(buf.g), vecs) && howmuch <= Total(vecs) &&
                 (exact ==> howmuch == Total(vecs)) &&
                 forall i :: 0 <= i < |vecs| && (!exact || i < |vecs| - 1) ==> vecs[i].len == buf.g.chains[Start(buf.g) + i].Space()
  {
    hide Flatten, Prefix, Sum, Distinct, Chain.Data, EvBuffer.Separate, EvBuffer.Linked, EvBuffer.Holds;
    hide EvBuffer.SlotExact, EvBuffer.LastExact, Settled, Start, Extents, Free, Total, Chain.Ok;
    vecs := [];
    if howmuch < 0 {
      return -1, vecs;
    }
    var chain := FirstChain(buf);
    ghost var s := Start(buf.g);
    var soFar := 0;
    TotalNone();
    SumNone();
    assert spaces[..|spaces|] == spaces;
    assert Extents(buf.g.chains, s, vecs) by { ExtentsNone(buf.g.chains, s); }
    while |vecs| < n && soFar < howmuch
      invariant |vecs| <= n && Total(vecs) == soFar && (exact ==> soFar <= howmuch)
      invariant Extents(buf.g.chains, s, vecs)
      invariant |vecs| <= |spaces| && (soFar < howmuch ==> soFar == Sum(spaces[..|vecs|]))
      invariant chain == if s + |vecs| < |buf.g.chains| then buf.g.chains[s + |vecs|] else null
      invariant forall i :: 0 <= i < |vecs| && (!exact || soFar < howmuch || i < |vecs| - 1) ==> vecs[i].len == buf.g.chains[s + i].Space()
    {
      buf.NextFacts(s + |vecs|);
      SumNext(spaces, |vecs|);
      assert chain.Space() == spaces[|vecs|];
      var v := Extent(chain, howmuch - soFar, exact);
      TotalPush(vecs, v);
      ExtentsPush(buf.g.chains, s, vecs, v);
      vecs := vecs + [v];
      soFar := soFar + v.len;
      chain := chain.next;
    }
    count := |vecs|;
  }

  // Signed sizes are at least -SIZE_LIMIT and less than SIZE_LIMIT.
  const SIZE_LIMIT: int := CHAIN_MAX + 1

  // A signed size as an unsigned one: (size_t)size.
  function Unsigned(size: int): (u: int)
    requires -SIZE_LIMIT <= size < SIZE_LIMIT
    ensures 0 <= u <= SIZE_MAX && (u <= CHAIN_MAX <==> size >= 0) && (u - size) % 0x1_0000_0000_0000_0000 == 0
  {
    if size < 0 then size + SIZE_MAX + 1 else size
  }

  // evbuffer_reserve_space for a single extent; k is the position of its chain.
  method ReserveOne(buf: EvBuffer, size: int) returns (n: int, vecs: seq<Vec>, ghost k: nat)
    requires buf.Valid() && -SIZE_LIMIT <= size < SIZE_LIMIT
    modifies buf, buf.g.chains`next, buf.g.chains`mem, buf.g.chains`misalign
    ensures buf.Valid() && buf.SameSwitches() && fresh(buf.g.repr - old(buf.g.repr))
    ensures buf.Contents() == old(buf.Contents())
    ensures if old(BufferExpand.Fails(buf.g, Unsigned(size))) then n == -1 && vecs == [] else n == |vecs| == 1 && size >= 0
    ensures n == 1 ==> buf.g.at <= k < |buf.g.chains| && Free(vecs[0], buf.g.chains[k]) && size <= vecs[0].len
    ensures n == 1 ==> Placed(buf, Unsigned(size), k)
  {
    hide Flatten, Prefix, Distinct, Chain.Data, EvBuffer.Listed, EvBuffer.SlotExact, EvBuffer.LastExact;
    hide BufferExpand.Fails, BufferExpand.NeedsNew, BufferExpand.PassesOver, BufferExpand.First;
    var chain;
    chain, k := BufferExpand.ExpandSinglechain(buf, Unsigned(size));
    if chain == null {
      return -1, [], k;
    }
    n, vecs := 1, [Vec(chain, chain.misalign + chain.off, chain.Space())];
    if old(BufferExpand.NeedsNew(buf.g, Unsigned(size))) {
      forall c | c in buf.g.chains && c != chain ensures c in old(buf.g.chains) {
      }
      assert BufferExpand.Inserted(buf, buf.g.chains[k], Unsigned(size));
    }
    assert Placed(buf, Unsigned(size), k);
  }

  // Where a chain with datlen bytes of space was found: it is chain k.
  twostate predicate Placed(buf: EvBuffer, datlen: nat, k: nat)
    reads buf`g, buf.g.chains
  {
    && k < |buf.g.chains|
    && (if old(BufferExpand.PassesOver(buf.g, datlen)) then k == buf.g.at + 1 && buf.g == old(buf.g) && unchanged(buf.g.chains)
        else k == |buf.g.chains| - 1 || k == BufferExpand.First(buf.g))
    && (old(BufferExpand.NeedsNew(buf.g, datlen)) ==>
          && BufferExpand.Inserted(buf, buf.g.chains[k], datlen)
          && forall c :: c in buf.g.chains && c != buf.g.chains[k] ==> unchanged(c`mem, c`misalign))
  }

  // evbuffer_reserve_space for several extents.
  method ReserveMany(buf: EvBuffer, size: int, nVecs: nat) returns (n: int, vecs: seq<Vec>)
    requires buf.Valid() && nVecs >= 2 && -SIZE_LIMIT <= size < SIZE_LIMIT
    requires size == 0 && buf.g.chains != [] ==> Start(buf.g) < |buf.g.chains|
    modifies buf, buf.g.chains`next, buf.g.chains`misalign
    ensures buf.Valid() && buf.SameSwitches() && fresh(buf.g.repr - old(buf.g.repr))
    ensures buf.Contents() == old(buf.Contents())
    ensures n == -1 || (n == |vecs| <= nVecs && size >= 0)
    ensures n == -1 ==> vecs == [] && (size < 0 || size > MAX_PAYLOAD)
    ensures n >= 0 ==> Settled(buf.g) && Extents(buf.g.chains, Start(buf.g), vecs) && size <= Total(vecs)
    ensures n >= 0 && old(buf.g.chains != [] && |buf.g.chains| - buf.g.at < nVecs) ==> old(buf.g.chains) <= buf.g.chains && buf.g.at == old(buf.g.at)
    ensures forall c :: c in old(buf.g.chains) ==> c.misalign <= old(c.misalign)
    ensures forall i :: 0 <= i < |vecs| ==> vecs[i].len == buf.g.chains[Start(buf.g) + i].Space()
  {
    hide Flatten, Prefix, Distinct, Chain.Data, EvBuffer.Listed, EvBuffer.SlotExact, EvBuffer.LastExact, Start, Settled;
    var result;
    ghost var spaces;
    result, spaces := ExpandFast(buf, Unsigned(size), nVecs);
    if result < 0 {
      return -1, [];
    }
    if size >= 0 {
      StartExists(buf, size, nVecs, spaces);
    }
    n, vecs := ReadSetupVecs(buf, size, nVecs, false, spaces);
  }

  lemma StartExists(buf: EvBuffer, size: nat, n: nat, spaces: seq<nat>)
    requires Roomy(buf, size, n, spaces) && (spaces == [] && size == 0 ==> Start(buf.g) < |buf.g.chains|)
    ensures Start(buf.g) < |buf.g.chains|
  {
  }

  // evbuffer_reserve_space; an extent asked for alone is in chain k.
  method ReserveSpace(buf: EvBuffer, size: int, nVecs: int) returns (n: int, vecs: seq<Vec>, ghost k: nat)
    requires buf.Valid() && -SIZE_LIMIT <= size < SIZE_LIMIT
    requires !buf.freezeEnd && nVecs >= 2 && size == 0 && buf.g.chains != [] ==> Start(buf.g) < |buf.g.chains|
    modifies buf, buf.g.chains`next, buf.g.chains`mem, buf.g.chains`misalign
    ensures buf.Valid() && buf.SameSwitches() && fresh(buf.g.repr - old(buf.g.repr))
    ensures buf.Contents() == old(buf.Contents())
    ensures if buf.freezeEnd || nVecs < 1 || size < 0 then n == -1
            else if nVecs == 1 then n == (if old(BufferExpand.Fails(buf.g, size)) then -1 else 1)
            else n == -1 ==> size > MAX_PAYLOAD
    ensures n == -1 || n == |vecs| <= nVecs
    ensures n >= 0 ==> size <= Total(vecs)
    ensures n >= 0 && nVecs == 1 ==> |vecs| == 1 && buf.g.at <= k < |buf.g.chains| && Free(vecs[0], buf.g.chains[k]) &&
                                     size <= vecs[0].len && Placed(buf, size, k)
    ensures n >= 0 && nVecs >= 2 ==> Settled(buf.g) && Extents(buf.g.chains, Start(buf.g), vecs)
    ensures n >= 0 && nVecs >= 2 && old(buf.g.chains != [] && |buf.g.chains| - buf.g.at < nVecs) ==>
              old(buf.g.chains) <= buf.g.chains && buf.g.at == old(buf.g.at)
    ensures nVecs >= 2 ==> forall c :: c in old(buf.g.chains) ==> unchanged(c`mem) && c.misalign <= old(c.misalign)
  {
    hide Flatten, Prefix, Distinct, Chain.Data, EvBuffer.Listed, EvBuffer.SlotExact, EvBuffer.LastExact;
    hide Start, Settled, Free, Extents, Placed, BufferExpand.Fails;
    k := 0;
    if buf.freezeEnd || nVecs < 1 {
      return -1, [], k;
    }
    if nVecs == 1 {
      n, vecs, k := ReserveOne(buf, size);
      if n == 1 {
        TotalNone();
        TotalPush([], vecs[0]);
        assert [] + [vecs[0]] == vecs;
      }
    } else {
      n, vecs := ReserveMany(buf, size, nVecs);
    }
  }

  // Extents handed out together are disjoint memory.
  lemma ExtentsDisjoint(buf: EvBuffer, s: nat, vecs: seq<Vec>, i: nat, j: nat)
    requires buf.Shape() && Extents(buf.g.chains, s, vecs) && i < j < |vecs|
    ensures vecs[i].chain != vecs[j].chain
  {
    hide Flatten, Prefix, Chain.Data;
    assert Free(vecs[i], buf.g.chains[s + i]) && Free(vecs[j], buf.g.chains[s + j]);
  }

  // The bytes an extent covers.
  ghost function Payload(v: Vec): seq<byte>
    reads (if v.chain == null then {} else {v.chain})`mem
  {
    if v.chain != null && v.start + v.len <= |v.chain.mem| then v.chain.mem[v.start..v.start + v.len] else []
  }

  // The bytes the extents cover.
  ghost predicate Payloads(vecs: seq<Vec>, ps: seq<seq<byte>>)
    reads set v | v in vecs && v.chain != null :: v.chain
  {
    |ps| == |vecs| && forall i :: 0 <= i < |vecs| ==> ps[i] == Payload(vecs[i])
  }

  lemma Collect(vecs: seq<Vec>) returns (ps: seq<seq<byte>>)
    ensures Payloads(vecs, ps)
  {
    ps := [];
    while |ps| < |vecs|
      invariant |ps| <= |vecs| && forall i :: 0 <= i < |ps| ==> ps[i] == Payload(vecs[i])
    {
      ps := ps + [Payload(vecs[|ps|])];
    }
  }

  // Which extents evbuffer_commit_space takes: free memory of the last chain, or free memory
  // of consecutive chains from the first one with space on.
  ghost predicate Acceptable(buf: EvBuffer, vecs: seq<Vec>)
    reads buf, buf.last, buf.g.chains
  {
    || vecs == []
    || (|vecs| == 1 && buf.last != null && Free(vecs[0], buf.last))
    || (buf.g.chains != [] && Extents(buf.g.chains, BufferExpand.First(buf.g), vecs))
  }

  // chain->off += n, for chain k: free bytes become data.
  method Extend(buf: EvBuffer, chain: Chain, v: Vec, ghost k: nat)
    requires buf.Listed() && k < |buf.g.chains| && chain == buf.g.chains[k] && Free(v, chain)
    modifies buf`g, chain`off
    ensures buf.Listed() && buf.g == old(buf.g.(pieces := buf.g.pieces[k := buf.g.pieces[k] + Payload(v)]))
    ensures |Payload(v)| == v.len
  {
    hide Flatten, Prefix, Distinct;
    DistinctAt(buf.g.chains, k);
    ghost var d := chain.Data();
    chain.off := chain.off + v.len;
    assert chain.Data() == d + Payload(v);
    buf.g := buf.g.(pieces := buf.g.pieces[k := d + Payload(v)]);
  }

  // One step of the second pass of evbuffer_commit_space.
  method CommitStep(buf: EvBuffer, slot: Chain?, chain: Chain, v: Vec, ghost k: nat)
    requires buf.Listed() && buf.SlotExact() && buf.g.at <= k < |buf.g.chains| && chain == buf.g.chains[k]
    requires slot == (if k == 0 then null else buf.g.chains[k - 1]) && Free(v, chain)
    modifies buf`g, buf`lwd, chain`off
    ensures buf.Listed() && |buf.g.pieces| == |buf.g.chains| && buf.SlotExact() && buf.g.at <= k
    ensures buf.g.chains == old(buf.g.chains) && buf.g.repr == old(buf.g.repr)
    ensures |Payload(v)| == v.len && buf.Contents() == old(buf.Contents()) + Payload(v)
  {
    hide Flatten, Prefix, Distinct, Payload, Chain.Data, Chain.Ok, EvBuffer.Separate, EvBuffer.Linked;
    FlattenGrow(buf.g.pieces, k, Payload(v));
    Extend(buf, chain, v, k);
    if v.len != 0 {
      buf.lwd := slot;
      buf.SetAt(k);
    }
  }

  // The first chain with space on it and its slot, as evbuffer_commit_space finds them.
  method CommitFirst(buf: EvBuffer) returns (slot: Chain?, chain: Chain?)
    requires buf.Shape() && buf.g.chains != []
    ensures buf.g.at <= BufferExpand.First(buf.g) <= |buf.g.chains| == |buf.g.pieces|
    ensures slot == if BufferExpand.First(buf.g) == 0 then null else buf.g.chains[BufferExpand.First(buf.g) - 1]
    ensures chain == if BufferExpand.First(buf.g) < |buf.g.chains| then buf.g.chains[BufferExpand.First(buf.g)] else null
  {
    hide Flatten, Prefix, Distinct, Chain.Data, EvBuffer.Separate, EvBuffer.Linked, EvBuffer.LastExact;
    buf.SlotFacts();
    buf.NextFacts(buf.g.at);
    slot, chain := buf.lwd, buf.SlotChain();
    if chain.Space() == 0 {
      slot, chain := chain, chain.next;
    }
  }

  // The first pass of evbuffer_commit_space: are the extents free memory of the chains from s on?
  method CheckVecs(buf: EvBuffer, start: Chain?, vecs: seq<Vec>, ghost s: nat) returns (ok: bool)
    requires buf.Shape() && s <= |buf.g.chains| && start == if s < |buf.g.chains| then buf.g.chains[s] else null
    ensures ok <==> Extents(buf.g.chains, s, vecs)
  {
    hide Flatten, Prefix, Distinct, Chain.Data, EvBuffer.Separate, EvBuffer.Linked, EvBuffer.Holds;
    hide EvBuffer.SlotExact, EvBuffer.LastExact;
    var chain := start;
    for i := 0 to |vecs|
      invariant s + i <= |buf.g.chains| && chain == if s + i < |buf.g.chains| then buf.g.chains[s + i] else null
      invariant forall j :: 0 <= j < i ==> Free(vecs[j], buf.g.chains[s + j])
    {
      if chain == null {
        return false;
      }
      buf.NextFacts(s + i);
      if vecs[i].chain != chain || vecs[i].start != chain.misalign + chain.off || vecs[i].len > chain.Space() {
        assert !Free(vecs[i], buf.g.chains[s + i]);
        return false;
      }
      chain := chain.next;
    }
    return true;
  }

  // The second pass of evbuffer_commit_space.
  method CommitVecs(buf: EvBuffer, firstSlot: Chain?, first: Chain?, vecs: seq<Vec>, ghost s: nat, ghost ps: seq<seq<byte>>)
    returns (added: nat)
    requires buf.Listed() && |buf.g.pieces| == |buf.g.chains| && buf.SlotExact() && buf.g.at <= s && Extents(buf.g.chains, s, vecs)
    requires |ps| == |vecs| && forall i :: 0 <= i < |vecs| ==> ps[i] == Payload(vecs[i])
    requires firstSlot == if s == 0 then null else buf.g.chains[s - 1]
    requires first == if s < |buf.g.chains| then buf.g.chains[s] else null
    modifies buf`g, buf`lwd, buf.g.chains`off
    ensures buf.Listed() && |buf.g.pieces| == |buf.g.chains| && buf.SlotExact()
    ensures buf.g.chains == old(buf.g.chains) && buf.g.repr == old(buf.g.repr)
    ensures added == |Flatten(ps)| && buf.Contents() == old(buf.Contents()) + Flatten(ps)
  {
    hide Distinct, Payload, Chain.Data, Chain.Ok, EvBuffer.Listed, EvBuffer.SlotExact;
    var slot, chain := firstSlot, first;
    added := 0;
    for i := 0 to |vecs|
      invariant buf.Listed() && |buf.g.pieces| == |buf.g.chains| && buf.SlotExact() && buf.g.at <= s + i
      invariant buf.g.chains == old(buf.g.chains) && buf.g.repr == old(buf.g.repr)
      invariant s + |vecs| <= |buf.g.chains| && forall j :: i <= j < |vecs| ==> Free(vecs[j], buf.g.chains[s + j])
      invariant slot == if s + i == 0 then null else buf.g.chains[s + i - 1]
      invariant chain == if s + i < |buf.g.chains| then buf.g.chains[s + i] else null
      invariant forall j :: i <= j < |vecs| ==> ps[j] == Payload(vecs[j])
      invariant added == |Prefix(ps, i)| && buf.Contents() == old(buf.Contents()) + Prefix(ps, i)
    {
      buf.OneOf(s + i);
      CommitStep(buf, slot, chain, vecs[i], s + i);
      added := added + vecs[i].len;
      buf.NextFacts(s + i);
      slot, chain := chain, chain.next;
    }
  }

  // buf->total_len += added; buf->n_add_for_cb += added.
  method Account(buf: EvBuffer, added: nat)
    requires buf.Listed() && buf.LastExact() && |buf.g.pieces| == |buf.g.chains| && buf.SlotExact()
    requires |buf.Contents()| == buf.totalLen + added && buf.totalLen == buf.base + buf.nAdd - buf.nDel
    modifies buf`totalLen, buf`nAdd
    ensures buf.Valid()
  {
    hide Flatten, Prefix, Distinct, EvBuffer.Listed;
    buf.totalLen := buf.totalLen + added;
    buf.nAdd := buf.nAdd + added;
  }

  // evbuffer_commit_space on the last chain alone.
  method CommitLast(buf: EvBuffer, v: Vec)
    requires buf.Valid() && buf.last != null && Free(v, buf.last)
    modifies buf, buf.last`off
    ensures buf.Valid() && buf.SameSwitches() && buf.g.repr == old(buf.g.repr) && buf.g.chains == old(buf.g.chains)
    ensures buf.Contents() == old(buf.Contents()) + old(Payload(v))
  {
    hide Flatten, Prefix, Distinct, Payload, Chain.Data, Chain.Ok, EvBuffer.Separate, EvBuffer.Linked;
    buf.SlotFacts();
    ghost var k := |buf.g.chains| - 1;
    FlattenGrow(buf.g.pieces, k, Payload(v));
    Extend(buf, buf.last, v, k);
    if v.len != 0 {
      BufferSplice.AdvanceLastWithData(buf);
    }
    Account(buf, v.len);
  }

  // evbuffer_commit_space on consecutive chains.
  method CommitChains(buf: EvBuffer, vecs: seq<Vec>, ghost ps: seq<seq<byte>>) returns (ok: bool)
    requires buf.Valid() && Payloads(vecs, ps)
    modifies buf, buf.g.chains`off
    ensures buf.Valid() && buf.SameSwitches() && buf.g.repr == old(buf.g.repr) && buf.g.chains == old(buf.g.chains)
    ensures ok <==> old(buf.g.chains != [] && Extents(buf.g.chains, BufferExpand.First(buf.g), vecs))
    ensures buf.Contents() == old(buf.Contents()) + if ok then Flatten(ps) else []
    ensures !ok ==> unchanged(buf)
  {
    hide Flatten, Prefix, Distinct, Chain.Data, Chain.Ok, EvBuffer.Listed, EvBuffer.SlotExact;
    hide BufferExpand.First, Extents;
    assert buf.Contents() + [] == buf.Contents();
    buf.SlotFacts();
    if buf.SlotChain() == null {
      return false;
    }
    var slot, chain := CommitFirst(buf);
    ghost var s := BufferExpand.First(buf.g);
    ok := CheckVecs(buf, chain, vecs, s);
    if !ok {
      return;
    }
    var added := CommitVecs(buf, slot, chain, vecs, s, ps);
    Account(buf, added);
  }

  // The extents that stand for free memory of the last chain, alone.
  lemma LastAlone(buf: EvBuffer, v: Vec)
    requires buf.Shape() && buf.last != null
    ensures buf.last.Ok()
    ensures v.chain == buf.last && v.start == buf.last.misalign + buf.last.off ==>
              (Acceptable(buf, [v]) <==> Free(v, buf.last))
  {
    hide Flatten, Prefix, Distinct, Chain.Data;
  }

  // evbuffer_commit_space; `ps` are the bytes the extents cover. Out-of-bounds extents
  // change nothing.
  method CommitSpace(buf: EvBuffer, vecs: seq<Vec>) returns (result: int, ghost ps: seq<seq<byte>>)
    requires buf.Valid()
    modifies buf, buf.g.chains`off
    ensures buf.Valid() && buf.SameSwitches() && buf.g.repr == old(buf.g.repr) && buf.g.chains == old(buf.g.chains)
    ensures |ps| == |vecs| && forall i :: 0 <= i < |vecs| ==> ps[i] == old(Payload(vecs[i]))
    ensures result == if !buf.freezeEnd && old(Acceptable(buf, vecs)) then 0 else -1
    ensures buf.Contents() == old(buf.Contents()) + if result == 0 then Flatten(ps) else []
    ensures result < 0 ==> unchanged(buf)
  {
    hide Flatten, Prefix, Distinct, Chain.Data, Chain.Ok, EvBuffer.Listed, EvBuffer.SlotExact;
    hide BufferExpand.First, Extents, Payload;
    ps := Collect(vecs);
    assert buf.Contents() + [] == buf.Contents();
    if buf.freezeEnd {
      return -1, ps;
    }
    if vecs == [] {
      FlattenEmpty(ps);
      return 0, ps;
    }
    buf.SlotFacts();
    if buf.last != null {
      LastAlone(buf, vecs[0]);
    }
    if |vecs| == 1 && buf.last != null && vecs[0].chain == buf.last && vecs[0].start == buf.last.misalign + buf.last.off {
      assert vecs == [vecs[0]] && ps == [ps[0]];
      FlattenSingle(ps[0]);
      if vecs[0].len > buf.last.Space() {
        return -1, ps;
      }
      CommitLast(buf, vecs[0]);
    } else {
      var ok := CommitChains(buf, vecs, ps);
      if !ok {
        return -1, ps;
      }
    }
    buf.InvokeCallbacks();
    return 0, ps;
  }

  // What a user does between reserving and committing: write `data` to the start of an extent.
  method WriteExtent(buf: EvBuffer, v: Vec, d: seq<byte>, ghost k: nat) returns (used: Vec)
    requires buf.Valid() && k < |buf.g.chains| && Free(v, buf.g.chains[k]) && |d| <= v.len
    modifies v.chain`mem
    ensures buf.Valid() && buf.g == old(buf.g)
    ensures used == v.(len := |d|) && Payload(used) == d && |v.chain.mem| == old(|v.chain.mem|) && Free(used, v.chain)
  {
    hide Flatten, Prefix, Distinct;
    buf.OneOf(k);
    used := v.(len := |d|);
    ghost var data := v.chain.Data();
    v.chain.Write(v.start, d);
    assert v.chain.Data() == data;
  }

  // The user has so many bytes for each extent, in order.
  predicate Fitting(vecs: seq<Vec>, pieces: seq<seq<byte>>) {
    |pieces| <= |vecs| && forall i :: 0 <= i < |pieces| ==> |pieces[i]| <= vecs[i].len
  }

  // Extents as the user hands them back: as many as have been used, each as long as what is in it.
  predicate Shortened(vecs: seq<Vec>, used: seq<Vec>) {
    && |used| <= |vecs|
    && forall i :: 0 <= i < |used| ==> used[i].chain == vecs[i].chain && used[i].start == vecs[i].start && used[i].len <= vecs[i].len
  }

  // Whatever the user has shortened, evbuffer_commit_space takes it.
  lemma PrefixAccepted(buf: EvBuffer, vecs: seq<Vec>, used: seq<Vec>)
    requires buf.Shape() && Settled(buf.g) && Extents(buf.g.chains, Start(buf.g), vecs) && Shortened(vecs, used)
    ensures Acceptable(buf, used)
  {
    hide Flatten, Prefix, Distinct, Chain.Data;
    assert BufferExpand.First(buf.g) == Start(buf.g);
    forall i | 0 <= i < |used| ensures Free(used[i], buf.g.chains[Start(buf.g) + i]) {
      assert Free(vecs[i], buf.g.chains[Start(buf.g) + i]);
    }
  }

  // What a user does between reserving and committing: write a piece to the start of each extent.
  method WritePieces(buf: EvBuffer, vecs: seq<Vec>, pieces: seq<seq<byte>>, ghost s: nat) returns (used: seq<Vec>)
    requires buf.Valid() && Extents(buf.g.chains, s, vecs) && Fitting(vecs, pieces)
    modifies buf.g.chains`mem
    ensures buf.Valid() && buf.g == old(buf.g) && Extents(buf.g.chains, s, vecs) && Shortened(vecs, used)
    ensures forall j :: 0 <= j < |buf.g.chains| ==> |buf.g.chains[j].mem| == old(|buf.g.chains[j].mem|)
    ensures |used| == |pieces| && forall i :: 0 <= i < |used| ==> Payload(used[i]) == pieces[i]
  {
    hide Flatten, Prefix, Distinct, Payload, Chain.Data, EvBuffer.Listed, EvBuffer.SlotExact, EvBuffer.LastExact;
    used := [];
    for i := 0 to |pieces|
      invariant buf.Valid() && buf.g == old(buf.g) && |used| == i
      invariant forall j :: 0 <= j < |buf.g.chains| ==> |buf.g.chains[j].mem| == old(|buf.g.chains[j].mem|)
      invariant forall j :: 0 <= j < |vecs| ==> Free(vecs[j], buf.g.chains[s + j])
      invariant forall j :: 0 <= j < i ==> used[j] == vecs[j].(len := |pieces[j]|) && Payload(used[j]) == pieces[j]
    {
      buf.OneOf(s + i);
      var v := WriteExtent(buf, vecs[i], pieces[i], s + i);
      used := used + [v];
    }
  }

  // ... and hand the extents back: exactly the pieces are appended, in order.
  method CommitPieces(buf: EvBuffer, vecs: seq<Vec>, pieces: seq<seq<byte>>) returns (result: int)
    requires buf.Valid() && Settled(buf.g) && Extents(buf.g.chains, Start(buf.g), vecs) && Fitting(vecs, pieces)
    modifies buf, buf.g.chains`mem, buf.g.chains`off
    ensures buf.Valid() && buf.SameSwitches() && buf.g.repr == old(buf.g.repr) && buf.g.chains == old(buf.g.chains)
    ensures result == if buf.freezeEnd then -1 else 0
    ensures buf.Contents() == old(buf.Contents()) + if result == 0 then Flatten(pieces) else []
  {
    hide Flatten, Prefix, Distinct, Extents, Acceptable, Payload, Chain.Data, EvBuffer.Listed, EvBuffer.SlotExact, EvBuffer.LastExact;
    var used := WritePieces(buf, vecs, pieces, Start(buf.g));
    buf.NextFacts(buf.g.at);
    assert Settled(buf.g) && Start(buf.g) == old(Start(buf.g));
    PrefixAccepted(buf, vecs, used);
    ghost var ps;
    result, ps := CommitSpace(buf, used);
    assert ps == pieces;
  }

  lemma TotalNext(vecs: seq<Vec>, i: nat)
    requires i < |vecs|
    ensures Total(vecs[..i + 1]) == Total(vecs[..i]) + vecs[i].len
  {
    TotalPush(vecs[..i], vecs[i]);
    assert vecs[..i] + [vecs[i]] == vecs[..i + 1];
  }

  lemma PrefixPush(ps: seq<seq<byte>>, p: seq<byte>)
    ensures Flatten(ps + [p]) == Flatten(ps) + p
  {
    PrefixAgree(ps, ps + [p], |ps|);
  }

  // Data cut into pieces that fill the extents one after the other.
  method Chop(vecs: seq<Vec>, data: seq<byte>) returns (pieces: seq<seq<byte>>)
    requires |data| <= Total(vecs)
    ensures Fitting(vecs, pieces) && Flatten(pieces) == data
  {
    hide Flatten, Total;
    pieces := [];
    var done: nat := 0;
    assert Flatten(pieces) == [] && data[..0] == [] by { FlattenEmpty(pieces); }
    assert Total(vecs[..0]) == 0 by { TotalNone(); }
    assert vecs[..|vecs|] == vecs;
    for i := 0 to |vecs|
      invariant Fitting(vecs, pieces) && |pieces| == i && done <= |data| && Flatten(pieces) == data[..done]
      invariant done < |data| ==> done == Total(vecs[..i])
    {
      var n := if |data| - done < vecs[i].len then |data| - done else vecs[i].len;
      PrefixPush(pieces, data[done..done + n]);
      assert data[..done + n] == data[..done] + data[done..done + n];
      TotalNext(vecs, i);
      pieces, done := pieces + [data[done..done + n]], done + n;
    }
    assert data[..|data|] == data;
  }

  // Reserving, filling the extents one after the other, and committing them appends exactly the data.
  method AppendReserved(buf: EvBuffer, data: seq<byte>, size: int, nVecs: nat) returns (result: int)
    requires buf.Valid() && 0 < size < SIZE_LIMIT && |data| <= size && nVecs >= 2
    modifies buf.g.repr
    ensures buf.Valid() && buf.SameSwitches() && fresh(buf.g.repr - old(buf.g.repr))
    ensures result == -1 || result == 0
    ensures result == -1 ==> buf.freezeEnd || size > MAX_PAYLOAD
    ensures buf.freezeEnd ==> result == -1
    ensures buf.Contents() == old(buf.Contents()) + if result == 0 then data else []
  {
    hide Flatten, Prefix, Total, Distinct, Chain.Data, Chain.Ok, EvBuffer.Listed, EvBuffer.SlotExact, EvBuffer.LastExact;
    hide Start, Settled, Free, Extents, Fitting;
    assert buf.Contents() + [] == buf.Contents();
    buf.OwnsItself();
    var n, vecs, k := ReserveSpace(buf, size, nVecs);
    if n < 0 {
      return -1;
    }
    buf.OwnsItself();
    var pieces := Chop(vecs, data);
    result := CommitPieces(buf, vecs, pieces);
  }

  // An extent reserved alone is refused by evbuffer_commit_space unless its chain is the last
  // or the first with space on it.
  lemma SingleAccepted(buf: EvBuffer, v: Vec, k: nat)
    requires buf.Shape() && k < |buf.g.chains| && Free(v, buf.g.chains[k])
    ensures Acceptable(buf, [v]) <==> k == |buf.g.chains| - 1 || k == BufferExpand.First(buf.g)
  {
    hide Flatten, Prefix, Chain.Data;
    buf.OneOf(k);
    if Extents(buf.g.chains, BufferExpand.First(buf.g), [v]) {
      assert Free([v][0], buf.g.chains[BufferExpand.First(buf.g)]);
    }
  }

  // The extent that would be handed out for `size` bytes alone would be refused, whatever is in it:
  // it is in the chain behind a slot chain with space on, but not enough, and is not the last.
  ghost predicate Refused(g: Layout, size: nat)
    reads g.chains
  {
    BufferExpand.PassesOver(g, size) && g.at + 2 < |g.chains|
  }

  // That is so exactly for a slot chain with data and some space, but too little, that is neither worth moving its
  // data to the front nor worth copying, with a chain behind it that has the space and one more behind that.
  lemma RefusedMeans(g: Layout, size: nat)
    requires g.at + 2 < |g.chains| && g.chains[g.at].Ok() && g.chains[g.at + 1].Ok()
    ensures var c, n := g.chains[g.at], g.chains[g.at + 1];
      Refused(g, size) <==>
        && c.off > 0 && 0 < |c.mem| - c.misalign - c.off < size <= |n.mem| - n.misalign - n.off
        && (c.off + size > |c.mem| || 2 * c.off + 2 > |c.mem| || c.off > 2048)
        && (8 * (|c.mem| - c.misalign - c.off) + 8 <= |c.mem| || c.off > 4096 || c.off + size >= 0x7fff_ffff_ffff_ffff)
  {
    BufferAdd.RealignWorth(g.chains[g.at], size);
    BufferExpand.CopyWorth(g.chains[g.at], size);
    hide BufferAdd.ShouldRealign, BufferExpand.Spent;
  }

  // A single extent is handed out if it fits a chain behind the data of the slot chain.
  lemma NeverFails(g: Layout, size: nat)
    requires forall c :: c in g.chains ==> c.Ok() && c.off + size <= 0x7fff_ffff_ffff_ffff - 48
    requires size <= 0x7fff_ffff_ffff_ffff - 48
    ensures !BufferExpand.Fails(g, size)
  {
  }

  lemma PassedOver(g: Layout, size: nat)
    requires BufferExpand.PassesOver(g, size)
    ensures BufferExpand.First(g) == g.at
  {
  }

  // Writing into extents does not move the first chain with space on it.
  twostate lemma SameFirst(g: Layout)
    requires forall c :: c in g.chains ==> unchanged(c`misalign, c`off) && |c.mem| == old(|c.mem|)
    ensures BufferExpand.First(g) == old(BufferExpand.First(g))
  {
  }

  // Reserving a single extent, writing into it, and committing it.
  method AppendAlone(buf: EvBuffer, data: seq<byte>, size: int) returns (reserved: int, result: int)
    requires buf.Valid() && 0 <= size < SIZE_LIMIT && |data| <= size
    modifies buf.g.repr
    ensures buf.Valid() && buf.SameSwitches() && fresh(buf.g.repr - old(buf.g.repr))
    ensures reserved == if buf.freezeEnd || old(BufferExpand.Fails(buf.g, size)) then -1 else 1
    ensures result == if reserved == -1 || old(Refused(buf.g, size)) then -1 else 0
    ensures buf.Contents() == old(buf.Contents()) + if result == 0 then data else []
  {
    hide Flatten, Prefix, Total, Distinct, Chain.Data, EvBuffer.Listed, EvBuffer.SlotExact, EvBuffer.LastExact;
    hide BufferExpand.Fails, BufferExpand.PassesOver, BufferExpand.First, BufferExpand.Inserted, Acceptable, Payload;
    assert buf.Contents() + [] == buf.Contents();
    buf.OwnsItself();
    var vecs;
    ghost var k, ps;
    reserved, vecs, k := ReserveSpace(buf, size, 1);
    if reserved < 0 {
      return reserved, -1;
    }
    buf.OwnsItself();
    if old(BufferExpand.PassesOver(buf.g, size)) {
      PassedOver(buf.g, size);
    }
    label L:
    var used := WriteExtent(buf, vecs[0], data, k);
    SameFirst@L(buf.g);
    SingleAccepted(buf, used, k);
    result, ps := CommitSpace(buf, [used]);
    assert ps == [data];
    FlattenSingle(data);
  }

  // 900 bytes in one chain of 976.
  ghost predicate NearlyFull(buf: EvBuffer)
    reads buf, buf.g.chains
  {
    && buf.Valid() && !buf.freezeEnd && |buf.Contents()| == 900 && buf.g.chains != [] && buf.g.at == 0
    && var c := buf.g.chains[0]; |c.mem| == 976 && c.misalign == 0 && c.off == 900
  }

  // A chain of the usual size is the answer to a small request.
  lemma Small(size: nat)
    requires 0 < size <= 976
    ensures Capacity(size) == 976
  {
  }

  // Reserving 900 bytes of a new buffer.
  method ReserveFirst(buf: EvBuffer) returns (v: Vec)
    requires buf.Valid() && buf.g.chains == [] && !buf.freezeEnd
    modifies buf
    ensures buf.Valid() && buf.SameSwitches() && fresh(buf.g.repr - old(buf.g.repr)) && buf.Contents() == old(buf.Contents())
    ensures |buf.g.chains| == 1 && Free(v, buf.g.chains[0]) && v.len >= 900
    ensures var c := buf.g.chains[0]; |c.mem| == 976 && c.misalign == 0 && c.off == 0
  {
    hide Flatten, Prefix, Total, Distinct, Chain.Data, EvBuffer.Listed, EvBuffer.SlotExact, EvBuffer.LastExact;
    Small(900);
    var n, vecs, k := ReserveSpace(buf, 900, 1);
    v := vecs[0];
  }

  // A buffer with one chain and 900 bytes in it.
  lemma OneFull(buf: EvBuffer)
    requires buf.Shape() && |buf.g.chains| == 1 && |buf.Contents()| == 900
    ensures buf.g.at == 0 && buf.g.chains[0].off == 900
  {
    hide Flatten, Prefix, Distinct, Chain.Data;
    buf.NextFacts(0);
    assert buf.g.pieces == [buf.g.pieces[0]];
    FlattenSingle(buf.g.pieces[0]);
  }

  // A new buffer, after a reservation of 900 bytes has been filled and committed.
  method Fill() returns (buf: EvBuffer)
    ensures fresh(buf) && fresh(buf.g.repr) && NearlyFull(buf) && |buf.g.chains| == 1
  {
    hide Flatten, Prefix, Total, Distinct, Acceptable, Chain.Data, EvBuffer.Listed, EvBuffer.SlotExact, EvBuffer.LastExact;
    buf := new EvBuffer();
    var v := ReserveFirst(buf);
    buf.OwnsItself();
    var used := WriteExtent(buf, v, seq(900, _ => 0), 0);
    SingleAccepted(buf, used, 0);
    var result;
    ghost var ps;
    result, ps := CommitSpace(buf, [used]);
    assert ps == [ps[0]];
    FlattenSingle(ps[0]);
    OneFull(buf);
  }

  // Chain k is empty, all 976 bytes of it.
  ghost predicate Blank(g: Layout, k: nat)
    reads g.chains
  {
    k < |g.chains| && |g.chains[k].mem| == 976 && g.chains[k].misalign == 0 && g.chains[k].off == 0
  }

  // A reservation of 500 bytes, which the nearly full chain has no room for, adds an empty chain.
  method LeaveOne(buf: EvBuffer)
    requires NearlyFull(buf) && |buf.g.chains| == 1
    modifies buf, buf.g.chains
    ensures NearlyFull(buf) && fresh(buf.g.repr - old(buf.g.repr)) && |buf.g.chains| == 2 && Blank(buf.g, 1)
  {
    hide Flatten, Prefix, Total, Distinct, Chain.Data, EvBuffer.Listed, EvBuffer.LastExact;
    buf.NextFacts(0);
    Small(500);
    assert buf.Kept() == 1;
    var n, vecs, k := ReserveSpace(buf, 500, 1);
    assert buf.g.chains == [old(buf.g.chains)[0], buf.g.chains[1]] && buf.g.chains[0] in buf.g.chains;
    buf.OneOf(1);
    buf.NextFacts(0);
    buf.NextFacts(1);
  }

  // One of 2000 bytes, in three extents, adds another one.
  method LeaveTwo(buf: EvBuffer)
    requires NearlyFull(buf) && |buf.g.chains| == 2 && Blank(buf.g, 1)
    modifies buf, buf.g.chains
    ensures NearlyFull(buf) && fresh(buf.g.repr - old(buf.g.repr)) && |buf.g.chains| >= 3 && Blank(buf.g, 1)
  {
    hide Flatten, Prefix, Total, Distinct, Chain.Data, EvBuffer.Listed, EvBuffer.SlotExact, EvBuffer.LastExact;
    ghost var c, d := buf.g.chains[0], buf.g.chains[1];
    buf.NextFacts(0);
    buf.NextFacts(1);
    var n, vecs, k := ReserveSpace(buf, 2000, 3);
    if |buf.g.chains| == 2 {
      TwoHold(buf.g, vecs);
    }
  }

  // Two chains of 976 do not hold 2000 bytes.
  lemma TwoHold(g: Layout, vecs: seq<Vec>)
    requires |g.chains| == 2 && |g.chains[0].mem| == |g.chains[1].mem| == 976 && Extents(g.chains, Start(g), vecs)
    ensures Total(vecs) < 2000
  {
    if vecs != [] {
      assert Free(vecs[|vecs| - 1], g.chains[Start(g) + |vecs| - 1]);
      var rest := vecs[..|vecs| - 1];
      if rest != [] {
        assert Free(vecs[0], g.chains[Start(g)]);
        assert rest[..|rest| - 1] == [] && Total([]) == 0;
      }
    }
  }

  // A reservation of 500 bytes that succeeds, and whose extent is refused.
  method RefusedExtent() returns (buf: EvBuffer, reserved: int, committed: int)
    ensures fresh(buf) && buf.Valid() && !buf.freezeEnd && reserved == 1 && committed == -1 && |buf.Contents()| == 900
  {
    hide Flatten, Prefix, Total, Distinct, Chain.Data, EvBuffer.Listed, EvBuffer.SlotExact, EvBuffer.LastExact;
    buf := Fill();
    buf.OwnsItself();
    LeaveOne(buf);
    buf.OwnsItself();
    LeaveTwo(buf);
    buf.OwnsItself();
    reserved, committed := AppendAlone(buf, seq(500, _ => 0), 500);
  }
}
