// The chained buffer of buffer.c: a linked list of chunks with slack at both ends,
// a cached slot pointer to the last chunk that holds data, and a cached length.
module Evbuffer {
  import opened Bytes
  import opened Options

  const SIZE_MAX: nat := 0xffff_ffff_ffff_ffff
  const CHAIN_MAX: nat := 0x7fff_ffff_ffff_ffff
  const CHAIN_SIZE: nat := 48
  const MIN_BUFFER_SIZE: nat := 1024
  const MAX_AUTO_SIZE: nat := 4096
  const MAX_TO_COPY_IN_EXPAND: nat := 4096
  const MAX_TO_REALIGN_IN_EXPAND: nat := 2048
  // The largest request evbuffer_chain_new can satisfy.
  const MAX_PAYLOAD: nat := CHAIN_MAX - CHAIN_SIZE

  // One chunk. Header and memory are one allocation, so the memory `mem` is part of the
  // object; its length never changes. The data is the `off` bytes after `misalign`.
  class Chain {
    var mem: seq<byte>
    var misalign: nat
    var off: nat
    var next: Chain?

    ghost predicate Ok()
      reads this`mem, this`misalign, this`off
    {
      misalign + off <= |mem| && 0 < |mem| <= MAX_PAYLOAD
    }

    ghost function Data(): (d: seq<byte>)
      requires Ok()
      reads this`mem, this`misalign, this`off
      ensures |d| == off
    {
      mem[misalign..misalign + off]
    }

    // CHAIN_SPACE_LEN for a mutable chain.
    function Space(): nat
      requires Ok()
      reads this`mem, this`misalign, this`off
    {
      |mem| - (misalign + off)
    }

    constructor (capacity: nat)
      requires 0 < capacity <= MAX_PAYLOAD
      ensures Ok() && misalign == 0 && off == 0 && next == null && |mem| == capacity
    {
      mem := seq(capacity, _ => 0);
      misalign, off, next := 0, 0, null;
    }

    // memcpy(buffer + position, d, |d|)
    method Write(position: nat, d: seq<byte>)
      requires position + |d| <= |mem|
      modifies this`mem
      ensures mem == old(mem)[..position] + d + old(mem)[position + |d|..]
    {
      mem := mem[..position] + d + mem[position + |d|..];
    }

    // Copy to the end of the data, as every appending path does.
    method Append(d: seq<byte>)
      requires Ok() && |d| <= Space()
      modifies this`off, this`mem
      ensures Ok() && Data() == old(Data()) + d && |mem| == old(|mem|)
    {
      Write(misalign + off, d);
      off := off + |d|;
    }

    // Copy in front of the data, into the misalignment.
    method Prepend(d: seq<byte>)
      requires Ok() && |d| <= misalign
      modifies this`off, this`misalign, this`mem
      ensures Ok() && Data() == d + old(Data()) && |mem| == old(|mem|)
      ensures misalign == old(misalign) - |d|
    {
      Write(misalign - |d|, d);
      misalign := misalign - |d|;
      off := off + |d|;
    }

    // Drop n bytes from the front of the data.
    method Consume(n: nat)
      requires Ok() && n <= off
      modifies this`off, this`misalign
      ensures Ok() && Data() == old(Data())[n..]
      ensures misalign + off == old(misalign + off)
    {
      misalign := misalign + n;
      off := off - n;
    }

    // evbuffer_chain_align
    method Align()
      requires Ok()
      modifies this`misalign, this`mem
      ensures Ok() && misalign == 0 && Data() == old(Data()) && |mem| == old(|mem|)
    {
      Write(0, mem[misalign..misalign + off]);
      misalign := 0;
    }
  }

  // The least from * 2^i that is at least want.
  function Rounded(want: nat, from: nat): (n: nat)
    requires from > 0
    ensures n >= want && n >= from
    decreases want - from
  {
    if from >= want then from else Rounded(want, 2 * from)
  }

  // The memory of a chain made for `size` bytes.
  function Capacity(size: nat): (n: nat)
    ensures n >= size
  {
    var want := size + CHAIN_SIZE;
    (if want < CHAIN_MAX / 2 then Rounded(want, MIN_BUFFER_SIZE) else want) - CHAIN_SIZE
  }

  function TwoTo(i: nat): nat {
    if i == 0 then 1 else 2 * TwoTo(i - 1)
  }

  lemma {:induction false} RoundedLeast(want: nat, from: nat) returns (i: nat)
    requires from > 0
    ensures Rounded(want, from) == from * TwoTo(i) >= want && (i > 0 ==> from * TwoTo(i - 1) < want)
    decreases want - from
  {
    if from >= want {
      i := 0;
    } else {
      var k := RoundedLeast(want, 2 * from);
      i := k + 1;
      Twice(from, TwoTo(k));
      if k > 0 {
        Twice(from, TwoTo(k - 1));
      }
    }
  }

  lemma Twice(a: nat, b: nat)
    ensures a * (2 * b) == 2 * a * b
  {
  }

  // Header and payload of a chain take the least 1024 * 2^i bytes that are enough, unless that is huge; then they
  // take just what is asked for.
  lemma CapacityLeast(size: nat) returns (i: nat)
    ensures if size + 48 >= 0x3fff_ffff_ffff_ffff then Capacity(size) == size
            else Capacity(size) + 48 == 1024 * TwoTo(i) >= size + 48 && (i > 0 ==> 1024 * TwoTo(i - 1) < size + 48)
  {
    i := RoundedLeast(size + 48, 1024);
  }

  // The result of memory allocation for a chain of `size` bytes: evbuffer_chain_new.
  // The total allocation is the least 1024 * 2^i that holds header and payload, except
  // that huge requests are allocated exactly; requests that cannot be expressed fail.
  method ChainNew(size: nat) returns (chain: Chain?)
    ensures chain == null <==> size > MAX_PAYLOAD
    ensures chain != null ==> fresh(chain) && chain.Ok() && chain.Data() == []
    ensures chain != null ==> chain.misalign == 0 && chain.off == 0 && chain.next == null
    ensures chain != null ==> size <= |chain.mem| == Capacity(size)
  {
    if size > MAX_PAYLOAD {
      return null;
    }
    var want := size + CHAIN_SIZE;
    var toAlloc := want;
    if want < CHAIN_MAX / 2 {
      toAlloc := MIN_BUFFER_SIZE;
      while toAlloc < want
        invariant CHAIN_SIZE < toAlloc
        invariant toAlloc == MIN_BUFFER_SIZE || toAlloc < 2 * want
        invariant Rounded(want, toAlloc) == Rounded(want, MIN_BUFFER_SIZE)
      {
        toAlloc := toAlloc * 2;
      }
    }
    chain := new Chain(toAlloc - CHAIN_SIZE);
  }

  // The (int) cast of a size: its low 32 bits, as a signed number.
  function ToInt(n: nat): (i: int)
    ensures -0x8000_0000 <= i < 0x8000_0000 && (n - i) % 0x1_0000_0000 == 0 && (n < 0x8000_0000 ==> i == n)
  {
    var low := n % 0x1_0000_0000;
    if low < 0x8000_0000 then low else low - 0x1_0000_0000
  }

  // struct evbuffer_ptr: a position, and the chain and offset in it where that position is.
  datatype Ptr = Ptr(pos: int, chain: Chain?, posInChain: nat)

  const NOT_FOUND := Ptr(-1, null, 0)

  // What a buffer callback is told: the length before the changes, and the changes.
  datatype CallbackInfo = CallbackInfo(origSize: int, nAdded: nat, nDeleted: nat)
  // The intended layout of a buffer: its chains, the data each holds, the position of
  // the chain in the slot last_with_datap, and the objects it owns.
  datatype Layout = Layout(chains: seq<Chain>, pieces: seq<seq<byte>>, at: nat, repr: set<object>)

  ghost predicate Distinct(cs: seq<Chain>) {
    forall i, j :: 0 <= i < j < |cs| ==> cs[i] != cs[j]
  }

  lemma DistinctAt(cs: seq<Chain>, k: nat)
    requires Distinct(cs) && k < |cs|
    ensures forall i :: 0 <= i < |cs| && i != k ==> cs[i] != cs[k]
  {
  }

  lemma DistinctCut(cs: seq<Chain>, k: nat)
    requires Distinct(cs) && k <= |cs|
    ensures Distinct(cs[..k]) && Distinct(cs[k..])
    ensures forall c :: c in cs[..k] ==> c !in cs[k..]
  {
  }

  lemma DistinctJoin(a: seq<Chain>, b: seq<Chain>)
    requires Distinct(a) && Distinct(b)
    requires forall c :: c in a ==> c !in b
    ensures Distinct(a + b)
  {
    forall i, j | 0 <= i < j < |a + b| ensures (a + b)[i] != (a + b)[j] {
      if i < |a| <= j {
        assert (a + b)[i] in a && (a + b)[j] in b;
      }
    }
  }

  lemma DistinctCons(c: Chain, cs: seq<Chain>)
    requires Distinct(cs) && c !in cs
    ensures Distinct([c] + cs)
  {
  }

  lemma DistinctReplace(cs: seq<Chain>, k: nat, c: Chain)
    requires Distinct(cs) && c !in cs && k < |cs|
    ensures Distinct(cs[k := c])
  {
  }

  lemma DistinctPush(cs: seq<Chain>, c: Chain)
    requires Distinct(cs) && c !in cs
    ensures Distinct(cs + [c])
  {
  }

  // A linked list on its own: chains `cs`, ending in NULL, holding `ps`.
  ghost predicate Segment(cs: seq<Chain>, ps: seq<seq<byte>>)
    reads cs
  {
    && |ps| == |cs| && Distinct(cs) && (cs != [] ==> cs[|cs| - 1].next == null)
    && (forall i, j {:trigger cs[i].next, cs[j]} :: 0 <= i && j == i + 1 < |cs| ==> cs[i].next == cs[j])
    && (forall i :: 0 <= i < |cs| ==> cs[i].Ok() && cs[i].Data() == ps[i])
  }

  // One more chain in front of a list.
  lemma SegmentCons(c: Chain, cs: seq<Chain>, ps: seq<seq<byte>>)
    requires Segment(cs, ps) && c !in cs && c.Ok() && c.next == if cs == [] then null else cs[0]
    ensures Segment([c] + cs, [c.Data()] + ps)
  {
    hide Chain.Ok, Chain.Data, Distinct;
    DistinctCons(c, cs);
    var ds := [c] + cs;
    forall i, j | 0 <= i && j == i + 1 < |ds| ensures ds[i].next == ds[j] {
      assert ds[j] == cs[i] && (i > 0 ==> ds[i] == cs[i - 1]);
    }
  }

  class EvBuffer {
    var first: Chain?
    var last: Chain?
    // The slot last_with_datap: null stands for &buf->first, a chain c for &c->next.
    var lwd: Chain?
    var totalLen: nat
    var nAdd: nat
    var nDel: nat
    var freezeStart: bool
    var freezeEnd: bool
    // Whether callbacks are registered, and whether they are deferred to the event loop.
    var hasCallbacks: bool
    var deferred: bool

    // What the list is meant to be.
    ghost var g: Layout
    // The length when the callback counters were last cleared.
    ghost var base: nat

    // The byte string the buffer denotes.
    ghost function Contents(): seq<byte>
      reads this`g
    {
      Flatten(g.pieces)
    }

    // The chains are distinct objects owned by the buffer.
    ghost predicate Separate()
      reads this`g
    {
      && this in g.repr
      && (forall i :: 0 <= i < |g.chains| ==> g.chains[i] in g.repr)
      && Distinct(g.chains)
    }

    // The pointers first and next spell out the chains.
    ghost predicate Linked()
      reads this`g, this`first, g.chains
    {
      && first == (if g.chains == [] then null else g.chains[0])
      && (g.chains != [] ==> g.chains[|g.chains| - 1].next == null)
      && (forall i, j {:trigger g.chains[i].next, g.chains[j]} :: 0 <= i && j == i + 1 < |g.chains| ==>
            g.chains[i].next == g.chains[j])
    }

    // Each chain is well formed and holds its piece.
    ghost predicate Holds()
      reads this`g, g.chains
    {
      && |g.pieces| == |g.chains|
      && (forall i :: 0 <= i < |g.chains| ==> g.chains[i].Ok() && g.chains[i].Data() == g.pieces[i])
    }

    // The linked list is as intended.
    ghost predicate Listed()
      reads this`g, this`first, g.chains
    {
      Separate() && Linked() && Holds()
    }

    // `last` is the final chain.
    ghost predicate LastExact()
      reads this`g, this`last
    {
      last == if g.chains == [] then null else g.chains[|g.chains| - 1]
    }

    // The cached slot is exactly that of the last non-empty chain, or the head slot.
    ghost predicate SlotExact()
      requires |g.pieces| == |g.chains|
      reads this`g, this`lwd
    {
      && (if g.at == 0 then lwd == null else g.at < |g.chains| && lwd == g.chains[g.at - 1] && g.pieces[g.at] != [])
      && (forall i :: g.at < i < |g.chains| ==> g.pieces[i] == [])
    }

    // What the caches have to be when the slot is not the head slot.
    ghost predicate Caches(slot: Chain?, end: Chain?)
      reads this`g
    {
      && 0 < g.at < |g.chains| == |g.pieces|
      && slot == g.chains[g.at - 1] && g.pieces[g.at] != []
      && (forall i :: g.at < i < |g.chains| ==> g.pieces[i] == [])
      && end == g.chains[|g.chains| - 1]
    }

    // Everything but the callback counters.
    ghost predicate Shape()
      reads this, g.chains
    {
      Listed() && LastExact() && SlotExact() && totalLen == |Contents()|
    }

    // The invariant documented at the declaration of struct evbuffer.
    ghost predicate Valid()
      reads this, g.chains
    {
      Shape() && totalLen == base + nAdd - nDel
    }

    // evbuffer_new
    constructor ()
      ensures Valid() && fresh(g.repr) && g.chains == []
      ensures Contents() == [] && !freezeStart && !freezeEnd && !hasCallbacks && !deferred
    {
      first, last, lwd := null, null, null;
      totalLen, nAdd, nDel, base := 0, 0, 0, 0;
      freezeStart, freezeEnd, hasCallbacks, deferred := false, false, false, false;
      g := Layout([], [], 0, {this});
    }

    // The chain in the slot, *last_with_datap.
    function SlotChain(): (c: Chain?)
      reads this`first, this`lwd, lwd
    {
      if lwd == null then first else lwd.next
    }

    // The chain in the slot is the one at the intended position.
    lemma SlotFacts()
      requires Shape()
      ensures (SlotChain() == null <==> g.chains == []) && (first == null <==> g.chains == [])
      ensures g.chains != [] ==> g.at < |g.chains| && SlotChain() == g.chains[g.at] && SlotChain().Ok()
      ensures Kept() <= |g.chains|
      ensures g.chains != [] ==> first == g.chains[0] && last == g.chains[|g.chains| - 1]
    {
      hide Flatten, Distinct, Chain.Ok, Chain.Data;
    }

    // The list from chain k on is as intended, whatever precedes it.
    ghost predicate ListedFrom(k: nat)
      reads this`g, g.chains
    {
      && Separate()
      && |g.pieces| == |g.chains|
      && (g.chains != [] ==> g.chains[|g.chains| - 1].next == null)
      && (forall i, j {:trigger g.chains[i].next, g.chains[j]} :: k <= i && j == i + 1 < |g.chains| ==>
            g.chains[i].next == g.chains[j])
      && (forall i :: k <= i < |g.chains| ==> g.chains[i].Ok() && g.chains[i].Data() == g.pieces[i])
    }

    // The buffer and its chains are among the objects it owns.
    lemma OwnsItself()
      requires Listed()
      ensures this in g.repr && forall i :: 0 <= i < |g.chains| ==> g.chains[i] in g.repr
    {
    }

    // What a caller who does not look at the chains needs.
    lemma ValidFacts()
      requires Valid()
      ensures totalLen == |Contents()| && this in g.repr && forall i :: 0 <= i < |g.chains| ==> g.chains[i] in g.repr
    {
      OwnsItself();
    }

    // The memory of chain k holds its piece.
    lemma PieceFacts(k: nat)
      requires Listed() && k < |g.chains|
      ensures var c := g.chains[k]; c.Ok() && c.mem[c.misalign..c.misalign + c.off] == g.pieces[k]
    {
    }

    lemma OneOf(k: nat)
      requires Listed() && k < |g.chains|
      ensures forall i :: 0 <= i < |g.chains| && i != k ==> g.chains[i] != g.chains[k]
    {
    }

    lemma NextFacts(k: nat)
      requires Listed() && k < |g.chains|
      ensures g.chains[k].next == if k + 1 < |g.chains| then g.chains[k + 1] else null
      ensures g.chains[k].Ok() && g.chains[k].off == |g.pieces[k]| && |g.pieces| == |g.chains|
    {
      hide Distinct, Chain.Data;
      if k + 1 < |g.chains| {
        assert g.chains[k].next == g.chains[k + 1];
      }
    }

    // The pointer denotes its position, in chain k.
    ghost predicate Points(p: Ptr, k: nat)
      reads this`g
    {
      && k < |g.chains| && k < |g.pieces| && p.chain == g.chains[k] && p.posInChain <= |g.pieces[k]|
      && p.pos == |Prefix(g.pieces, k)| + p.posInChain
    }

    // The pointer denotes a position of the buffer, or the end with no chain left.
    ghost predicate PtrOk(p: Ptr)
      reads this`g
    {
      (p.chain == null && p.pos == |Contents()|) || exists k :: Points(p, k)
    }

    // The number of chains up to and including the last one with data.
    ghost function Kept(): nat
      reads this`g
    {
      if g.at < |g.pieces| && g.pieces[g.at] != [] then g.at + 1 else g.at
    }

    // The chain whose `next` is the slot behind the data, if that is not the head slot.
    ghost function TailNode(): set<Chain>
      reads this`g
    {
      if 0 < Kept() <= |g.chains| then {g.chains[Kept() - 1]} else {}
    }

    // The search loop of evbuffer_free_trailing_empty_chains: the first slot, from
    // last_with_datap on, whose chain is missing or empty.
    method FindVictim() returns (slot: Chain?, victim: Chain?)
      requires Shape()
      ensures slot == if Kept() == 0 then null else g.chains[Kept() - 1]
      ensures victim == if Kept() < |g.chains| then g.chains[Kept()] else null
    {
      slot := lwd;
      victim := SlotChain();
      ghost var k := g.at;
      while victim != null && victim.off != 0
        invariant g.at <= k <= Kept() <= |g.chains|
        invariant slot == if k == 0 then null else g.chains[k - 1]
        invariant victim == if k < |g.chains| then g.chains[k] else null
        decreases |g.chains| - k
      {
        slot, victim, k := victim, victim.next, k + 1;
      }
    }

    // *chp = NULL, for the slot of chain k: cut the list there.
    method CutSlot(slot: Chain?, ghost k: nat)
      requires Listed()
      requires k <= |g.chains| && slot == if k == 0 then null else g.chains[k - 1]
      modifies this`first, this`g, (if slot == null then {} else {slot})`next
      ensures Listed()
      ensures g == old(g.(chains := g.chains[..k], pieces := g.pieces[..k]))
    {
      hide Flatten, Prefix, Chain.Data, Chain.Ok, Distinct;
      DistinctCut(g.chains, k);
      if slot == null {
        first := null;
      } else {
        DistinctAt(g.chains, k - 1);
        slot.next := null;
      }
      g := g.(chains := g.chains[..k], pieces := g.pieces[..k]);
    }

    // evbuffer_free_trailing_empty_chains: cut off every chain after the data. Returns the
    // slot where a new chain goes (null for the head slot); `last` is left to the caller.
    method FreeTrailingEmptyChains() returns (slot: Chain?)
      requires Shape()
      modifies this`first, this`g, TailNode()`next
      ensures Listed() && SlotExact()
      ensures g == old(g.(chains := g.chains[..Kept()], pieces := g.pieces[..Kept()]))
      ensures slot == if g.chains == [] then null else g.chains[|g.chains| - 1]
      ensures Contents() == old(Contents())
    {
      hide Flatten, Prefix, Chain.Data, Chain.Ok, Distinct;
      var victim;
      slot, victim := FindVictim();
      FlattenCut(g.pieces, Kept());
      if victim != null {
        CutSlot(slot, Kept());
      }
    }

    // Set the caches, when the list has received n more bytes.
    method SetCaches(slot: Chain?, end: Chain?, n: nat)
      requires Listed() && Caches(slot, end)
      requires |Contents()| == totalLen + n && totalLen == base + nAdd - nDel
      modifies this`lwd, this`last, this`totalLen, this`nAdd
      ensures Valid()
    {
      hide Flatten, Prefix, Distinct, Separate, Linked, Holds;
      lwd, last := slot, end;
      totalLen := totalLen + n;
      nAdd := nAdd + n;
    }

    // Set the caches of a buffer with the single chain `end`.
    method SetSingle(end: Chain)
      requires Listed() && g.at == 0 && g.chains == [end]
      requires |Contents()| == totalLen == base + nAdd - nDel
      modifies this`lwd, this`last
      ensures Valid()
    {
      hide Flatten, Prefix, Distinct, Separate, Linked;
      last, lwd := end, null;
    }

    // Record the position of the chain in the slot.
    ghost method SetAt(at: nat)
      requires Listed()
      modifies this`g
      ensures Listed() && g == old(g).(at := at)
    {
      g := g.(at := at);
    }

    // *chp = chain, for the slot behind the whole list.
    method WriteSlot(slot: Chain?, chain: Chain, ghost at: nat)
      requires Listed()
      requires chain !in g.repr && chain.Ok() && chain.next == null
      requires slot == if g.chains == [] then null else g.chains[|g.chains| - 1]
      modifies this`first, this`g, (if slot == null then {} else {slot})`next
      ensures Listed()
      ensures g == Layout(old(g.chains) + [chain], old(g.pieces) + [chain.Data()], at, old(g.repr) + {chain})
    {
      hide Flatten, Prefix, Chain.Data, Chain.Ok, Distinct;
      DistinctPush(g.chains, chain);
      if slot == null {
        first := chain;
      } else {
        DistinctAt(g.chains, |g.chains| - 1);
        slot.next := chain;
      }
      g := Layout(g.chains + [chain], g.pieces + [chain.Data()], at, g.repr + {chain});
    }

    // Put `chain` behind the data and make it the last chain.
    method LinkLast(slot: Chain?, chain: Chain)
      requires Listed() && SlotExact() && totalLen == |Contents()|
      requires chain !in g.repr && chain.Ok() && chain.next == null
      requires Kept() == |g.chains| && slot == if g.chains == [] then null else g.chains[|g.chains| - 1]
      modifies this`first, this`last, this`lwd, this`totalLen, this`g, (if slot == null then {} else {slot})`next
      ensures Shape() && g.repr == old(g.repr) + {chain}
      ensures g.chains == old(g.chains) + [chain]
      ensures Contents() == old(Contents()) + chain.Data()
    {
      hide Flatten, Prefix, Chain.Data, Chain.Ok, Distinct;
      FlattenPush(g.pieces, |g.pieces|, chain.Data());
      assert g.pieces[..|g.pieces|] == g.pieces;
      WriteSlot(slot, chain, if chain.off != 0 then |g.chains| else g.at);
      if chain.off != 0 {
        lwd := slot;
      }
      last := chain;
      totalLen := totalLen + chain.off;
    }

    // evbuffer_chain_insert: add a chain at the end, freeing trailing empty chains.
    method ChainInsert(chain: Chain)
      requires Shape() && chain !in g.repr && chain.Ok() && chain.next == null
      modifies this`first, this`last, this`lwd, this`totalLen, this`g, TailNode()`next
      ensures Shape() && g.repr == old(g.repr) + {chain}
      ensures Contents() == old(Contents()) + chain.Data()
      ensures g.chains == old(g.chains)[..old(Kept())] + [chain]
    {
      hide Flatten, Prefix, Chain.Data, Chain.Ok, Distinct;
      if SlotChain() == null {
        LinkLast(null, chain);
      } else {
        var slot := FreeTrailingEmptyChains();
        LinkLast(slot, chain);
      }
    }

    // memcpy to the end of chain k.
    method AppendTo(ghost k: nat, chain: Chain, d: seq<byte>)
      requires Listed() && k < |g.chains| && chain == g.chains[k] && |d| <= chain.Space()
      modifies this`g, chain`off, chain`mem
      ensures Listed() && g == old(g.(pieces := g.pieces[k := g.pieces[k] + d]))
      ensures chain.Space() == old(chain.Space()) - |d| && |chain.mem| == old(|chain.mem|)
    {
      hide Flatten, Prefix, Distinct, Chain.Data;
      DistinctAt(g.chains, k);
      chain.Append(d);
      g := g.(pieces := g.pieces[k := g.pieces[k] + d]);
    }

    // evbuffer_chain_align on chain k.
    method AlignAt(ghost k: nat, chain: Chain)
      requires Listed() && k < |g.chains| && chain == g.chains[k]
      modifies chain`misalign, chain`mem
      ensures Listed()
      ensures chain.Space() == |chain.mem| - chain.off && |chain.mem| == old(|chain.mem|)
    {
      hide Flatten, Prefix, Distinct, Chain.Data;
      DistinctAt(g.chains, k);
      chain.Align();
    }

    // memcpy in front of the data of chain k.
    method PrependTo(ghost k: nat, chain: Chain, d: seq<byte>)
      requires Listed() && k < |g.chains| && chain == g.chains[k] && |d| <= chain.misalign
      modifies this`g, chain`off, chain`misalign, chain`mem
      ensures Listed() && g == old(g.(pieces := g.pieces[k := d + g.pieces[k]]))
      ensures chain.misalign == old(chain.misalign) - |d| && |chain.mem| == old(|chain.mem|)
    {
      hide Flatten, Prefix, Distinct, Chain.Data;
      DistinctAt(g.chains, k);
      chain.Prepend(d);
      g := g.(pieces := g.pieces[k := d + g.pieces[k]]);
    }

    // An empty chain may start anywhere.
    method SetMisalign(ghost k: nat, chain: Chain, misalign: nat)
      requires Listed() && k < |g.chains| && chain == g.chains[k]
      requires chain.off == 0 && misalign <= |chain.mem|
      modifies chain`misalign
      ensures Listed() && chain.misalign == misalign
    {
      hide Flatten, Prefix, Distinct, Chain.Data;
      DistinctAt(g.chains, k);
      chain.misalign := misalign;
    }

    // chain->next = first; first = chain.
    method PushFront(chain: Chain, ghost at: nat)
      requires Listed() && chain !in g.repr && chain.Ok()
      modifies this`first, this`g, chain`next
      ensures Listed()
      ensures g == Layout([chain] + old(g.chains), [chain.Data()] + old(g.pieces), at, old(g.repr) + {chain})
    {
      hide Flatten, Prefix, Distinct, Chain.Ok, Chain.Data;
      DistinctCons(chain, g.chains);
      chain.next := first;
      first := chain;
      g := Layout([chain] + g.chains, [chain.Data()] + g.pieces, at, g.repr + {chain});
    }

    // first = chain, for chain k: the chains before it leave the list.
    method DropFront(ghost k: nat, chain: Chain?, ghost at: nat)
      requires Listed() && k <= |g.chains| && chain == if k < |g.chains| then g.chains[k] else null
      modifies this`first, this`g
      ensures Listed() && first == chain
      ensures g == old(g.(chains := g.chains[k..], pieces := g.pieces[k..], at := at))
    {
      hide Flatten, Prefix, Distinct, Chain.Ok, Chain.Data;
      DistinctCut(g.chains, k);
      first := chain;
      g := g.(chains := g.chains[k..], pieces := g.pieces[k..], at := at);
    }

    // first = tmp; tmp->next = chain: chain tmp takes the place of the first k chains.
    method ReplaceFront(ghost k: nat, tmp: Chain, chain: Chain?, ghost at: nat)
      requires 0 < k <= |g.chains| && ListedFrom(k) && chain == if k < |g.chains| then g.chains[k] else null
      requires tmp.Ok() && (tmp !in g.repr || tmp == g.chains[0])
      modifies this`first, this`g, tmp`next
      ensures Listed() && first == tmp && tmp.Data() == old(tmp.Data())
      ensures g == Layout([tmp] + old(g.chains)[k..], [tmp.Data()] + old(g.pieces)[k..], at, old(g.repr) + {tmp})
    {
      hide Flatten, Prefix, Chain.Ok, Chain.Data, Listed, ListedFrom, Segment, Distinct;
      SegmentFrom(k, tmp);
      ghost var cs, ps := g.chains[k..], g.pieces[k..];
      first := tmp;
      tmp.next := chain;
      SegmentCons(tmp, cs, ps);
      g := Layout([tmp] + cs, [tmp.Data()] + ps, at, g.repr + {tmp});
      FromSegment();
    }

    // The list from chain k on, which chain tmp is not in.
    lemma SegmentFrom(k: nat, tmp: Chain)
      requires 0 < k <= |g.chains| && ListedFrom(k) && (tmp !in g.repr || tmp == g.chains[0])
      ensures |g.pieces| == |g.chains| && Segment(g.chains[k..], g.pieces[k..]) && tmp !in g.chains[k..]
      ensures this in g.repr && forall i :: 0 <= i < |g.chains| ==> g.chains[i] in g.repr
    {
      hide Chain.Ok, Chain.Data;
      var cs := g.chains[k..];
      forall i, j | 0 <= i && j == i + 1 < |cs| ensures cs[i].next == cs[j] {
        assert cs[i] == g.chains[k + i] && cs[j] == g.chains[k + j];
      }
    }

    lemma FromSegment()
      requires Segment(g.chains, g.pieces) && first == (if g.chains == [] then null else g.chains[0])
      requires this in g.repr && forall i :: 0 <= i < |g.chains| ==> g.chains[i] in g.repr
      ensures Listed()
    {
      hide Chain.Ok, Chain.Data;
    }

    // *chainp = tmp; tmp->next = chain->next, for the slot of chain k: tmp takes its place.
    method ReplaceAt(ghost k: nat, slot: Chain?, chain: Chain, tmp: Chain)
      requires Listed() && k < |g.chains| && chain == g.chains[k]
      requires slot == if k == 0 then null else g.chains[k - 1]
      requires tmp !in g.repr && tmp.Ok() && tmp.Data() == g.pieces[k]
      modifies this`first, this`g, tmp`next, (if slot == null then {} else {slot})`next
      ensures Listed()
      ensures g == old(g.(chains := g.chains[k := tmp], repr := g.repr + {tmp}))
    {
      hide Flatten, Prefix, Distinct, Chain.Ok, Chain.Data;
      DistinctReplace(g.chains, k, tmp);
      DistinctAt(g.chains, k);
      if slot == null {
        first := tmp;
      } else {
        DistinctAt(g.chains, k - 1);
        slot.next := tmp;
      }
      tmp.next := chain.next;
      g := g.(chains := g.chains[k := tmp], repr := g.repr + {tmp});
    }

    // misalign += n; off -= n, for chain k.
    method ConsumeFrom(ghost k: nat, chain: Chain, n: nat)
      requires Listed() && k < |g.chains| && chain == g.chains[k] && n <= chain.off
      modifies this`g, chain`off, chain`misalign
      ensures Listed() && g == old(g.(pieces := g.pieces[k := g.pieces[k][n..]]))
    {
      hide Flatten, Prefix, Distinct, Chain.Data;
      DistinctAt(g.chains, k);
      chain.Consume(n);
      g := g.(pieces := g.pieces[k := g.pieces[k][n..]]);
    }

    // ZERO_CHAIN
    method ZeroChain()
      requires Shape()
      modifies this`first, this`last, this`lwd, this`totalLen, this`g
      ensures Shape() && g == old(g.(chains := [], pieces := [], at := 0))
      ensures Contents() == []
    {
      first, last, lwd, totalLen := null, null, null, 0;
      g := g.(chains := [], pieces := [], at := 0);
    }

    // Append to the chain in the slot, with the accounting every caller does.
    method GrowSlot(chain: Chain, d: seq<byte>)
      requires Valid() && chain == SlotChain() && |d| <= chain.Space()
      modifies this`totalLen, this`nAdd, this`g, chain`off, chain`mem
      ensures Valid() && g == old(g.(pieces := g.pieces[g.at := g.pieces[g.at] + d]))
      ensures Contents() == old(Contents()) + d
      ensures chain.Space() == old(chain.Space()) - |d| && |chain.mem| == old(|chain.mem|)
    {
      hide Flatten, Prefix, Distinct, Chain.Ok, Chain.Data;
      FlattenGrow(g.pieces, g.at, d);
      AppendTo(g.at, chain, d);
      totalLen := totalLen + |d|;
      nAdd := nAdd + |d|;
    }

    // evbuffer_run_callbacks: what the callbacks are told, if any are called. The length
    // they are told the buffer had is exactly the length when the counters were last cleared.
    method RunCallbacks(runningDeferred: bool) returns (info: Option<CallbackInfo>)
      requires Valid()
      modifies this`nAdd, this`nDel, this`base
      ensures Valid()
      ensures info == if hasCallbacks && old(nAdd + nDel) != 0
                      then Some(CallbackInfo(old(base), old(nAdd), old(nDel))) else None
      ensures if hasCallbacks && deferred && !runningDeferred
              then nAdd == old(nAdd) && nDel == old(nDel) else nAdd == nDel == 0 && base == totalLen
    {
      hide Flatten, Prefix, Distinct, Separate, Linked, Holds, SlotExact, LastExact;
      var clear := runningDeferred || !deferred;
      if !hasCallbacks {
        nAdd, nDel, base := 0, 0, totalLen;
        return None;
      }
      if nAdd == 0 && nDel == 0 {
        return None;
      }
      info := Some(CallbackInfo(totalLen + nDel - nAdd, nAdd, nDel));
      if clear {
        nAdd, nDel, base := 0, 0, totalLen;
      }
    }

    // evbuffer_invoke_callbacks_; scheduling the deferred run is left to the event loop.
    method InvokeCallbacks()
      requires Valid()
      modifies this`nAdd, this`nDel, this`base
      ensures Valid()
    {
      hide Flatten, Prefix, Distinct, Separate, Linked, Holds, SlotExact, LastExact;
      if !hasCallbacks {
        nAdd, nDel, base := 0, 0, totalLen;
        return;
      }
      var _ := RunCallbacks(false);
    }

    // No operation on the bytes touches the switches.
    twostate predicate SameSwitches()
      reads this
    {
      unchanged(this`freezeStart, this`freezeEnd, this`hasCallbacks, this`deferred)
    }
  }
}
