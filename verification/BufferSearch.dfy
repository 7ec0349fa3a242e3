// Positions and searching: evbuffer_ptr_set, evbuffer_ptr_subtract, evbuffer_ptr_memcmp,
// evbuffer_search_range, evbuffer_find, and the scans for single bytes.
module BufferSearch {
  import opened Bytes
  import opened Evbuffer
  import opened Options
  import BufferDrain
  import BufferPullup

  // The pattern occurs at position i.
  predicate MatchAt(s: seq<byte>, what: seq<byte>, i: int) {
    0 <= i && i + |what| <= |s| && s[i..i + |what|] == what
  }

  // None of the bytes lo..hi is a stop byte.
  predicate Lacks(s: seq<byte>, lo: int, hi: int, stops: set<byte>) {
    forall i {:trigger s[i]} :: 0 <= lo <= i < hi <= |s| ==> s[i] !in stops
  }

  // Position i, at or behind `lo`, is the first that holds a stop byte.
  predicate FirstIn(s: seq<byte>, lo: int, i: int, stops: set<byte>) {
    0 <= lo <= i < |s| && s[i] in stops && Lacks(s, lo, i, stops)
  }

  // A pointer the source hands out: at the end of the data no chain is left.
  ghost predicate Canonical(buf: EvBuffer, p: Ptr)
    reads buf`g
  {
    (p.chain == null && p.posInChain == 0 && p.pos == |buf.Contents()|) ||
    exists k: nat :: buf.Points(p, k) && p.posInChain < |buf.g.pieces[k]|
  }

  // The bytes of chain k, within the whole.
  lemma Chunk(buf: EvBuffer, k: nat)
    requires buf.Listed() && k < |buf.g.chains|
    ensures |buf.g.pieces| == |buf.g.chains|
    ensures var c := buf.g.chains[k]; var base := |Prefix(buf.g.pieces, k)|;
            && c.Ok() && c.mem[c.misalign..c.misalign + c.off] == buf.g.pieces[k] && |buf.g.pieces[k]| == c.off
            && base + c.off <= |buf.Contents()|
            && buf.Contents()[base..base + c.off] == buf.g.pieces[k]
            && c.next == (if k + 1 < |buf.g.chains| then buf.g.chains[k + 1] else null)
            && |Prefix(buf.g.pieces, k + 1)| == base + c.off
            && (k + 1 == |buf.g.chains| ==> base + c.off == |buf.Contents()|)
  {
    hide Distinct;
    FlattenSlice(buf.g.pieces, k, 0, |buf.g.pieces[k]|);
    buf.NextFacts(k);
  }

  // Bytes lo..hi of chain k, read from the chain and from the whole.
  lemma ChunkSlice(buf: EvBuffer, k: nat, lo: nat, hi: nat)
    requires buf.Listed() && k < |buf.g.chains| && lo <= hi <= buf.g.chains[k].off
    ensures |buf.g.pieces| == |buf.g.chains|
    ensures var c := buf.g.chains[k]; var base := |Prefix(buf.g.pieces, k)|;
            && c.Ok() && base + hi <= |buf.Contents()|
            && c.mem[c.misalign + lo..c.misalign + hi] == buf.Contents()[base + lo..base + hi]
  {
    hide Flatten, Prefix, Distinct;
    var c := buf.g.chains[k];
    FlattenSlice(buf.g.pieces, k, lo, hi);
    SliceSlice(c.mem, c.misalign, c.misalign + c.off, lo, hi);
  }

  // The pointer denotes its position, in chain k, or the end if there is no chain.
  ghost predicate Cursor(buf: EvBuffer, p: Ptr, k: nat)
    reads buf`g
  {
    if p.chain == null then k == |buf.g.chains| && p.pos == |buf.Contents()| && p.posInChain == 0 else buf.Points(p, k)
  }

  // From chain k to the next one.
  lemma NextCursor(buf: EvBuffer, p: Ptr, k: nat)
    requires buf.Listed() && buf.Points(p, k)
    ensures p.chain != null && p.chain.Ok()
    ensures Cursor(buf, Ptr(p.pos - p.posInChain + p.chain.off, p.chain.next, 0), k + 1)
  {
    hide Flatten, Prefix, EvBuffer.Listed;
    Chunk(buf, k);
  }

  // The walk of evbuffer_ptr_set: `left` bytes on from position p.
  method Walk(buf: EvBuffer, p: Ptr, left: nat, ghost k0: nat) returns (result: int, r: Ptr)
    requires buf.Shape() && Cursor(buf, p, k0)
    ensures result == (if p.pos + left <= |buf.Contents()| then 0 else -1)
    ensures if result == 0 then Canonical(buf, r) && r.pos == p.pos + left else r == NOT_FOUND
  {
    hide Flatten, Prefix, Distinct, Chain.Data, EvBuffer.Listed;
    var chain, position: nat, rest: nat := p.chain, p.posInChain, left;
    ghost var k: nat := k0;
    while chain != null && position + rest >= chain.off
      invariant rest <= left && Cursor(buf, Ptr(p.pos + left - rest, chain, position), k)
      decreases |buf.g.chains| - k
    {
      Chunk(buf, k);
      NextCursor(buf, Ptr(p.pos + left - rest, chain, position), k);
      rest := rest - (chain.off - position);
      chain, position, k := chain.next, 0, k + 1;
    }
    if chain != null {
      Chunk(buf, k);
      r := Ptr(p.pos + left, chain, position + rest);
      assert buf.Points(r, k);
      return 0, r;
    }
    if rest == 0 {
      return 0, Ptr(p.pos + left, null, 0);
    }
    return -1, NOT_FOUND;
  }

  // A pointer to a position of the buffer is a cursor.
  lemma CursorOf(buf: EvBuffer, p: Ptr) returns (k: nat)
    requires buf.Shape() && buf.PtrOk(p)
    ensures Cursor(buf, if p.chain == null then Ptr(p.pos, null, 0) else p, k)
    ensures k <= |buf.g.chains| && |buf.g.pieces| == |buf.g.chains|
  {
    if p.chain == null {
      k := |buf.g.chains|;
    } else {
      k :| buf.Points(p, k);
    }
  }

  lemma StartCursor(buf: EvBuffer)
    requires buf.Shape()
    ensures Cursor(buf, Ptr(0, buf.first, 0), 0)
  {
  }

  datatype How = PtrSet | PtrAdd

  // evbuffer_ptr_set: the new value of the pointer is `r`.
  method SetPtr(buf: EvBuffer, p: Ptr, position: nat, how: How) returns (result: int, r: Ptr)
    requires buf.Shape() && (how.PtrAdd? && p.pos >= 0 ==> buf.PtrOk(p))
    ensures result == 0 || result == -1
    ensures how.PtrSet? ==>
              if position <= |buf.Contents()| then result == 0 && r.pos == position && Canonical(buf, r)
              else result == -1 && r == NOT_FOUND
    ensures how.PtrAdd? ==>
              if p.pos < 0 || p.pos + position > SIZE_MAX then result == -1 && r == p
              else if p.pos + position <= |buf.Contents()| then result == 0 && r.pos == p.pos + position && Canonical(buf, r)
              else result == -1 && r == NOT_FOUND
  {
    hide Flatten, Prefix, Distinct, Chain.Data, EvBuffer.Shape, EvBuffer.PtrOk, Canonical;
    match how {
      case PtrSet =>
        StartCursor(buf);
        result, r := Walk(buf, Ptr(0, buf.first, 0), position, 0);
      case PtrAdd =>
        if p.pos < 0 || SIZE_MAX - position < p.pos {
          return -1, p;
        }
        ghost var k := CursorOf(buf, p);
        result, r := Walk(buf, if p.chain == null then Ptr(p.pos, null, 0) else p, position, k);
    }
  }

  // evbuffer_ptr_subtract
  method Subtract(buf: EvBuffer, p: Ptr, howfar: nat) returns (result: int, r: Ptr)
    requires buf.Shape() && (p.pos >= 0 ==> buf.PtrOk(p))
    ensures result == if howfar <= p.pos then 0 else -1
    ensures if result == 0 then buf.PtrOk(r) && r.pos == p.pos - howfar else r == p
    ensures result == 0 && howfar > 0 ==> Canonical(buf, r)
  {
    hide Flatten, Prefix, Distinct, Chain.Data, EvBuffer.Shape;
    if p.pos < 0 || howfar > p.pos {
      return -1, p;
    }
    if p.chain != null && howfar <= p.posInChain {
      ghost var k: nat :| buf.Points(p, k);
      r := Ptr(p.pos - howfar, p.chain, p.posInChain - howfar);
      assert buf.Points(r, k);
      return 0, r;
    }
    PtrBound(buf, p);
    result, r := SetPtr(buf, p, p.pos - howfar, PtrSet);
    assert buf.PtrOk(r) by { CanonicalOk(buf, r); }
  }

  lemma PtrBound(buf: EvBuffer, p: Ptr)
    requires buf.Shape() && buf.PtrOk(p)
    ensures 0 <= p.pos <= |buf.Contents()|
  {
    BufferDrain.PtrBounds(buf, p);
  }

  lemma CanonicalOk(buf: EvBuffer, p: Ptr)
    requires Canonical(buf, p)
    ensures buf.PtrOk(p)
    ensures p.pos < |buf.Contents()| ==> p.chain != null
  {
  }

  // The pattern does not occur at a position: r is the difference of the first bytes that differ.
  predicate Differ(s: seq<byte>, mem: seq<byte>, at: nat, r: int) {
    exists i {:trigger mem[i]} :: 0 <= i < |mem| && at + i < |s| && s[at..at + i] == mem[..i] && s[at + i] as int - mem[i] as int == r != 0
  }

  // memcmp: zero when the bytes are the same, else the difference of the first ones that differ.
  method MemCmp(a: seq<byte>, b: seq<byte>) returns (r: int)
    requires |a| == |b|
    ensures if r == 0 then a == b else Differ(a, b, 0, r)
  {
    for i := 0 to |a|
      invariant a[..i] == b[..i]
    {
      if a[i] != b[i] {
        assert a[0..0 + i] == b[..i];
        return a[i] as int - b[i] as int;
      }
    }
    assert a[..|a|] == a && b[..|b|] == b;
    return 0;
  }

  // Comparing piece by piece: `done` bytes agree, and n more are compared.
  lemma CompareNext(s: seq<byte>, mem: seq<byte>, at: nat, done: nat, n: nat)
    requires at + |mem| <= |s| && done + n <= |mem| && s[at..at + done] == mem[..done]
    ensures if s[at + done..at + done + n] == mem[done..done + n] then s[at..at + done + n] == mem[..done + n]
            else !MatchAt(s, mem, at)
  {
    SliceJoin(s, at, at + done, at + done + n);
    assert mem[..done + n] == mem[..done] + mem[done..done + n];
    if s[at..at + |mem|] == mem {
      SliceSlice(s, at, at + |mem|, done, done + n);
    }
  }

  lemma DifferNot(a: seq<byte>, b: seq<byte>, r: int)
    requires Differ(a, b, 0, r)
    ensures a != b
  {
  }

  // The first bytes that differ are in the n that are compared.
  lemma DifferNext(s: seq<byte>, mem: seq<byte>, at: nat, done: nat, n: nat, r: int)
    requires at + |mem| <= |s| && done + n <= |mem| && s[at..at + done] == mem[..done]
    requires Differ(s[at + done..at + done + n], mem[done..done + n], 0, r)
    ensures Differ(s, mem, at, r)
  {
    var a, b := s[at + done..at + done + n], mem[done..done + n];
    var i :| 0 <= i < |b| && i < |a| && a[0..i] == b[..i] && a[i] as int - b[i] as int == r != 0;
    assert s[at + (done + i)] == a[i] && mem[done + i] == b[i];
    SliceSlice(s, at + done, at + done + n, 0, i);
    SliceSlice(mem, done, done + n, 0, i);
    AgreeNext(s, mem, at, done, i);
  }

  lemma AgreeNext(s: seq<byte>, mem: seq<byte>, at: nat, done: nat, i: nat)
    requires at + |mem| <= |s| && done + i <= |mem|
    requires s[at..at + done] == mem[..done] && s[at + done..at + done + i] == mem[done..done + i]
    ensures s[at..at + (done + i)] == mem[..done + i]
  {
    SliceJoin(s, at, at + done, at + done + i);
    assert mem[..done + i] == mem[..done] + mem[done..done + i];
  }

  // What memcmp says of the n bytes, said of the whole.
  lemma Compared(s: seq<byte>, mem: seq<byte>, at: nat, done: nat, n: nat, r: int)
    requires at + |mem| <= |s| && done + n <= |mem| && s[at..at + done] == mem[..done]
    requires var a, b := s[at + done..at + done + n], mem[done..done + n]; if r == 0 then a == b else Differ(a, b, 0, r)
    ensures if r == 0 then s[at..at + done + n] == mem[..done + n] else !MatchAt(s, mem, at) && Differ(s, mem, at, r)
  {
    hide Differ, MatchAt;
    CompareNext(s, mem, at, done, n);
    if r != 0 {
      DifferNot(s[at + done..at + done + n], mem[done..done + n], r);
      DifferNext(s, mem, at, done, n, r);
    }
  }

  lemma CompareAll(s: seq<byte>, mem: seq<byte>, at: nat, done: nat)
    requires done == |mem| && at + done <= |s| && s[at..at + done] == mem[..done]
    ensures MatchAt(s, mem, at)
  {
    assert mem[..done] == mem;
  }

  lemma NoRoom(s: seq<byte>, mem: seq<byte>, at: int)
    requires at < 0 || at + |mem| > |s|
    ensures !MatchAt(s, mem, at)
  {
  }

  // One round of evbuffer_ptr_memcmp: n bytes at cursor p, in chain k, after `done` that agree.
  method CompareChunk(buf: EvBuffer, p: Ptr, mem: seq<byte>, done: nat, n: nat, ghost k: nat) returns (r: int)
    requires buf.Shape() && buf.Points(p, k) && p.chain != null && p.posInChain + n <= p.chain.off
    requires done + n <= |mem| && 0 <= p.pos - done && p.pos - done + |mem| <= |buf.Contents()|
    requires buf.Contents()[p.pos - done..p.pos] == mem[..done]
    ensures if r == 0 then p.pos + n <= |buf.Contents()| && buf.Contents()[p.pos - done..p.pos + n] == mem[..done + n]
            else !MatchAt(buf.Contents(), mem, p.pos - done) && Differ(buf.Contents(), mem, p.pos - done, r)
  {
    hide Flatten, Prefix, Distinct, Chain.Data, EvBuffer.Listed, EvBuffer.SlotExact, EvBuffer.LastExact, MatchAt, Differ;
    var chain := p.chain;
    ChunkSlice(buf, k, p.posInChain, p.posInChain + n);
    r := MemCmp(chain.mem[chain.misalign + p.posInChain..chain.misalign + p.posInChain + n], mem[done..done + n]);
    Compared(buf.Contents(), mem, p.pos - done, done, n, r);
  }

  // evbuffer_ptr_memcmp
  method PtrMemCmp(buf: EvBuffer, p: Ptr, mem: seq<byte>) returns (r: int)
    requires buf.Shape() && (p.pos >= 0 ==> buf.PtrOk(p)) && buf.totalLen <= SIZE_MAX
    ensures r == 0 <==> MatchAt(buf.Contents(), mem, p.pos)
    ensures r != 0 ==> if 0 <= p.pos && p.pos + |mem| <= buf.totalLen && p.pos + |mem| <= SIZE_MAX then Differ(buf.Contents(), mem, p.pos, r) else r == -1
  {
    hide Flatten, Prefix, Distinct, Chain.Data, EvBuffer.Listed, EvBuffer.SlotExact, EvBuffer.LastExact, EvBuffer.PtrOk, MatchAt, Differ;
    if p.pos < 0 || SIZE_MAX - |mem| < p.pos || p.pos + |mem| > buf.totalLen {
      NoRoom(buf.Contents(), mem, p.pos);
      return -1;
    }
    ghost var k: nat := CursorOf(buf, p);
    ghost var s := buf.Contents();
    var chain, position: nat, done: nat := p.chain, p.posInChain, 0;
    while done < |mem| && chain != null
      invariant done <= |mem| && s[p.pos..p.pos + done] == mem[..done]
      invariant done < |mem| ==> Cursor(buf, Ptr(p.pos + done, chain, if chain == null then 0 else position), k)
      decreases |mem| - done, |buf.g.chains| - k
    {
      Chunk(buf, k);
      var len := |mem| - done;
      var n := if len + position > chain.off then chain.off - position else len;
      r := CompareChunk(buf, Ptr(p.pos + done, chain, position), mem, done, n, k);
      if r != 0 {
        return;
      }
      NextCursor(buf, Ptr(p.pos + done, chain, position), k);
      done, position, chain, k := done + n, 0, chain.next, k + 1;
    }
    CompareAll(s, mem, p.pos, done);
    return 0;
  }

  // memchr: the first place of a byte.
  method MemChr(s: seq<byte>, c: byte) returns (r: int)
    ensures if r < 0 then r == -1 && Lacks(s, 0, |s|, {c}) else FirstIn(s, 0, r, {c})
  {
    for i := 0 to |s|
      invariant Lacks(s, 0, i, {c})
    {
      if s[i] == c {
        return i;
      }
    }
    return -1;
  }

  // The pattern occurs nowhere from lo up to, but not at, hi.
  predicate NoMatch(s: seq<byte>, what: seq<byte>, lo: int, hi: int) {
    forall i :: lo <= i < hi ==> !MatchAt(s, what, i)
  }

  lemma NoHead(s: seq<byte>, what: seq<byte>, i: nat)
    requires what != [] && i < |s| && s[i] != what[0]
    ensures !MatchAt(s, what, i)
  {
    if i + |what| <= |s| {
      assert s[i..i + |what|][0] == s[i];
    }
  }

  // A stretch of the string without the first byte of the pattern has no match in it.
  lemma NoFirstNoMatch(s: seq<byte>, what: seq<byte>, lo: nat, d: seq<byte>, hi: nat)
    requires what != [] && lo <= hi <= |s| && d == s[lo..hi] && Lacks(d, 0, |d|, {what[0]})
    ensures NoMatch(s, what, lo, hi)
  {
    forall i | lo <= i < hi ensures !MatchAt(s, what, i) {
      assert d[i - lo] != what[0];
      NoHead(s, what, i);
    }
  }

  // What evbuffer_search_range finds: the first match, if it ends by `limit`.
  predicate Found(s: seq<byte>, what: seq<byte>, lo: int, limit: int, i: int) {
    MatchAt(s, what, i) && lo <= i && i + |what| <= limit && NoMatch(s, what, lo, i)
  }

  // No match ends by `limit`.
  predicate Missing(s: seq<byte>, what: seq<byte>, lo: int, limit: int) {
    forall i :: lo <= i && i + |what| <= limit ==> !MatchAt(s, what, i)
  }

  // Where a search from `start` begins, and where a match has to end.
  function StartOf(start: Option<Ptr>): int {
    if start.Some? then start.value.pos else 0
  }

  ghost function LimitOf(buf: EvBuffer, end: Option<Ptr>): int
    reads buf`g
  {
    if end.Some? then end.value.pos else |buf.Contents()|
  }

  // A pointer of the source's, or the one it hands out for "not found".
  ghost predicate MaybePtr(buf: EvBuffer, p: Option<Ptr>)
    reads buf`g
  {
    p.Some? ==> buf.PtrOk(p.value) || p.value == NOT_FOUND
  }

  // One chain of the search: the bytes from the cursor to the end of the chain.
  method SeekFirst(buf: EvBuffer, pos: Ptr, what: seq<byte>, ghost k: nat) returns (skip: int)
    requires buf.Shape() && buf.Points(pos, k) && what != []
    ensures pos.chain != null && pos.chain.off == |buf.g.pieces[k]|
    ensures if skip < 0 then NoMatch(buf.Contents(), what, pos.pos, pos.pos + (pos.chain.off - pos.posInChain))
            else pos.posInChain + skip < pos.chain.off && NoMatch(buf.Contents(), what, pos.pos, pos.pos + skip)
  {
    hide Flatten, Prefix, Distinct, Chain.Data, EvBuffer.Listed, MatchAt, NoMatch;
    Chunk(buf, k);
    var chain := pos.chain;
    ChunkSlice(buf, k, pos.posInChain, chain.off);
    var d := chain.mem[chain.misalign + pos.posInChain..chain.misalign + chain.off];
    skip := MemChr(d, what[0]);
    if skip < 0 {
      NoFirstNoMatch(buf.Contents(), what, pos.pos, d, pos.pos + |d|);
    } else {
      SliceSlice(buf.Contents(), pos.pos, pos.pos + |d|, 0, skip);
      NoFirstNoMatch(buf.Contents(), what, pos.pos, d[..skip], pos.pos + skip);
    }
  }

  // What the search knows at the cursor: no match begins before it.
  ghost predicate Searching(buf: EvBuffer, what: seq<byte>, lo: int, pos: Ptr, k: nat)
    reads buf`g
  {
    lo <= pos.pos && Cursor(buf, pos, k) && NoMatch(buf.Contents(), what, lo, pos.pos)
  }

  // The next cursor of the search, n bytes on in the same chain, or behind it.
  lemma SearchNext(buf: EvBuffer, what: seq<byte>, lo: int, pos: Ptr, k: nat, n: nat)
    requires buf.Shape() && Searching(buf, what, lo, pos, k) && pos.chain != null
    requires pos.chain.Ok() && pos.posInChain + n <= pos.chain.off && NoMatch(buf.Contents(), what, pos.pos, pos.pos + n)
    ensures Searching(buf, what, lo, Ptr(pos.pos + n, pos.chain, pos.posInChain + n), k)
    ensures pos.posInChain + n == pos.chain.off ==> Searching(buf, what, lo, Ptr(pos.pos + n, pos.chain.next, 0), k + 1)
  {
    hide Flatten, Prefix, Distinct, Chain.Data, EvBuffer.Listed, MatchAt;
    Chunk(buf, k);
    NextCursor(buf, pos, k);
  }

  // When the chain of the end pointer holds no further candidate, there is no match before the end.
  lemma EndReached(buf: EvBuffer, what: seq<byte>, lo: int, pos: Ptr, k: nat, end: Ptr)
    requires buf.Shape() && Searching(buf, what, lo, pos, k) && pos.chain != null && what != []
    requires pos.chain.Ok() && pos.posInChain <= pos.chain.off && NoMatch(buf.Contents(), what, pos.pos, pos.pos + (pos.chain.off - pos.posInChain))
    requires end.chain == pos.chain && buf.PtrOk(end)
    ensures Missing(buf.Contents(), what, lo, end.pos)
  {
    hide Flatten, Prefix, Chain.Data, MatchAt;
    Chunk(buf, k);
    var ke: nat :| buf.Points(end, ke);
    assert ke == k;
  }

  // A match that ends too late is the first one, so none ends in time.
  lemma TooLate(s: seq<byte>, what: seq<byte>, lo: int, i: int, limit: int)
    requires NoMatch(s, what, lo, i) && i + |what| > limit
    ensures Missing(s, what, lo, limit)
  {
    hide MatchAt;
  }

  lemma MatchEnds(s: seq<byte>, what: seq<byte>, i: int)
    requires MatchAt(s, what, i)
    ensures 0 <= i && i + |what| <= |s|
  {
  }

  lemma NoMatchHere(s: seq<byte>, what: seq<byte>, i: int)
    requires !MatchAt(s, what, i)
    ensures NoMatch(s, what, i, i + 1)
  {
  }

  // One round of the loop of evbuffer_search_range. Done: with a match at the new cursor, or
  // with none at all.
  method SearchStep(buf: EvBuffer, what: seq<byte>, pos: Ptr, end: Option<Ptr>, ghost lo: int, ghost k: nat)
    returns (done: bool, r: Ptr, ghost k': nat)
    requires buf.Shape() && buf.totalLen <= SIZE_MAX && what != [] && MaybePtr(buf, end)
    requires Searching(buf, what, lo, pos, k) && pos.chain != null
    ensures done ==> if r == NOT_FOUND then Missing(buf.Contents(), what, lo, LimitOf(buf, end))
                     else buf.Points(r, k') && Found(buf.Contents(), what, lo, LimitOf(buf, end), r.pos)
    ensures !done ==> Searching(buf, what, lo, r, k') && (k' > k || (k' == k && r.pos > pos.pos))
  {
    hide Flatten, Prefix, Distinct, Chain.Data, EvBuffer.Listed, MatchAt, NoMatch, Missing;
    var chain := pos.chain;
    var skip := SeekFirst(buf, pos, what, k);
    Chunk(buf, k);
    if skip < 0 {
      if end.Some? && chain == end.value.chain {
        EndReached(buf, what, lo, pos, k, end.value);
        return true, NOT_FOUND, k;
      }
      SearchNext(buf, what, lo, pos, k, chain.off - pos.posInChain);
      return false, Ptr(pos.pos + (chain.off - pos.posInChain), chain.next, 0), k + 1;
    }
    SearchNext(buf, what, lo, pos, k, skip);
    var at := Ptr(pos.pos + skip, chain, pos.posInChain + skip);
    var c := PtrMemCmp(buf, at, what);
    if c == 0 {
      if end.Some? && at.pos + |what| > end.value.pos {
        TooLate(buf.Contents(), what, lo, at.pos, end.value.pos);
        return true, NOT_FOUND, k;
      }
      MatchEnds(buf.Contents(), what, at.pos);
      return true, at, k;
    }
    NoMatchHere(buf.Contents(), what, at.pos);
    SearchNext(buf, what, lo, at, k, 1);
    if at.posInChain + 1 == chain.off {
      return false, Ptr(at.pos + 1, chain.next, 0), k + 1;
    }
    return false, Ptr(at.pos + 1, chain, at.posInChain + 1), k;
  }

  // evbuffer_search_range. A pattern that is empty, or longer than the largest signed size, is
  // taken to be at the start pointer.
  method SearchRange(buf: EvBuffer, what: seq<byte>, start: Option<Ptr>, end: Option<Ptr>) returns (r: Ptr)
    requires buf.Shape() && buf.totalLen <= SIZE_MAX && MaybePtr(buf, start) && MaybePtr(buf, end)
    ensures what == [] || |what| > BufferDrain.SSIZE_MAX ==>
              r == if start.Some? then start.value else Ptr(0, buf.first, 0)
    ensures what != [] && |what| <= BufferDrain.SSIZE_MAX && StartOf(start) >= 0 ==>
              if r == NOT_FOUND then Missing(buf.Contents(), what, StartOf(start), LimitOf(buf, end))
              else buf.PtrOk(r) && r.chain != null && Found(buf.Contents(), what, StartOf(start), LimitOf(buf, end), r.pos)
    ensures what != [] && |what| <= BufferDrain.SSIZE_MAX && StartOf(start) < 0 ==> r == NOT_FOUND
  {
    hide Flatten, Prefix, Distinct, Chain.Data, EvBuffer.Listed, MatchAt, NoMatch, Missing, Found;
    var pos := if start.Some? then start.value else Ptr(0, buf.first, 0);
    if what == [] || |what| > BufferDrain.SSIZE_MAX {
      return pos;
    }
    if pos.chain == null {
      NothingThere(buf, what, pos, LimitOf(buf, end));
      return NOT_FOUND;
    }
    StartCursor(buf);
    ghost var lo := pos.pos;
    ghost var k: nat := CursorOf(buf, pos);
    assert Searching(buf, what, lo, pos, k) by { NothingYet(buf, what, pos, k); }
    while pos.chain != null
      invariant Searching(buf, what, lo, pos, k)
      decreases |buf.g.chains| - k, |buf.Contents()| - pos.pos
    {
      CursorBound(buf, pos, k);
      var done;
      done, pos, k := SearchStep(buf, what, pos, end, lo, k);
      if done {
        return pos;
      }
      CursorBound(buf, pos, k);
    }
    NothingLeft(buf, what, lo, pos, k, LimitOf(buf, end));
    return NOT_FOUND;
  }

  lemma CursorBound(buf: EvBuffer, p: Ptr, k: nat)
    requires buf.Shape() && Cursor(buf, p, k)
    ensures k <= |buf.g.chains| && 0 <= p.pos <= |buf.Contents()|
    ensures p.chain != null ==> k < |buf.g.chains|
  {
    hide Flatten, Prefix, Chain.Data;
    if p.chain != null {
      FlattenSlice(buf.g.pieces, k, 0, p.posInChain);
    }
  }

  lemma NothingYet(buf: EvBuffer, what: seq<byte>, pos: Ptr, k: nat)
    requires Cursor(buf, pos, k)
    ensures Searching(buf, what, pos.pos, pos, k)
  {
  }

  // At the end of the data there is no match of a pattern that is not empty.
  lemma NothingThere(buf: EvBuffer, what: seq<byte>, pos: Ptr, limit: int)
    requires buf.Shape() && what != [] && pos.chain == null && (buf.PtrOk(pos) || pos == NOT_FOUND || pos == Ptr(0, buf.first, 0))
    ensures pos.pos >= 0 ==> Missing(buf.Contents(), what, pos.pos, limit)
  {
  }

  lemma NothingLeft(buf: EvBuffer, what: seq<byte>, lo: int, pos: Ptr, k: nat, limit: int)
    requires buf.Shape() && what != [] && Searching(buf, what, lo, pos, k) && pos.chain == null
    ensures Missing(buf.Contents(), what, lo, limit)
  {
  }

  // (ev_ssize_t)n
  function Signed(n: nat): (i: int)
    ensures (n - i) % 0x1_0000_0000_0000_0000 == 0 && (n <= SIZE_MAX ==> -0x8000_0000_0000_0000 <= i < 0x8000_0000_0000_0000)
  {
    if n > BufferDrain.SSIZE_MAX then n - SIZE_MAX - 1 else n
  }

  // evbuffer_find: make the first match contiguous; the result is its offset in the first chain.
  method Find(buf: EvBuffer, what: seq<byte>) returns (r: Option<nat>)
    requires buf.Valid() && buf.totalLen <= BufferDrain.SSIZE_MAX && |what| <= SIZE_MAX
    modifies buf, buf.g.chains
    ensures buf.Valid() && buf.SameSwitches() && buf.Contents() == old(buf.Contents())
    ensures fresh(buf.g.repr - old(buf.g.repr))
    ensures r.Some? && |what| <= BufferDrain.SSIZE_MAX ==>
              && what != [] && Found(buf.Contents(), what, 0, |buf.Contents()|, r.value)
              && buf.first != null && buf.first.Ok() && MatchAt(buf.first.Data(), what, r.value)
    ensures r.None? ==> what == [] || Missing(buf.Contents(), what, 0, |buf.Contents()|) || buf.totalLen > MAX_PAYLOAD
  {
    hide Flatten, Prefix, Distinct, Chain.Data, EvBuffer.Listed, EvBuffer.SlotExact, EvBuffer.LastExact, Missing, NoMatch;
    var p := SearchRange(buf, what, None, None);
    if |what| > BufferDrain.SSIZE_MAX {
      NothingFits(buf.Contents(), what);
    }
    if p.pos < 0 {
      return None;
    }
    var chain := BufferPullup.Pullup(buf, Signed(p.pos + |what|));
    if chain == null {
      return None;
    }
    if |what| <= BufferDrain.SSIZE_MAX {
      SliceSlice(buf.Contents(), 0, chain.off, p.pos, p.pos + |what|);
    }
    return Some(p.pos);
  }

  lemma NothingFits(s: seq<byte>, what: seq<byte>)
    requires |what| > |s|
    ensures Missing(s, what, 0, |s|)
  {
  }
}
