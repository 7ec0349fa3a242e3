// Finding and reading lines: evbuffer_strchr, evbuffer_find_eol_char, evbuffer_strspn,
// evbuffer_search_eol, evbuffer_readln.
module BufferLines {
  import opened Bytes
  import opened Evbuffer
  import opened BufferSearch
  import opened Options
  import BufferDrain

  const NUL: byte := 0
  const LF: byte := 10
  const CR: byte := 13
  const CRLF: seq<byte> := [13, 10]

  // enum evbuffer_eol_style
  datatype EolStyle = EolAny | EolCrlf | EolCrlfStrict | EolLf | EolNul

  // What a scan for a stop byte knows at its cursor.
  ghost predicate Scanning(buf: EvBuffer, lo: int, pos: Ptr, k: nat, stops: set<byte>)
    reads buf`g
  {
    0 <= lo <= pos.pos <= |buf.Contents()| && Cursor(buf, pos, k) && Lacks(buf.Contents(), lo, pos.pos, stops)
  }

  // The rest of the chain at the cursor, as the scans look at it.
  lemma ScanChunk(buf: EvBuffer, lo: int, pos: Ptr, k: nat, stops: set<byte>, d: seq<byte>)
    requires buf.Shape() && Scanning(buf, lo, pos, k, stops) && pos.chain != null && pos.chain.Ok()
    requires pos.posInChain <= pos.chain.off
    requires d == pos.chain.mem[pos.chain.misalign + pos.posInChain..pos.chain.misalign + pos.chain.off]
    ensures Lacks(d, 0, |d|, stops) ==> Scanning(buf, lo, Ptr(pos.pos + |d|, pos.chain.next, 0), k + 1, stops)
    ensures forall i :: FirstIn(d, 0, i, stops) ==>
              && FirstIn(buf.Contents(), lo, pos.pos + i, stops)
              && buf.Points(Ptr(pos.pos + i, pos.chain, pos.posInChain + i), k)
  {
    hide Flatten, Prefix, Distinct, Chain.Data, EvBuffer.Listed;
    Chunk(buf, k);
    ChunkSlice(buf, k, pos.posInChain, pos.chain.off);
    NextCursor(buf, pos, k);
    ghost var s := buf.Contents();
    assert d == s[pos.pos..pos.pos + |d|];
    assert forall i {:trigger s[i]} :: pos.pos <= i < pos.pos + |d| ==> s[i] == d[i - pos.pos];
    forall i | FirstIn(d, 0, i, stops) ensures FirstIn(s, lo, pos.pos + i, stops) {
      assert s[pos.pos + i] == d[i];
    }
  }

  // evbuffer_strchr
  method StrChr(buf: EvBuffer, it: Ptr, chr: byte) returns (r: int, p: Ptr)
    requires buf.Shape() && buf.PtrOk(it)
    ensures if r < 0 then r == -1 && Lacks(buf.Contents(), it.pos, |buf.Contents()|, {chr})
            else r == p.pos && FirstIn(buf.Contents(), it.pos, r, {chr}) && buf.PtrOk(p) && p.chain != null
  {
    hide Flatten, Prefix, Distinct, Chain.Data, EvBuffer.Listed, Lacks, FirstIn;
    ghost var k: nat := CursorOf(buf, it);
    CursorBound(buf, if it.chain == null then Ptr(it.pos, null, 0) else it, k);
    LacksNone(buf.Contents(), it.pos, {chr});
    var chain, i: nat := it.chain, if it.chain == null then 0 else it.posInChain;
    p := it;
    while chain != null
      invariant Scanning(buf, it.pos, Ptr(p.pos, chain, i), k, {chr})
      invariant p.chain == it.chain && p.posInChain == it.posInChain
      decreases |buf.g.chains| - k
    {
      Chunk(buf, k);
      var d := chain.mem[chain.misalign + i..chain.misalign + chain.off];
      ScanChunk(buf, it.pos, Ptr(p.pos, chain, i), k, {chr}, d);
      var cp := MemChr(d, chr);
      if cp >= 0 {
        p := Ptr(p.pos + cp, chain, i + cp);
        return p.pos, p;
      }
      p := p.(pos := p.pos + (chain.off - i));
      chain, i, k := chain.next, 0, k + 1;
    }
    return -1, p;
  }

  lemma LacksNone(s: seq<byte>, i: int, stops: set<byte>)
    ensures Lacks(s, i, i, stops)
  {
  }

  const CHUNK_SZ: nat := 128

  // find_eol_char: the first CR or LF, looked for in chunks of 128 bytes.
  method FindEolChar(s: seq<byte>) returns (r: int)
    ensures if r < 0 then r == -1 && Lacks(s, 0, |s|, {CR, LF}) else FirstIn(s, 0, r, {CR, LF})
  {
    var i: nat := 0;
    while i < |s|
      invariant Lacks(s, 0, if i < |s| then i else |s|, {CR, LF})
    {
      var chunk := if i + CHUNK_SZ < |s| then CHUNK_SZ else |s| - i;
      var d := s[i..i + chunk];
      var cr := MemChr(d, CR);
      var lf := MemChr(d, LF);
      assert forall j {:trigger s[j]} :: i <= j < i + chunk ==> s[j] == d[j - i];
      if cr >= 0 {
        if lf >= 0 && lf < cr {
          return i + lf;
        }
        return i + cr;
      } else if lf >= 0 {
        return i + lf;
      }
      i := i + CHUNK_SZ;
    }
    return -1;
  }

  // evbuffer_find_eol_char
  method FindEol(buf: EvBuffer, it: Ptr) returns (r: int, p: Ptr)
    requires buf.Shape() && buf.PtrOk(it)
    ensures if r < 0 then r == -1 && Lacks(buf.Contents(), it.pos, |buf.Contents()|, {CR, LF})
            else r == p.pos && FirstIn(buf.Contents(), it.pos, r, {CR, LF}) && buf.PtrOk(p) && p.chain != null
  {
    hide Flatten, Prefix, Distinct, Chain.Data, EvBuffer.Listed, Lacks, FirstIn;
    ghost var k: nat := CursorOf(buf, it);
    CursorBound(buf, if it.chain == null then Ptr(it.pos, null, 0) else it, k);
    LacksNone(buf.Contents(), it.pos, {CR, LF});
    var chain, i: nat := it.chain, if it.chain == null then 0 else it.posInChain;
    p := it;
    while chain != null
      invariant Scanning(buf, it.pos, Ptr(p.pos, chain, i), k, {CR, LF})
      decreases |buf.g.chains| - k
    {
      Chunk(buf, k);
      var d := chain.mem[chain.misalign + i..chain.misalign + chain.off];
      ScanChunk(buf, it.pos, Ptr(p.pos, chain, i), k, {CR, LF}, d);
      var cp := FindEolChar(d);
      if cp >= 0 {
        p := Ptr(p.pos + cp, chain, i + cp);
        return p.pos, p;
      }
      p := p.(pos := p.pos + (chain.off - i));
      chain, i, k := chain.next, 0, k + 1;
    }
    return -1, p;
  }

  // n bytes from `lo` on are in the set, and the next one, if there is one, is not.
  predicate Span(s: seq<byte>, lo: int, n: int, chars: set<byte>) {
    && 0 <= lo <= lo + n <= |s|
    && (forall i {:trigger s[i]} :: lo <= i < lo + n ==> s[i] in chars)
    && (lo + n < |s| ==> s[lo + n] !in chars)
  }

  // The inner loop of evbuffer_strspn.
  method SpanChunk(d: seq<byte>, chars: set<byte>) returns (n: nat)
    ensures Span(d, 0, n, chars)
  {
    n := 0;
    while n < |d| && d[n] in chars
      invariant n <= |d| && forall i :: 0 <= i < n ==> d[i] in chars
    {
      n := n + 1;
    }
  }

  // All bytes from lo to the cursor are in the set.
  ghost predicate Spanning(buf: EvBuffer, lo: int, pos: Ptr, k: nat, chars: set<byte>)
    reads buf`g
  {
    && 0 <= lo <= pos.pos <= |buf.Contents()| && buf.Points(pos, k)
    && forall i {:trigger buf.Contents()[i]} :: lo <= i < pos.pos ==> buf.Contents()[i] in chars
  }

  lemma SpanNext(buf: EvBuffer, lo: int, pos: Ptr, k: nat, chars: set<byte>, d: seq<byte>, n: nat)
    requires buf.Shape() && Spanning(buf, lo, pos, k, chars) && pos.chain != null && pos.chain.Ok()
    requires pos.posInChain <= pos.chain.off && Span(d, 0, n, chars)
    requires d == pos.chain.mem[pos.chain.misalign + pos.posInChain..pos.chain.misalign + pos.chain.off]
    ensures pos.pos + n <= |buf.Contents()| && (n < |d| ==> Span(buf.Contents(), lo, pos.pos + n - lo, chars))
    ensures n == |d| && pos.chain.next == null ==> Span(buf.Contents(), lo, pos.pos + n - lo, chars)
    ensures n == |d| && pos.chain.next != null ==> Spanning(buf, lo, Ptr(pos.pos + n, pos.chain.next, 0), k + 1, chars)
  {
    hide Flatten, Prefix, Distinct, Chain.Data, EvBuffer.Listed;
    Chunk(buf, k);
    ChunkSlice(buf, k, pos.posInChain, pos.chain.off);
    NextCursor(buf, pos, k);
    ghost var s := buf.Contents();
    assert d == s[pos.pos..pos.pos + |d|];
    assert forall i {:trigger s[i]} :: pos.pos <= i < pos.pos + |d| ==> s[i] == d[i - pos.pos];
  }

  // evbuffer_strspn. When the data is exhausted, the pointer that is left is to the start of the
  // last chain, whatever its position says.
  method StrSpn(buf: EvBuffer, ptr: Ptr, chars: set<byte>) returns (count: nat, p: Ptr)
    requires buf.Shape() && buf.PtrOk(ptr)
    ensures p.pos == ptr.pos + count && Span(buf.Contents(), ptr.pos, count, chars)
    ensures p.pos < |buf.Contents()| ==> buf.PtrOk(p)
  {
    hide Flatten, Prefix, Distinct, Chain.Data, EvBuffer.Listed;
    if ptr.chain == null {
      return 0, ptr;
    }
    ghost var k: nat := CursorOf(buf, ptr);
    CursorBound(buf, ptr, k);
    var chain, i: nat := ptr.chain, ptr.posInChain;
    count := 0;
    while true
      invariant Spanning(buf, ptr.pos, Ptr(ptr.pos + count, chain, i), k, chars)
      decreases |buf.g.chains| - k
    {
      Chunk(buf, k);
      var d := chain.mem[chain.misalign + i..chain.misalign + chain.off];
      var n := SpanChunk(d, chars);
      SpanNext(buf, ptr.pos, Ptr(ptr.pos + count, chain, i), k, chars, d, n);
      count := count + n;
      if n < |d| {
        p := Ptr(ptr.pos + count, chain, i + n);
        assert buf.Points(p, k);
        return;
      }
      if chain.next == null {
        return count, Ptr(ptr.pos + count, chain, 0);
      }
      chain, i, k := chain.next, 0, k + 1;
    }
  }

  // The first end of line from `lo` on, in the given style: n bytes at position i.
  ghost predicate EolAt(s: seq<byte>, lo: int, style: EolStyle, i: int, n: nat) {
    match style
    case EolAny => n > 0 && FirstIn(s, lo, i, {CR, LF}) && Span(s, i, n, {CR, LF})
    case EolCrlfStrict => n == 2 && Found(s, CRLF, lo, |s|, i)
    case EolCrlf =>
      if n == 2 then 0 <= lo <= i < |s| && s[i] == CR && FirstIn(s, lo, i + 1, {LF})
      else n == 1 && FirstIn(s, lo, i, {LF}) && (lo < i ==> s[i - 1] != CR)
    case EolLf => n == 1 && FirstIn(s, lo, i, {LF})
    case EolNul => n == 1 && FirstIn(s, lo, i, {NUL})
  }

  ghost predicate NoEol(s: seq<byte>, lo: int, style: EolStyle) {
    match style
    case EolAny => Lacks(s, lo, |s|, {CR, LF})
    case EolCrlfStrict => Missing(s, CRLF, lo, |s|)
    case EolCrlf => Lacks(s, lo, |s|, {LF})
    case EolLf => Lacks(s, lo, |s|, {LF})
    case EolNul => Lacks(s, lo, |s|, {NUL})
  }

  // What evbuffer_search_eol returns.
  ghost predicate EolResult(buf: EvBuffer, lo: int, style: EolStyle, p: Ptr, n: nat)
    reads buf`g
  {
    if p == NOT_FOUND then n == 0 && NoEol(buf.Contents(), lo, style)
    else buf.PtrOk(p) && EolAt(buf.Contents(), lo, style, p.pos, n)
  }

  // evbuffer_getchr, at a pointer the source hands out.
  method GetChr(buf: EvBuffer, p: Ptr) returns (r: int)
    requires buf.Shape() && Canonical(buf, p)
    ensures r == if 0 <= p.pos < |buf.Contents()| then buf.Contents()[p.pos] as int else -1
  {
    hide Flatten, Prefix, Distinct, Chain.Data, EvBuffer.Listed;
    if p.chain == null {
      return -1;
    }
    ghost var k: nat :| buf.Points(p, k) && p.posInChain < |buf.g.pieces[k]|;
    Chunk(buf, k);
    ChunkSlice(buf, k, p.posInChain, p.posInChain + 1);
    assert p.chain.mem[p.chain.misalign + p.posInChain..p.chain.misalign + (p.posInChain + 1)][0]
        == buf.Contents()[p.pos..p.pos + 1][0];
    r := p.chain.mem[p.chain.misalign + p.posInChain] as int;
  }

  // EVBUFFER_EOL_ANY
  method SearchAny(buf: EvBuffer, it: Ptr) returns (p: Ptr, n: nat)
    requires buf.Shape() && buf.PtrOk(it)
    ensures EolResult(buf, it.pos, EolAny, p, n)
  {
    hide Flatten, Prefix, Distinct, EvBuffer.Shape, EvBuffer.PtrOk;
    var r;
    r, p := FindEol(buf, it);
    if r < 0 {
      return NOT_FOUND, 0;
    }
    var it2;
    n, it2 := StrSpn(buf, p, {CR, LF});
  }

  // EVBUFFER_EOL_CRLF: an LF, and the CR before it, if that is not before the start.
  method SearchCrlf(buf: EvBuffer, it: Ptr) returns (p: Ptr, n: nat)
    requires buf.Shape() && buf.PtrOk(it)
    ensures EolResult(buf, it.pos, EolCrlf, p, n)
  {
    hide Flatten, Prefix, Distinct, EvBuffer.Shape, EvBuffer.PtrOk;
    var r;
    r, p := StrChr(buf, it, LF);
    if r < 0 {
      return NOT_FOUND, 0;
    }
    if p.pos == it.pos {
      return p, 1;
    }
    var c, it2 := Subtract(buf, p, 1);
    assert c == 0;
    var chr := GetChr(buf, it2);
    if chr == CR as int {
      return it2, 2;
    }
    return p, 1;
  }

  // A single stop byte.
  method SearchByte(buf: EvBuffer, it: Ptr, chr: byte, ghost style: EolStyle) returns (p: Ptr, n: nat)
    requires buf.Shape() && buf.PtrOk(it) && ((style == EolLf && chr == LF) || (style == EolNul && chr == NUL))
    ensures EolResult(buf, it.pos, style, p, n)
  {
    hide Flatten, Prefix, Distinct, EvBuffer.Shape, EvBuffer.PtrOk;
    var r;
    r, p := StrChr(buf, it, chr);
    if r < 0 {
      return NOT_FOUND, 0;
    }
    return p, 1;
  }

  // evbuffer_search_eol
  method SearchEol(buf: EvBuffer, start: Option<Ptr>, style: EolStyle) returns (p: Ptr, n: nat)
    requires buf.Shape() && buf.totalLen <= SIZE_MAX && (start.Some? ==> buf.PtrOk(start.value))
    ensures EolResult(buf, StartOf(start), style, p, n)
  {
    hide Flatten, Prefix, Distinct, EvBuffer.Shape, EvBuffer.PtrOk, EolResult;
    if start.Some? && start.value.chain == null {
      NoEolLeft(buf, start.value, style);
      return NOT_FOUND, 0;
    }
    BufferDrain.StartPtr(buf);
    var it := if start.Some? then start.value else Ptr(0, buf.first, 0);
    match style {
      case EolAny => p, n := SearchAny(buf, it);
      case EolCrlfStrict => p, n := SearchCrlfStrict(buf, it);
      case EolCrlf => p, n := SearchCrlf(buf, it);
      case EolLf => p, n := SearchByte(buf, it, LF, style);
      case EolNul => p, n := SearchByte(buf, it, NUL, style);
    }
  }

  // EVBUFFER_EOL_CRLF_STRICT
  method SearchCrlfStrict(buf: EvBuffer, it: Ptr) returns (p: Ptr, n: nat)
    requires buf.Shape() && buf.PtrOk(it) && buf.totalLen <= SIZE_MAX
    ensures EolResult(buf, it.pos, EolCrlfStrict, p, n)
  {
    hide Flatten, Prefix, Distinct, EvBuffer.Shape, EvBuffer.PtrOk, Missing;
    PtrBound(buf, it);
    p := SearchRange(buf, CRLF, Some(it), None);
    n := if p.pos < 0 then 0 else 2;
  }

  lemma NoEolLeft(buf: EvBuffer, p: Ptr, style: EolStyle)
    requires buf.Shape() && buf.PtrOk(p) && p.chain == null
    ensures EolResult(buf, p.pos, style, NOT_FOUND, 0)
  {
  }

  // evbuffer_readln; without an end of line, or when reading is frozen, there is no line.
  method ReadLn(buf: EvBuffer, style: EolStyle) returns (line: Option<seq<byte>>, nRead: nat)
    requires buf.Valid() && buf.totalLen <= SIZE_MAX
    modifies buf.g.repr
    ensures buf.Valid() && buf.SameSwitches() && buf.g.repr == old(buf.g.repr)
    ensures line.None? <==> buf.freezeStart || NoEol(old(buf.Contents()), 0, style)
    ensures line.None? ==> nRead == 0 && buf.Contents() == old(buf.Contents())
    ensures line.Some? ==> nRead == |line.value| && exists n :: Split(old(buf.Contents()), style, line.value, n, buf.Contents())
  {
    hide Flatten, Prefix, Distinct, EvBuffer.Listed, EvBuffer.SlotExact, EvBuffer.LastExact, EvBuffer.PtrOk, NoEol, EolAt;
    if buf.freezeStart {
      return None, 0;
    }
    var it, extraDrain := SearchEol(buf, None, style);
    if it.pos < 0 {
      assert it == NOT_FOUND by { EolBounds(buf.Contents(), style, it.pos, extraDrain); }
      return None, 0;
    }
    ghost var s := buf.Contents();
    EolBounds(s, style, it.pos, extraDrain);
    EolExcludes(s, style, it.pos, extraDrain);
    buf.OwnsItself();
    var r, out := BufferDrain.Remove(buf, it.pos);
    buf.OwnsItself();
    var d := BufferDrain.Drain(buf, extraDrain);
    SplitParts(s, out, extraDrain);
    assert Split(s, style, out, extraDrain, buf.Contents());
    return Some(out), it.pos;
  }

  // A string is split into a line, its end of n bytes, and the rest.
  ghost predicate Split(s: seq<byte>, style: EolStyle, line: seq<byte>, n: nat, rest: seq<byte>) {
    |line| + n <= |s| && EolAt(s, 0, style, |line|, n) && s == line + s[|line|..|line| + n] + rest
  }

  lemma EolBounds(s: seq<byte>, style: EolStyle, i: int, n: nat)
    ensures EolAt(s, 0, style, i, n) ==> 0 <= i && 0 < n && i + n <= |s|
  {
  }

  lemma EolExcludes(s: seq<byte>, style: EolStyle, i: int, n: nat)
    requires EolAt(s, 0, style, i, n)
    ensures !NoEol(s, 0, style)
  {
  }

  lemma SplitParts(s: seq<byte>, line: seq<byte>, n: nat)
    requires |line| + n <= |s| && s[..|line|] == line
    ensures s == line + s[|line|..|line| + n] + s[|line| + n..]
    ensures s[|line|..][n..] == s[|line| + n..]
  {
  }

  // What a caller of evbuffer_readln relies on: the end of line is one of the style, and there
  // is none in the line, nor, for a run of end characters, at the start of the rest.
  lemma SplitLaw(s: seq<byte>, style: EolStyle, line: seq<byte>, n: nat, rest: seq<byte>)
    requires Split(s, style, line, n, rest)
    ensures var term := s[|line|..|line| + n];
            match style
            case EolAny =>
              && term != [] && (forall b :: b in term ==> b == CR || b == LF) && CR !in line && LF !in line
              && (rest != [] ==> rest[0] != CR && rest[0] != LF)
            case EolCrlfStrict => term == [CR, LF] && forall i :: !MatchAt(line + [CR], CRLF, i)
            case EolCrlf =>
              && (term == [LF] || term == [CR, LF]) && LF !in line
              && (term == [LF] && line != [] ==> line[|line| - 1] != CR)
            case EolLf => term == [LF] && LF !in line
            case EolNul => term == [NUL] && NUL !in line
  {
    var term := s[|line|..|line| + n];
    assert forall i {:trigger line[i]} :: 0 <= i < |line| ==> s[i] == line[i];
    assert forall i {:trigger term[i]} :: 0 <= i < n ==> s[|line| + i] == term[i];
    assert forall i {:trigger rest[i]} :: 0 <= i < |rest| ==> s[|line| + n + i] == rest[i];
    if style == EolCrlfStrict {
      forall i ensures !MatchAt(line + [CR], CRLF, i) {
        if 0 <= i && i + 2 <= |line| + 1 {
          assert !MatchAt(s, CRLF, i);
          assert (line + [CR])[i..i + 2] == s[i..i + 2];
        }
      }
    }
  }

  // There is one first end of line.
  lemma EolUnique(s: seq<byte>, lo: int, style: EolStyle, i: int, n: nat, j: int, m: nat)
    requires EolAt(s, lo, style, i, n) && EolAt(s, lo, style, j, m)
    ensures i == j && n == m
  {
    hide MatchAt;
    if style == EolAny {
      FirstUnique(s, lo, i, j, {CR, LF});
    } else if style == EolLf || style == EolNul {
      FirstUnique(s, lo, i, j, {if style == EolLf then LF else NUL});
    } else if style == EolCrlf {
      FirstUnique(s, lo, if n == 2 then i + 1 else i, if m == 2 then j + 1 else j, {LF});
    }
  }

  lemma FirstUnique(s: seq<byte>, lo: int, i: int, j: int, stops: set<byte>)
    requires FirstIn(s, lo, i, stops) && FirstIn(s, lo, j, stops)
    ensures i == j
  {
  }
}
