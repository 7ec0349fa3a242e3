// Tagged data on a chained buffer (event_tagging.c): whatever its chains, what is written and read
// are the encodings of TagCodec.
module Tagging {
  import opened Bytes
  import opened Evbuffer
  import opened TagCodec
  import BufferAdd
  import BufferDrain
  import BufferPullup
  import BufferSplice

  // memset(data + at, 0, n)
  method Clear(data: array<byte>, at: nat, n: nat)
    requires at + n <= data.Length
    modifies data
    ensures forall q :: at <= q < at + n ==> data[q] == 0
    ensures data[..at] == old(data[..at])
  {
    for m := 0 to n
      invariant forall q :: at <= q < at + m ==> data[q] == 0
      invariant data[..at] == old(data[..at])
    {
      data[at + m] := 0;
    }
  }

  // Replace nibble p of the bytes d, which are at place `at` of data.
  method SetHalf(data: array<byte>, at: nat, p: nat, x: nat, ghost d: seq<byte>)
    requires at + |d| <= data.Length && d == data[at..at + |d|] && p / 2 < |d| && x < 16
    modifies data
    ensures data[at..at + |d|] == d[p / 2 := WithHalf(d[p / 2], p, x)] && data[..at] == old(data[..at])
  {
    hide WithHalf;
    assert d[p / 2] == data[at + p / 2];
    data[at + p / 2] := WithHalf(data[at + p / 2], p, x);
  }

  lemma ArrayPart(data: array<byte>, at: nat, m: nat, n: nat)
    requires n <= m && at + m <= data.Length
    ensures data[at..at + m][..n] == data[at..at + n]
  {
  }

  // ENCODE_INT_INTERNAL, for a number of `width` bytes, into data from place `at`.
  method EncodeIntInternal(data: array<byte>, at: nat, number: nat, width: nat) returns (len: nat)
    requires (width == 4 || width == 8) && number < Pow16(2 * width) && at + width + 1 <= data.Length
    modifies data
    ensures Nibbles(number) <= 2 * width && len == |Encoded(number)| <= width + 1
    ensures data[at..at + len] == Encoded(number) && data[..at] == old(data[..at])
  {
    hide Pow16, Encoded, Half, WithHalf, Shifted, Nibbles;
    NibblesFit(number, 2 * width);
    var off, rem := 1, number;
    Clear(data, at, width + 1);
    ghost var d := data[at..at + width + 1];
    Zeros(d);
    NoShift(number);
    while rem > 0
      invariant 1 <= off && rem == Shifted(number, off - 1) && off <= Nibbles(number) + 1
      invariant off == 1 || Shifted(number, off - 2) > 0
      invariant |d| == width + 1 && d == data[at..at + |d|] && data[..at] == old(data[..at])
      invariant forall p :: 0 <= p < 2 * |d| ==> Half(d, p) == if 0 < p < off then Nibble(number, p - 1) else 0
      decreases rem
    {
      NibblesExact(number, off - 1);
      OneMore(number, off);
      PutHalf(d, off, rem % 16);
      SetHalf(data, at, off, rem % 16, d);
      d := data[at..at + |d|];
      rem := rem / 16;
      off := off + 1;
    }
    SizeOf(number, off - 1);
    var nibbles := if off > 2 then off - 2 else 0;
    PutHalf(d, 0, nibbles);
    SetHalf(data, at, 0, nibbles, d);
    d := data[at..at + |d|];
    len := (off + 1) / 2;
    EncodedLength(number);
    Finished(number, d, off, len);
    ArrayPart(data, at, |d|, len);
  }

  lemma NoShift(n: nat)
    ensures Shifted(n, 0) == n
  {
  }

  lemma EncodedLength(n: nat)
    requires Nibbles(n) <= 16
    ensures |Encoded(n)| == Nibbles(n) / 2 + 1
  {
  }

  lemma OneMore(n: nat, off: nat)
    requires off > 0
    ensures Shifted(n, off) == Shifted(n, off - 1) / 16 && Nibble(n, off - 1) == Shifted(n, off - 1) % 16
  {
  }

  // Where the digits end.
  lemma SizeOf(n: nat, k: nat)
    requires Shifted(n, k) == 0 && (k == 0 || Shifted(n, k - 1) > 0) && k <= Nibbles(n)
    ensures k == if n == 0 then 0 else Nibbles(n)
    ensures n == 0 ==> Nibbles(n) == 1
  {
    if k > 0 {
      NibblesExact(n, k);
    }
  }

  lemma Zeros(d: seq<byte>)
    requires forall m :: 0 <= m < |d| ==> d[m] == 0
    ensures forall p :: 0 <= p < 2 * |d| ==> Half(d, p) == 0
  {
  }

  lemma PutHalf(d: seq<byte>, p: nat, x: nat)
    requires p / 2 < |d| && x < 16
    ensures var e := d[p / 2 := WithHalf(d[p / 2], p, x)]; forall q :: 0 <= q < 2 * |d| ==> Half(e, q) == if q == p then x else Half(d, q)
  {
    forall q | 0 <= q < 2 * |d| ensures Half(d[p / 2 := WithHalf(d[p / 2], p, x)], q) == if q == p then x else Half(d, q) {
      HalfUpdated(d, p, x, q);
    }
  }

  lemma Finished(n: nat, d: seq<byte>, off: nat, len: nat)
    requires Nibbles(n) <= 16 && off == 1 + (if n == 0 then 0 else Nibbles(n)) && len == (off + 1) / 2 <= |d|
    requires n == 0 ==> Nibbles(n) == 1
    requires forall p :: 0 <= p < 2 * |d| ==> Half(d, p) == if p == 0 then (if off > 2 then off - 2 else 0) else if p < off then Nibble(n, p - 1) else 0
    ensures len == |Encoded(n)| && d[..len] == Encoded(n)
  {
    var e := Encoded(n);
    forall p | 0 <= p < 2 * len ensures Half(d[..len], p) == Half(e, p) {
      assert Half(d[..len], p) == Half(d, p);
      assert e + [] == e;
      EncodedHalf(n, [], p);
      if p >= off {
        if n == 0 {
          ZeroShifted(p - 1);
        } else {
          NibblesExact(n, p - 1);
        }
      }
    }
    SameHalves(d[..len], e);
  }

  // What is in a buffer after pieces have been added to it one by one, each if there is room for it: no
  // marshalling function looks at the result of evbuffer_add.
  function Feed(s: seq<byte>, pieces: seq<seq<byte>>, frozen: bool): seq<byte> {
    if pieces == [] then s
    else
      var before, p := Feed(s, pieces[..|pieces| - 1], frozen), pieces[|pieces| - 1];
      if !frozen && |before| + |p| <= SIZE_MAX && |p| <= MAX_PAYLOAD then before + p else before
  }

  lemma FeedNone(s: seq<byte>, frozen: bool)
    ensures Feed(s, [], frozen) == s
  {
  }

  lemma FeedOne(s: seq<byte>, p: seq<byte>, frozen: bool)
    ensures Feed(s, [p], frozen) == if !frozen && |s| + |p| <= SIZE_MAX && |p| <= MAX_PAYLOAD then s + p else s
  {
    assert [p][..0] == [];
  }

  lemma {:induction false} FeedPlus(s: seq<byte>, a: seq<seq<byte>>, b: seq<seq<byte>>, frozen: bool)
    ensures Feed(s, a + b, frozen) == Feed(Feed(s, a, frozen), b, frozen)
  {
    if b == [] {
      assert a + b == a;
    } else {
      var n := |b| - 1;
      FeedPlus(s, a, b[..n], frozen);
      assert (a + b)[..|a + b| - 1] == a + b[..n];
    }
  }

  // The pieces of a record.
  function Pieces(r: Record): seq<seq<byte>>
    requires Nibbles(|r.data|) <= 16
  {
    [EncodedTag(r.tag), Encoded(|r.data|), r.data]
  }

  // Three pieces, added one by one.
  lemma FeedThree(s: seq<byte>, p: seq<byte>, q: seq<byte>, r: seq<byte>, frozen: bool)
    ensures Feed(s, [p, q, r], frozen) == Feed(Feed(Feed(s, [p], frozen), [q], frozen), [r], frozen)
  {
    FeedPlus(s, [p], [q], frozen);
    FeedPlus(s, [p, q], [r], frozen);
    assert [p] + [q] == [p, q] && [p, q] + [r] == [p, q, r];
  }

  // The pieces of all the records of a list.
  function AllPieces(rs: seq<Record>): seq<seq<byte>>
    requires AllValid(rs)
  {
    if rs == [] then []
    else
      var r := rs[|rs| - 1];
      Fits(r);
      AllPieces(rs[..|rs| - 1]) + Pieces(r)
  }

  lemma Fits(r: Record)
    requires r.Valid()
    ensures Nibbles(|r.data|) <= 16
  {
    Widths();
    NibblesFit(|r.data|, 8);
  }

  // What a marshalling function does to a buffer that is not frozen and has room.
  twostate predicate Appended(buf: EvBuffer, s: seq<byte>)
    reads buf
  {
    !buf.freezeEnd && |old(buf.Contents())| + |s| <= SIZE_MAX ==> buf.Contents() == old(buf.Contents()) + s
  }

  // evtag_encode_int, evtag_encode_int64
  method EncodeInt(buf: EvBuffer, number: nat, width: nat)
    requires buf.Valid() && (width == 4 || width == 8) && number < Pow16(2 * width)
    modifies buf, buf.g.chains
    ensures buf.Valid() && buf.SameSwitches() && fresh(buf.g.repr - old(buf.g.repr))
    ensures Nibbles(number) <= 16 && Appended(buf, Encoded(number))
    ensures buf.Contents() == Feed(old(buf.Contents()), [Encoded(number)], buf.freezeEnd)
  {
    hide EvBuffer.Valid, Encoded, Nibbles, Pow16, Flatten, Feed;
    buf.ValidFacts();
    ghost var s := buf.Contents();
    var data := new byte[width + 1];
    var len := EncodeIntInternal(data, 0, number, width);
    assert data[..len] == data[0..0 + len];
    FeedOne(s, data[..len], buf.freezeEnd);
    var _ := BufferAdd.Add(buf, data[..len]);
  }

  // The bytes of a tag.
  method TagBytes(tag: nat, data: array<byte>) returns (bytes: nat)
    requires tag < TWO_32 && data.Length == 5
    modifies data
    ensures bytes == |EncodedTag(tag)| <= 5 && data[..bytes] == EncodedTag(tag)
  {
    hide EncodedTag;
    TagRoundTrip(tag, []);
    var rest := tag;
    bytes := 0;
    var more := true;
    ghost var done, left := [], EncodedTag(tag);
    while more
      invariant bytes <= 5 && done == data[..bytes] && done + left == EncodedTag(tag)
      invariant left == if more then EncodedTag(rest) else []
      decreases if more then 1 + rest else 0
    {
      FirstGroup(rest);
      var lower: byte := (rest % 128) as byte;
      rest := rest / 128;
      if rest > 0 {
        lower := lower + 128;
      }
      assert |done + left| <= 5;
      data[bytes] := lower;
      bytes := bytes + 1;
      more := rest > 0;
      assert done + left == (done + [lower]) + left[1..];
      done, left := done + [lower], left[1..];
    }
    assert done + left == done;
  }

  lemma FirstGroup(t: nat)
    ensures var s, more := EncodedTag(t), t / 128 > 0;
      s[0] == (if more then t % 128 + 128 else t % 128) as byte && s[1..] == if more then EncodedTag(t / 128) else []
  {
  }

  // evtag_encode_tag
  method EncodeTag(buf: EvBuffer, tag: nat) returns (bytes: nat)
    requires buf.Valid() && tag < TWO_32
    modifies buf, buf.g.chains
    ensures buf.Valid() && buf.SameSwitches() && fresh(buf.g.repr - old(buf.g.repr))
    ensures Appended(buf, EncodedTag(tag)) && bytes == |EncodedTag(tag)| <= 5
    ensures buf.Contents() == Feed(old(buf.Contents()), [EncodedTag(tag)], buf.freezeEnd)
  {
    hide EvBuffer.Valid, EncodedTag, Flatten, Feed;
    buf.ValidFacts();
    var data := new byte[5];
    bytes := TagBytes(tag, data);
    FeedOne(buf.Contents(), data[..bytes], buf.freezeEnd);
    var _ := BufferAdd.Add(buf, data[..bytes]);
  }

  // The value of place i of a tag, and how a tag is put together from its bytes.
  function Weight(i: nat): nat {
    if i == 0 then 1 else if i == 1 then 0x80 else if i == 2 then 0x4000 else if i == 3 then 0x20_0000 else if i == 4 then 0x1000_0000 else 0
  }

  ghost predicate Partial(s: seq<byte>, i: nat, number: nat) {
    var all, more := ReadTag(s, 0), ReadTag(s, i);
    if more.Bad? then all.Bad? else all == Good(number + Weight(i) * more.value, i + more.length)
  }

  lemma NextGroup(s: seq<byte>, i: nat, number: nat)
    requires i < |s| && i <= 4 && Partial(s, i, number) && (i == 4 ==> s[i] as int % 128 <= 15)
    ensures s[i] < 128 ==> ReadTag(s, 0) == Good(number + s[i] as int % 128 * Weight(i), i + 1)
    ensures s[i] >= 128 ==> Partial(s, i + 1, number + s[i] as int % 128 * Weight(i))
  {
    TagStep(s, i);
    hide ReadTag, Weight;
    var more := ReadTag(s, i + 1);
    Weighed(i, s[i] as int % 128, if more.Good? then more.value else 0);
  }

  lemma Weighed(i: nat, low: nat, high: nat)
    requires i <= 4
    ensures Weight(i) * (low + 128 * high) == low * Weight(i) + (if i < 4 then Weight(i + 1) * high else Weight(4) * 128 * high)
    ensures Weight(i) * low == low * Weight(i)
  {
  }

  lemma TagStep(s: seq<byte>, i: nat)
    requires i < |s| && i <= 4 && (i == 4 ==> s[i] as int % 128 <= 15)
    ensures s[i] < 128 ==> ReadTag(s, i) == Good(s[i] as int, 1)
    ensures s[i] >= 128 ==> var more := ReadTag(s, i + 1);
      ReadTag(s, i) == if more.Bad? then Bad else Good(s[i] as int % 128 + 128 * more.value, more.length + 1)
    ensures i == 4 ==> ReadTag(s, 5).Bad?
  {
  }

  // The loop of decode_tag_internal over the first bytes of a buffer, which are in one chain. The byte after
  // five that all have the high bit is not needed to see that they are no tag.
  method ScanTag(chain: Chain, len: nat, ghost s: seq<byte>) returns (done: bool, count: nat, tag: nat)
    requires chain.Ok() && len == |s| && chain.off <= len && (len < 5 ==> chain.off == len) && (len >= 5 ==> chain.off >= 5)
    requires chain.Data() == s[..chain.off]
    ensures if done then count <= 5 && count <= len && ReadTag(s, 0) == Good(tag, count) else ReadTag(s, 0).Bad?
  {
    hide ReadTag, Weight;
    done, count, tag := false, 0, 0;
    TagStarts(s);
    while count < len
      invariant count <= 5 && count <= len && Partial(s, count, tag)
    {
      if count > 4 {
        TagEnds(s);
        return;
      }
      assert chain.Data()[count] == s[count];
      var lower := chain.mem[chain.misalign + count] as int;
      if count == 4 && lower % 128 > 15 {
        TagEnds(s);
        return;
      }
      NextGroup(s, count, tag);
      tag := tag + lower % 128 * Weight(count);
      count := count + 1;
      if lower < 128 {
        done := true;
        return;
      }
    }
    TagEnds(s);
  }

  // decode_tag_internal; nothing is drained from a buffer whose start is frozen.
  method DecodeTagInternal(buf: EvBuffer, drain: bool) returns (result: int, tag: nat)
    requires buf.Valid()
    modifies buf.g.repr
    ensures buf.Valid() && buf.SameSwitches() && fresh(buf.g.repr - old(buf.g.repr))
    ensures var t := ReadTag(old(buf.Contents()), 0);
      if t.Bad? then result == -1 && buf.Contents() == old(buf.Contents())
      else result == t.length && tag == t.value && t.length <= |old(buf.Contents())|
           && buf.Contents() == if drain && !buf.freezeStart then old(buf.Contents())[t.length..] else old(buf.Contents())
  {
    hide EvBuffer.Valid, ReadTag, Weight, Flatten;
    ghost var s := buf.Contents();
    buf.ValidFacts();
    var len := buf.totalLen;
    var chain := BufferPullup.Pullup(buf, if len < 5 then len else 5);
    if chain == null {
      TagEnds(s);
      return -1, 0;
    }
    var done, count;
    done, count, tag := ScanTag(chain, len, s);
    if !done {
      return -1, 0;
    }
    buf.ValidFacts();
    if drain {
      var _ := BufferDrain.Drain(buf, count);
    }
    result := count;
  }

  lemma TagStarts(s: seq<byte>)
    ensures Partial(s, 0, 0)
  {
  }

  lemma TagEnds(s: seq<byte>)
    ensures forall i :: i >= |s| || i > 4 || (i == 4 && s[i] as int % 128 > 15) ==> ReadTag(s, i).Bad?
  {
  }

  // The bytes from a place on, if there are any.
  function From(s: seq<byte>, k: nat): seq<byte> {
    if k <= |s| then s[k..] else []
  }

  lemma FromIs(s: seq<byte>, k: nat)
    ensures |From(s, k)| == (if k <= |s| then |s| - k else 0) && forall m :: 0 <= m < |From(s, k)| ==> From(s, k)[m] == s[k + m]
  {
  }

  lemma IntCases(t: seq<byte>, maxNibbles: nat)
    ensures t == [] ==> ReadInt(t, maxNibbles).Bad?
    ensures t != [] ==>
      var k := t[0] as int / 16 + 1;
      ReadInt(t, maxNibbles) == if k > maxNibbles || k / 2 + 1 > |t| then Bad else Good(Value(t, 0, k), k / 2 + 1)
  {
  }

  // DECODE_INT_INTERNAL: an integer of at most maxNibbles nibbles, at a place of the buffer.
  method DecodeIntInternal(buf: EvBuffer, maxNibbles: nat, offset: nat) returns (result: int, number: nat)
    requires buf.Valid() && (maxNibbles == 8 || maxNibbles == 16) && offset <= 16
    modifies buf.g.repr
    ensures buf.Valid() && buf.SameSwitches() && fresh(buf.g.repr - old(buf.g.repr)) && buf.Contents() == old(buf.Contents())
    ensures var n := ReadInt(From(buf.Contents(), offset), maxNibbles); if n.Bad? then result == -1 else result == n.length && number == n.value
  {
    hide EvBuffer.Valid, ReadInt, From, Value, Half, Flatten;
    buf.ValidFacts();
    ghost var s, t := buf.Contents(), From(buf.Contents(), offset);
    FromIs(s, offset);
    IntCases(t, maxNibbles);
    var len := buf.totalLen - offset;
    if len <= 0 {
      return -1, 0;
    }
    var chain := BufferPullup.Pullup(buf, offset + 1);
    assert chain.Data()[offset] == s[offset] == t[0];
    var nibbles := chain.mem[chain.misalign + offset] as int / 16 + 1;
    if nibbles > maxNibbles || nibbles / 2 + 1 > len {
      return -1, 0;
    }
    len := nibbles / 2 + 1;
    buf.ValidFacts();
    chain := BufferPullup.Pullup(buf, offset + len);
    assert chain.Data()[offset..offset + len] == t[..len];
    number := Digits(chain, offset, nibbles, t);
    result := len;
  }

  // The loop of DECODE_INT_INTERNAL.
  method Digits(chain: Chain, offset: nat, nibbles: nat, ghost t: seq<byte>) returns (number: nat)
    requires chain.Ok() && offset + nibbles / 2 < chain.off && nibbles / 2 < |t|
    requires chain.Data()[offset..offset + nibbles / 2 + 1] == t[..nibbles / 2 + 1]
    ensures number == Value(t, 0, nibbles)
  {
    hide Value, Half;
    number := 0;
    var k: nat := nibbles;
    NoDigits(t, k);
    while k > 0
      invariant k <= nibbles && number == Value(t, k, nibbles)
    {
      assert t[k / 2] == t[..nibbles / 2 + 1][k / 2] == chain.Data()[offset + k / 2];
      var b := chain.mem[chain.misalign + offset + k / 2] as int;
      OneDigit(t, k, nibbles);
      number := number * 16 + if k % 2 == 1 then b % 16 else b / 16;
      k := k - 1;
    }
  }

  lemma NoDigits(t: seq<byte>, k: nat)
    requires k / 2 < |t|
    ensures Value(t, k, k) == 0
  {
  }

  lemma OneDigit(t: seq<byte>, k: nat, n: nat)
    requires 0 < k <= n && n / 2 < |t|
    ensures Value(t, k - 1, n) == Value(t, k, n) * 16 + if k % 2 == 1 then t[k / 2] as int % 16 else t[k / 2] as int / 16
  {
  }

  // evtag_decode_int, evtag_decode_int64
  method DecodeInt(buf: EvBuffer, maxNibbles: nat) returns (result: int, number: nat)
    requires buf.Valid() && (maxNibbles == 8 || maxNibbles == 16)
    modifies buf.g.repr
    ensures buf.Valid() && buf.SameSwitches() && fresh(buf.g.repr - old(buf.g.repr))
    ensures var n := ReadInt(old(buf.Contents()), maxNibbles);
      if n.Bad? then result == -1 && buf.Contents() == old(buf.Contents())
      else result == 0 && number == n.value && n.length <= |old(buf.Contents())|
           && buf.Contents() == if buf.freezeStart then old(buf.Contents()) else old(buf.Contents())[n.length..]
  {
    hide EvBuffer.Valid, Value, Flatten;
    assert From(buf.Contents(), 0) == buf.Contents();
    result, number := DecodeIntInternal(buf, maxNibbles, 0);
    if result != -1 {
      buf.ValidFacts();
      var _ := BufferDrain.Drain(buf, result);
      result := 0;
    }
  }

  // evtag_payload_length: looks, and changes nothing.
  method PayloadLength(buf: EvBuffer) returns (result: int, length: nat)
    requires buf.Valid()
    modifies buf.g.repr
    ensures buf.Valid() && buf.SameSwitches() && fresh(buf.g.repr - old(buf.g.repr)) && buf.Contents() == old(buf.Contents())
    ensures var h := ReadHeader(buf.Contents()); if h.NoHeader? then result == -1 else result == 0 && length == h.payload
  {
    hide EvBuffer.Valid, ReadTag, ReadInt, Flatten;
    TagLength(buf.Contents(), 0);
    length := 0;
    var len, _ := DecodeTagInternal(buf, false);
    if len == -1 {
      return -1, 0;
    }
    result, length := DecodeIntInternal(buf, 8, len);
    result := if result == -1 then -1 else 0;
  }

  // evtag_peek_length: the whole record's length, in 32 bits.
  method PeekLength(buf: EvBuffer) returns (result: int, length: nat)
    requires buf.Valid()
    modifies buf.g.repr
    ensures buf.Valid() && buf.SameSwitches() && fresh(buf.g.repr - old(buf.g.repr)) && buf.Contents() == old(buf.Contents())
    ensures var h := ReadHeader(buf.Contents()); if h.NoHeader? then result == -1 else result == 0 && length == (h.size + h.payload) % TWO_32
  {
    hide EvBuffer.Valid, ReadTag, ReadInt, Flatten;
    TagLength(buf.Contents(), 0);
    length := 0;
    var len, _ := DecodeTagInternal(buf, false);
    if len == -1 {
      return -1, 0;
    }
    var res, payload := DecodeIntInternal(buf, 8, len);
    if res == -1 {
      return -1, 0;
    }
    return 0, (payload + (res + len)) % TWO_32;
  }

  // evtag_marshal
  method Marshal(buf: EvBuffer, tag: nat, data: seq<byte>)
    requires buf.Valid() && tag < TWO_32 && |data| < TWO_32
    modifies buf.g.repr
    ensures buf.Valid() && buf.SameSwitches() && fresh(buf.g.repr - old(buf.g.repr))
    ensures Nibbles(|data|) <= 16 && Appended(buf, Framed(Record(tag, data)))
    ensures buf.Contents() == Feed(old(buf.Contents()), Pieces(Record(tag, data)), buf.freezeEnd)
  {
    hide EvBuffer.Valid, Nibbles, Pow16, Encoded, EncodedTag, Flatten, Feed, ToInt;
    Widths();
    buf.ValidFacts();
    ghost var s := buf.Contents();
    var _ := EncodeTag(buf, tag);
    buf.ValidFacts();
    EncodeInt(buf, |data|, 4);
    buf.ValidFacts();
    FeedThree(s, EncodedTag(tag), Encoded(|data|), data, buf.freezeEnd);
    FeedOne(buf.Contents(), data, buf.freezeEnd);
    var _ := BufferAdd.Add(buf, data);
    assert s + EncodedTag(tag) + Encoded(|data|) + data == s + Framed(Record(tag, data));
  }

  // evtag_marshal_buffer: the bytes are moved. Their number is cut to 32 bits.
  method MarshalBuffer(buf: EvBuffer, tag: nat, data: EvBuffer)
    requires buf.Valid() && data.Valid() && BufferSplice.Apart(buf, data) && buf != data && tag < TWO_32
    modifies buf.g.repr, data.g.repr
    ensures buf.Valid() && data.Valid() && BufferSplice.Apart(buf, data)
    ensures Nibbles(|old(data.Contents())| % TWO_32) <= 16
    ensures var d := old(data.Contents());
      var framed := EncodedTag(tag) + Encoded(|d| % TWO_32) + d;
      && (!buf.freezeEnd && !data.freezeStart && |old(buf.Contents())| + |framed| <= SIZE_MAX ==>
            buf.Contents() == old(buf.Contents()) + framed && data.Contents() == [])
      && (|d| < TWO_32 ==> Nibbles(|d|) <= 16 && framed == Framed(Record(tag, d)))
    ensures var d := old(data.Contents());
      var fed := Feed(old(buf.Contents()), [EncodedTag(tag), Encoded(|d| % TWO_32)], buf.freezeEnd);
      if d == [] || buf.freezeEnd || data.freezeStart then buf.Contents() == fed && data.Contents() == d
      else buf.Contents() == fed + d && data.Contents() == []
  {
    hide EvBuffer.Valid, Nibbles, Pow16, Encoded, EncodedTag, Flatten, Feed;
    Widths();
    buf.ValidFacts();
    data.ValidFacts();
    ghost var s, d := buf.Contents(), data.Contents();
    var n := data.totalLen % TWO_32;
    var _ := EncodeTag(buf, tag);
    buf.ValidFacts();
    EncodeInt(buf, n, 4);
    buf.ValidFacts();
    FeedPlus(s, [EncodedTag(tag)], [Encoded(n)], buf.freezeEnd);
    assert [EncodedTag(tag)] + [Encoded(n)] == [EncodedTag(tag), Encoded(n)];
    var _ := BufferSplice.AddBuffer(buf, data);
    data.ValidFacts();
    assert s + EncodedTag(tag) + Encoded(n) + d == s + (EncodedTag(tag) + Encoded(n) + d);
    assert d == [] ==> s + EncodedTag(tag) + Encoded(n) == s + EncodedTag(tag) + Encoded(n) + d;
  }

  // evtag_marshal_int, evtag_marshal_int64: the tag, the length and the payload are added as by evtag_marshal.
  method MarshalInt(buf: EvBuffer, tag: nat, number: nat, width: nat)
    requires buf.Valid() && tag < TWO_32 && (width == 4 || width == 8) && number < Pow16(2 * width)
    modifies buf.g.repr
    ensures buf.Valid() && buf.SameSwitches() && fresh(buf.g.repr - old(buf.g.repr))
    ensures Nibbles(number) <= 16 && Nibbles(|Encoded(number)|) <= 16 && Appended(buf, Framed(Record(tag, Encoded(number))))
    ensures buf.Contents() == Feed(old(buf.Contents()), Pieces(Record(tag, Encoded(number))), buf.freezeEnd)
  {
    hide EvBuffer.Valid, Nibbles, Pow16, Encoded, EncodedTag, Flatten, Feed;
    Widths();
    var data := new byte[width + 1];
    var len := EncodeIntInternal(data, 0, number, width);
    var payload := data[..len];
    assert payload == data[0..0 + len] == Encoded(number);
    Marshal(buf, tag, payload);
  }

  // evtag_marshal_timeval: both parts cut to 32 bits.
  method MarshalTimeval(buf: EvBuffer, tag: nat, sec: nat, usec: nat)
    requires buf.Valid() && tag < TWO_32
    modifies buf.g.repr
    ensures buf.Valid() && buf.SameSwitches() && fresh(buf.g.repr - old(buf.g.repr))
    ensures Nibbles(sec % TWO_32) <= 8 && Nibbles(usec % TWO_32) <= 8
    ensures var data := Encoded(sec % TWO_32) + Encoded(usec % TWO_32); Nibbles(|data|) <= 16 && Appended(buf, Framed(Record(tag, data)))
    ensures var data := Encoded(sec % TWO_32) + Encoded(usec % TWO_32);
      Nibbles(|data|) <= 16 && buf.Contents() == Feed(old(buf.Contents()), Pieces(Record(tag, data)), buf.freezeEnd)
  {
    hide EvBuffer.Valid, Nibbles, Pow16, Encoded, EncodedTag, Flatten, Feed;
    Widths();
    var data := new byte[10];
    var len := EncodeIntInternal(data, 0, sec % TWO_32, 4);
    ghost var e := data[..len];
    assert e == data[0..0 + len];
    var len2 := EncodeIntInternal(data, len, usec % TWO_32, 4);
    assert data[..len + len2] == e + data[len..len + len2];
    Marshal(buf, tag, data[..len + len2]);
  }

  // A 32-bit length, returned as an int.
  function Int(n: nat): (i: int)
    ensures n < TWO_32 ==> -0x8000_0000 <= i < 0x8000_0000 && (n - i) % 0x1_0000_0000 == 0
  {
    if n < TWO_31 then n else n - TWO_32
  }

  // What is made of the header of a buffer. If its start is frozen nothing is drained, and the
  // length is looked for where the tag is.
  function HeaderOf(s: seq<byte>, frozen: bool): (h: Header)
    ensures h.Header? ==> 0 <= h.size <= |s|
  {
    if frozen then
      var t, n := ReadTag(s, 0), ReadInt(s, 8);
      if t.Bad? || n.Bad? then NoHeader else Header(t.value, n.value, 0)
    else ReadHeader(s)
  }

  // What is left when a header has been looked for: what could be read of it is gone, unless the
  // start is frozen.
  function Headless(s: seq<byte>, frozen: bool): seq<byte> {
    var t := ReadTag(s, 0);
    if t.Bad? || frozen then s
    else
      var rest := From(s, t.length);
      var n := ReadInt(rest, 8);
      if n.Bad? then rest else From(rest, n.length)
  }

  lemma HeadlessIs(s: seq<byte>, frozen: bool)
    ensures var h := HeaderOf(s, frozen); h.Header? ==> Headless(s, frozen) == s[h.size..]
  {
    hide ReadTag, ReadInt;
    TagLength(s, 0);
    var t := ReadTag(s, 0);
    if t.Good? && ReadHeader(s).Header? {
      var n := ReadInt(s[t.length..], 8);
      Tail(s, t.length, n.length);
    }
  }

  lemma HeaderOfFits(s: seq<byte>, frozen: bool)
    ensures var h := HeaderOf(s, frozen); h.Header? ==> h.tag < TWO_32 && h.payload < TWO_32
  {
    hide ReadTag, ReadInt, ReadHeader;
    HeaderFits(s);
    Widths();
    TagFits(s, 0);
    IntFits(s, 8);
  }

  // evtag_unmarshal_header
  method UnmarshalHeader(buf: EvBuffer) returns (result: int, tag: nat)
    requires buf.Valid()
    modifies buf.g.repr
    ensures buf.Valid() && buf.SameSwitches() && fresh(buf.g.repr - old(buf.g.repr))
    ensures buf.Contents() == Headless(old(buf.Contents()), buf.freezeStart)
    ensures var s, h := old(buf.Contents()), HeaderOf(old(buf.Contents()), buf.freezeStart);
      if h.NoHeader? then result == -1
      else tag == h.tag && buf.Contents() == s[h.size..] && result == if |s| - h.size < h.payload then -1 else Int(h.payload)
  {
    hide EvBuffer.Valid, ReadTag, ReadInt, Flatten;
    ghost var s := buf.Contents();
    TagLength(s, 0);
    HeadlessIs(s, buf.freezeStart);
    var res;
    res, tag := DecodeTagInternal(buf, true);
    if res == -1 {
      return -1, tag;
    }
    var n;
    res, n := DecodeInt(buf, 8);
    if res == -1 {
      return -1, tag;
    }
    buf.ValidFacts();
    if buf.totalLen < n {
      return -1, tag;
    }
    return Int(n), tag;
  }

  lemma Tail(s: seq<byte>, a: nat, n: nat)
    requires a <= |s|
    ensures a + n <= |s| ==> s[a..][n..] == s[a + n..]
    ensures a + n <= |s| ==> s[a..][..n] == s[a..a + n]
  {
  }

  lemma FirstPart(s: seq<byte>, m: nat, n: nat)
    requires n <= m <= |s|
    ensures s[..m][..n] == s[..n]
  {
  }

  // How many bytes are drained for a payload: its length is an int, and one that is negative is a
  // very large size.
  function Drained(payload: nat): nat {
    if payload < TWO_31 then payload else SIZE_MAX + 1 + Int(payload)
  }

  // What is left once a payload whose header has been taken off is drained.
  function Rest(s: seq<byte>, h: Header, frozen: bool): seq<byte>
    requires h.Header?
  {
    if frozen then s else From(s, h.size + Drained(h.payload))
  }

  // evbuffer_drain(buf, len), for the length of a payload as an int.
  method DrainPayload(buf: EvBuffer, len: int, ghost s: seq<byte>, ghost h: Header)
    requires buf.Valid() && h.Header? && h.size <= |s| && h.payload < TWO_32 && len == Int(h.payload)
    requires buf.Contents() == s[h.size..] && (buf.freezeStart ==> h.size == 0)
    modifies buf.g.repr
    ensures buf.Valid() && buf.SameSwitches() && fresh(buf.g.repr - old(buf.g.repr))
    ensures buf.Contents() == Rest(s, h, buf.freezeStart)
  {
    hide EvBuffer.Valid, Flatten;
    buf.ValidFacts();
    var n := if len >= 0 then len else SIZE_MAX + 1 + len;
    Tail(s, h.size, n);
    var _ := BufferDrain.Drain(buf, n);
  }

  // evtag_consume
  method Consume(buf: EvBuffer) returns (result: int)
    requires buf.Valid()
    modifies buf.g.repr
    ensures buf.Valid() && buf.SameSwitches() && fresh(buf.g.repr - old(buf.g.repr))
    ensures var s, h := old(buf.Contents()), HeaderOf(old(buf.Contents()), buf.freezeStart);
      if h.NoHeader? || |s| - h.size < h.payload || Int(h.payload) == -1
      then result == -1 && buf.Contents() == Headless(s, buf.freezeStart)
      else result == 0 && buf.Contents() == Rest(s, h, buf.freezeStart)
  {
    hide EvBuffer.Valid, HeaderOf, Headless, Flatten;
    ghost var s := buf.Contents();
    buf.ValidFacts();
    HeaderOfFits(s, buf.freezeStart);
    FrozenSize(s);
    var len, _ := UnmarshalHeader(buf);
    if len == -1 {
      return -1;
    }
    DrainPayload(buf, len, s, HeaderOf(s, buf.freezeStart));
    return 0;
  }

  // A record and what is left once it has been taken off.
  function TakeOf(s: seq<byte>, frozen: bool): Taken {
    var h := HeaderOf(s, frozen);
    if h.NoHeader? || |s| - h.size < h.payload || h.payload >= TWO_31 then Nothing
    else Taken(Record(h.tag, s[h.size..][..h.payload]), Rest(s, h, frozen))
  }

  // Unless the start is frozen, that is taking a record off the byte string.
  lemma TakeOfIs(s: seq<byte>)
    ensures TakeOf(s, false) == Take(s)
  {
    hide ReadHeader;
    var h := ReadHeader(s);
    if h.Header? {
      Tail(s, h.size, h.payload);
    }
  }

  // evbuffer_pullup(src, len), and the len bytes there.
  method PullBytes(src: EvBuffer, len: nat) returns (data: seq<byte>)
    requires src.Valid() && len <= |src.Contents()| && len < TWO_31
    modifies src.g.repr
    ensures src.Valid() && src.SameSwitches() && fresh(src.g.repr - old(src.g.repr)) && src.Contents() == old(src.Contents())
    ensures data == src.Contents()[..len]
  {
    hide EvBuffer.Valid, Flatten;
    src.ValidFacts();
    data := [];
    var chain := BufferPullup.Pullup(src, len);
    if chain != null {
      data := chain.mem[chain.misalign..chain.misalign + len];
      FirstPart(src.Contents(), chain.off, len);
      SliceSlice(chain.mem, chain.misalign, chain.misalign + chain.off, 0, len);
      assert data == chain.Data()[..len];
    }
  }

  // The first half of evtag_unmarshal: the header is taken off, and the payload is pulled together.
  method PullPayload(src: EvBuffer) returns (len: int, tag: nat, data: seq<byte>)
    requires src.Valid()
    modifies src.g.repr
    ensures src.Valid() && src.SameSwitches() && fresh(src.g.repr - old(src.g.repr))
    ensures len < 0 <==> TakeOf(old(src.Contents()), src.freezeStart).Nothing?
    ensures src.Contents() == Headless(old(src.Contents()), src.freezeStart)
    ensures var s, h := old(src.Contents()), HeaderOf(old(src.Contents()), src.freezeStart);
      len >= 0 ==> h.Header? && h.size + h.payload <= |s| && len == h.payload == |data| < TWO_31 && tag == h.tag
                   && data == s[h.size..][..len] && src.Contents() == s[h.size..]
  {
    hide EvBuffer.Valid, HeaderOf, Headless, Rest, Flatten;
    HeaderOfFits(src.Contents(), src.freezeStart);
    data := [];
    len, tag := UnmarshalHeader(src);
    if len < 0 {
      return;
    }
    data := PullBytes(src, len);
  }

  // evtag_unmarshal: a length that is negative as an int is more than evbuffer_add takes.
  method Unmarshal(src: EvBuffer, dst: EvBuffer) returns (result: int, tag: nat)
    requires src.Valid() && dst.Valid() && BufferSplice.Apart(src, dst) && src != dst
    modifies src.g.repr, dst.g.repr
    ensures src.Valid() && dst.Valid() && BufferSplice.Apart(src, dst) && src.SameSwitches() && dst.SameSwitches()
    ensures fresh(src.g.repr - old(src.g.repr)) && fresh(dst.g.repr - old(dst.g.repr))
    ensures var t := TakeOf(old(src.Contents()), src.freezeStart);
      if t.Nothing? || dst.freezeEnd || |old(dst.Contents())| + |t.record.data| > SIZE_MAX
      then result == -1 && dst.Contents() == old(dst.Contents()) && src.Contents() == Headless(old(src.Contents()), src.freezeStart)
      else && result == |t.record.data| && tag == t.record.tag
           && dst.Contents() == old(dst.Contents()) + t.record.data && src.Contents() == t.rest
  {
    hide EvBuffer.Valid, HeaderOf, Headless, Flatten;
    src.ValidFacts();
    dst.ValidFacts();
    ghost var s := src.Contents();
    HeaderOfFits(s, src.freezeStart);
    FrozenSize(s);
    var len, data;
    len, tag, data := PullPayload(src);
    if len < 0 {
      return -1, tag;
    }
    src.ValidFacts();
    dst.ValidFacts();
    var added := BufferAdd.Add(dst, data);
    if added == -1 {
      return -1, tag;
    }
    src.ValidFacts();
    dst.ValidFacts();
    DrainPayload(src, len, s, HeaderOf(s, src.freezeStart));
    return len, tag;
  }

  lemma FrozenSize(s: seq<byte>)
    ensures HeaderOf(s, true).Header? ==> HeaderOf(s, true).size == 0
  {
  }

  // The payload of a tagged integer: its encoding is looked at, and the payload drained.
  method IntOfPayload(buf: EvBuffer, len: nat, maxNibbles: nat) returns (result: int, number: nat)
    requires buf.Valid() && (maxNibbles == 8 || maxNibbles == 16) && len <= |buf.Contents()|
    modifies buf.g.repr
    ensures buf.Valid() && buf.SameSwitches() && fresh(buf.g.repr - old(buf.g.repr))
    ensures buf.Contents() == if buf.freezeStart then old(buf.Contents()) else old(buf.Contents())[len..]
    ensures var n := ReadInt(old(buf.Contents()), maxNibbles);
      if n.Bad? || n.length > len then result == -1 else result == n.length > 0 && number == n.value
  {
    hide EvBuffer.Valid, ReadInt, Flatten;
    assert From(buf.Contents(), 0) == buf.Contents();
    IntLength(buf.Contents(), maxNibbles);
    result, number := DecodeIntInternal(buf, maxNibbles, 0);
    buf.ValidFacts();
    var _ := BufferDrain.Drain(buf, len);
    if result < 0 || result > len {
      return -1, 0;
    }
  }

  // What is left of a header that does not have the tag needed: it loses its tag only.
  function NotNeeded(s: seq<byte>, frozen: bool, needTag: nat): seq<byte> {
    var t := ReadTag(s, 0);
    if t.Good? && t.value != needTag && !frozen then From(s, t.length) else Headless(s, frozen)
  }

  // The first half of evtag_unmarshal_int: a header with the tag that is needed is taken off.
  method NeedHeader(buf: EvBuffer, needTag: nat) returns (ok: bool, len: nat)
    requires buf.Valid()
    modifies buf.g.repr
    ensures buf.Valid() && buf.SameSwitches() && fresh(buf.g.repr - old(buf.g.repr))
    ensures var s, h := old(buf.Contents()), HeaderOf(old(buf.Contents()), buf.freezeStart);
      && (ok <==> h.Header? && h.tag == needTag && h.payload <= |s| - h.size)
      && (ok ==> len == h.payload && buf.Contents() == s[h.size..])
    ensures !ok ==> buf.Contents() == NotNeeded(old(buf.Contents()), buf.freezeStart, needTag)
  {
    hide EvBuffer.Valid, ReadTag, ReadInt, Flatten;
    ghost var s := buf.Contents();
    TagLength(s, 0);
    len := 0;
    var res, tag := DecodeTagInternal(buf, true);
    if res == -1 || needTag != tag {
      return false, 0;
    }
    res, len := DecodeInt(buf, 8);
    if res == -1 {
      return false, 0;
    }
    HeadlessIs(s, buf.freezeStart);
    buf.ValidFacts();
    ok := buf.totalLen >= len;
  }

  // What is left when a tagged integer has been looked for: the payload of a whole record with the tag
  // is drained, whatever is in it.
  function Integerless(s: seq<byte>, frozen: bool, needTag: nat): seq<byte> {
    var h := HeaderOf(s, frozen);
    if h.NoHeader? || h.tag != needTag || |s| - h.size < h.payload then NotNeeded(s, frozen, needTag)
    else if frozen then s else From(s, h.size + h.payload)
  }

  // evtag_unmarshal_int, evtag_unmarshal_int64
  method UnmarshalInt(buf: EvBuffer, needTag: nat, maxNibbles: nat) returns (result: int, number: nat)
    requires buf.Valid() && (maxNibbles == 8 || maxNibbles == 16)
    modifies buf.g.repr
    ensures buf.Valid() && buf.SameSwitches() && fresh(buf.g.repr - old(buf.g.repr))
    ensures buf.Contents() == Integerless(old(buf.Contents()), buf.freezeStart, needTag)
    ensures var n := ReadTagged(old(buf.Contents()), buf.freezeStart, needTag, maxNibbles);
      if n.Bad? then result == -1 else result == n.length > 0 && number == n.value
  {
    hide EvBuffer.Valid, HeaderOf, NotNeeded, ReadInt, Integerless, ReadTagged, Flatten;
    ghost var s := buf.Contents();
    FrozenSize(s);
    var ok, len := NeedHeader(buf, needTag);
    if !ok {
      NoInteger(s, buf.freezeStart, needTag, maxNibbles);
      return -1, 0;
    }
    ghost var h := HeaderOf(s, buf.freezeStart);
    Tail(s, h.size, len);
    buf.ValidFacts();
    result, number := IntOfPayload(buf, len, maxNibbles);
    Integer(s, buf.freezeStart, needTag, maxNibbles);
  }

  // When there is a whole record with the tag.
  lemma Integer(s: seq<byte>, frozen: bool, needTag: nat, maxNibbles: nat)
    requires var h := HeaderOf(s, frozen); h.Header? && h.tag == needTag && h.payload <= |s| - h.size
    ensures var h := HeaderOf(s, frozen); Integerless(s, frozen, needTag) == if frozen then s else s[h.size + h.payload..]
    ensures var n := ReadInt(s[HeaderOf(s, frozen).size..], maxNibbles);
      ReadTagged(s, frozen, needTag, maxNibbles) == if n.Bad? || n.length > HeaderOf(s, frozen).payload then Bad else n
  {
  }

  // ... and when there is none.
  lemma NoInteger(s: seq<byte>, frozen: bool, needTag: nat, maxNibbles: nat)
    requires var h := HeaderOf(s, frozen); h.NoHeader? || h.tag != needTag || h.payload > |s| - h.size
    ensures Integerless(s, frozen, needTag) == NotNeeded(s, frozen, needTag) && ReadTagged(s, frozen, needTag, maxNibbles).Bad?
  {
  }

  lemma IntLength(s: seq<byte>, maxNibbles: nat)
    ensures ReadInt(s, maxNibbles).Good? ==> ReadInt(s, maxNibbles).length > 0
  {
  }

  // A tagged integer: its encoding must not be longer than the payload.
  function ReadTagged(s: seq<byte>, frozen: bool, needTag: nat, maxNibbles: nat): Parsed {
    var h := HeaderOf(s, frozen);
    if h.NoHeader? || h.tag != needTag || |s| - h.size < h.payload then Bad
    else
      var n := ReadInt(s[h.size..], maxNibbles);
      if n.Bad? || n.length > h.payload then Bad else n
  }

  // What a failed look leaves of a buffer that starts with a header, for a payload of n bytes, and `rest`: the header is
  // gone, or its tag alone if an integer with another tag was looked for; an integer is gone with its payload if that
  // is there; and a payload with a length that is negative as an int is all of the rest.
  lemma LeftBehind(tag: nat, n: nat, rest: seq<byte>, needTag: nat)
    requires tag < TWO_32 && n < TWO_32 && |rest| <= CHAIN_MAX
    ensures Nibbles(n) <= 8
    ensures var s := EncodedTag(tag) + Encoded(n) + rest;
      && Headless(s, false) == rest && Headless(s, true) == s && Integerless(s, true, needTag) == s
      && (needTag != tag ==> Integerless(s, false, needTag) == Encoded(n) + rest)
      && (needTag == tag ==> Integerless(s, false, needTag) == if n <= |rest| then rest[n..] else rest)
      && HeaderOf(s, false).Header? && Rest(s, HeaderOf(s, false), false) == if n < TWO_31 && n <= |rest| then rest[n..] else []
  {
    hide ReadTag, ReadInt, Nibbles, Encoded, EncodedTag;
    Widths();
    HeaderRoundTrip(tag, n, rest);
    TagRoundTrip(tag, Encoded(n) + rest);
    IntRoundTrip(n, 8, rest);
    Behind(EncodedTag(tag), Encoded(n), rest);
    HeadlessIs(EncodedTag(tag) + Encoded(n) + rest, false);
    FrozenSize(EncodedTag(tag) + Encoded(n) + rest);
    Past(EncodedTag(tag) + Encoded(n), rest, n);
  }

  lemma Past(a: seq<byte>, b: seq<byte>, n: nat)
    ensures (a + b)[|a|..] == b && From(a + b, |a| + n) == From(b, n)
  {
  }

  // A marshalled integer is unmarshalled to itself, whatever follows.
  lemma TaggedRoundTrip(tag: nat, n: nat, maxNibbles: nat, rest: seq<byte>)
    requires tag < TWO_32 && (maxNibbles == 8 || maxNibbles == 16) && n < Pow16(maxNibbles)
    ensures Nibbles(n) <= 16 && Nibbles(|Encoded(n)|) <= 16
    ensures var s := Framed(Record(tag, Encoded(n))) + rest;
      && ReadTagged(s, false, tag, maxNibbles) == Good(n, |Encoded(n)|)
      && From(s, ReadHeader(s).size + ReadHeader(s).payload) == rest
  {
    hide ReadHeader, ReadInt;
    IntRoundTrip(n, maxNibbles, rest);
    var e := Encoded(n);
    HeaderRoundTrip(tag, |e|, e + rest);
    var header := EncodedTag(tag) + Encoded(|e|);
    assert Framed(Record(tag, e)) + rest == header + (e + rest);
    assert (header + (e + rest))[|header|..] == e + rest;
    assert (header + (e + rest))[|header| + |e|..] == rest;
  }

  // The two integers of a timeval, which must end within the payload.
  datatype Time = NoTime | Time(sec: nat, usec: nat)

  function TwoInts(t: seq<byte>, payload: int): Time {
    var sec := ReadInt(t, 8);
    if sec.Bad? then NoTime
    else
      var usec := ReadInt(From(t, sec.length), 8);
      if usec.Bad? || sec.length + usec.length > payload then NoTime else Time(sec.value, usec.value)
  }

  // No timeval ends within a payload of negative length.
  lemma NoRoom(t: seq<byte>)
    ensures TwoInts(t, -1).NoTime?
  {
  }

  // A tagged timeval; the length of the payload is an int.
  function ReadTime(s: seq<byte>, frozen: bool, needTag: nat): Time {
    var h := HeaderOf(s, frozen);
    if h.NoHeader? || h.tag != needTag || |s| - h.size < h.payload then NoTime else TwoInts(s[h.size..], Int(h.payload))
  }

  // The middle of evtag_unmarshal_timeval.
  method DecodeTwo(buf: EvBuffer, len: int) returns (result: int, sec: nat, usec: nat)
    requires buf.Valid()
    modifies buf.g.repr
    ensures buf.Valid() && buf.SameSwitches() && fresh(buf.g.repr - old(buf.g.repr)) && buf.Contents() == old(buf.Contents())
    ensures var t := TwoInts(buf.Contents(), len); if t.NoTime? then result == -1 else result == 0 && t == Time(sec, usec)
  {
    hide EvBuffer.Valid, ReadInt, Flatten;
    var offset, offset2;
    sec, usec := 0, 0;
    assert From(buf.Contents(), 0) == buf.Contents();
    IntSize(buf.Contents(), 8);
    offset, sec := DecodeIntInternal(buf, 8, 0);
    if offset == -1 {
      return -1, sec, usec;
    }
    offset2, usec := DecodeIntInternal(buf, 8, offset);
    if offset2 == -1 || offset + offset2 > len {
      return -1, sec, usec;
    }
    result := 0;
  }

  // evtag_unmarshal_timeval
  method UnmarshalTimeval(buf: EvBuffer, needTag: nat) returns (result: int, sec: nat, usec: nat)
    requires buf.Valid()
    modifies buf.g.repr
    ensures buf.Valid() && buf.SameSwitches() && fresh(buf.g.repr - old(buf.g.repr))
    ensures (result == 0 || result == -1) && (result == 0 <==> ReadTime(old(buf.Contents()), buf.freezeStart, needTag).Time?)
    ensures result == 0 ==> ReadTime(old(buf.Contents()), buf.freezeStart, needTag) == Time(sec, usec)
    ensures var s, h := old(buf.Contents()), HeaderOf(old(buf.Contents()), buf.freezeStart);
      buf.Contents() == if h.Header? && h.payload <= |s| - h.size && Int(h.payload) != -1 then Rest(s, h, buf.freezeStart)
                        else Headless(s, buf.freezeStart)
  {
    hide EvBuffer.Valid, HeaderOf, Headless, Rest, ReadInt, TwoInts, Int, Flatten;
    ghost var s := buf.Contents();
    HeaderOfFits(s, buf.freezeStart);
    FrozenSize(s);
    result, sec, usec := -1, 0, 0;
    var len, tag := UnmarshalHeader(buf);
    if len == -1 {
      ghost var h := HeaderOf(s, buf.freezeStart);
      if h.Header? {
        NoRoom(s[h.size..]);
      }
      return;
    }
    if tag == needTag {
      result, sec, usec := DecodeTwo(buf, len);
    }
    buf.ValidFacts();
    DrainPayload(buf, len, s, HeaderOf(s, buf.freezeStart));
  }

  lemma IntSize(s: seq<byte>, maxNibbles: nat)
    requires maxNibbles <= 16
    ensures ReadInt(s, maxNibbles).Good? ==> 0 < ReadInt(s, maxNibbles).length <= 9
  {
  }

  lemma TwoIntsRoundTrip(sec: nat, usec: nat, rest: seq<byte>)
    requires sec < TWO_32 && usec < TWO_32
    ensures Nibbles(sec) <= 8 && Nibbles(usec) <= 8
    ensures TwoInts(Encoded(sec) + Encoded(usec) + rest, |Encoded(sec) + Encoded(usec)|) == Time(sec, usec)
  {
    hide ReadInt, Encoded;
    Widths();
    NibblesFit(usec, 8);
    IntRoundTrip(sec, 8, Encoded(usec) + rest);
    IntRoundTrip(usec, 8, rest);
    Behind(Encoded(sec), Encoded(usec), rest);
  }

  lemma Behind(a: seq<byte>, b: seq<byte>, c: seq<byte>)
    ensures a + b + c == a + (b + c) && From(a + b + c, |a|) == b + c
  {
    assert (a + (b + c))[|a|..] == b + c;
  }

  // A marshalled timeval is unmarshalled to itself.
  lemma TimeRoundTrip(tag: nat, sec: nat, usec: nat, rest: seq<byte>)
    requires tag < TWO_32 && sec < TWO_32 && usec < TWO_32
    ensures Nibbles(sec) <= 8 && Nibbles(usec) <= 8
    ensures var data := Encoded(sec) + Encoded(usec); Nibbles(|data|) <= 16 && ReadTime(Framed(Record(tag, data)) + rest, false, tag) == Time(sec, usec)
  {
    hide ReadHeader, TwoInts, Nibbles, Pow16, EncodedTag;
    TwoIntsRoundTrip(sec, usec, rest);
    var data := Encoded(sec) + Encoded(usec);
    HeaderRoundTrip(tag, |data|, data + rest);
    var header := EncodedTag(tag) + Encoded(|data|);
    assert Framed(Record(tag, data)) + rest == header + (data + rest);
    assert (header + (data + rest))[|header|..] == data + rest;
  }

  // When the header and the payload of a small record are taken off, nothing is left.
  lemma WholeRecord(r: Record)
    requires r.tag < TWO_32 && |r.data| < TWO_31 && Nibbles(|r.data|) <= 16
    ensures var s, h := Framed(r), HeaderOf(Framed(r), false);
      h.Header? && h.payload == |r.data| == |s| - h.size && Rest(s, h, false) == []
  {
    hide ReadHeader, Nibbles, EncodedTag, Encoded;
    var header := EncodedTag(r.tag) + Encoded(|r.data|);
    HeaderRoundTrip(r.tag, |r.data|, r.data);
    assert Framed(r) == header + r.data;
  }

  // Marshalling a list of records.
  method MarshalAll(buf: EvBuffer, rs: seq<Record>)
    requires buf.Valid() && AllValid(rs)
    modifies buf.g.repr
    ensures buf.Valid() && buf.SameSwitches() && fresh(buf.g.repr - old(buf.g.repr))
    ensures Appended(buf, Stream(rs)) && buf.Contents() == Feed(old(buf.Contents()), AllPieces(rs), buf.freezeEnd)
  {
    hide EvBuffer.Valid, Nibbles, Pow16, Encoded, EncodedTag, Flatten, Feed, Pieces;
    buf.ValidFacts();
    ghost var s := buf.Contents();
    assert Feed(s, AllPieces(rs[..0]), buf.freezeEnd) == s by { FeedNone(s, buf.freezeEnd); }
    for i := 0 to |rs|
      invariant buf.Valid() && buf.SameSwitches() && fresh(buf.g.repr - old(buf.g.repr))
      invariant !buf.freezeEnd && |s| + |Stream(rs)| <= SIZE_MAX ==> buf.Contents() + Stream(rs[i..]) == s + Stream(rs)
      invariant buf.Contents() == Feed(s, AllPieces(rs[..i]), buf.freezeEnd)
    {
      buf.ValidFacts();
      ghost var before, rest := buf.Contents(), Stream(rs[i..]);
      assert rs[i..][0] == rs[i] && rs[i..][1..] == rs[i + 1..];
      Fits(rs[i]);
      FeedPlus(s, AllPieces(rs[..i]), Pieces(rs[i]), buf.freezeEnd);
      assert rs[..i + 1][..i] == rs[..i];
      Marshal(buf, rs[i].tag, rs[i].data);
      assert rs[i] == Record(rs[i].tag, rs[i].data);
      assert before + rest == before + Framed(rs[i]) + Stream(rs[i + 1..]);
    }
    assert rs[|rs|..] == [] && rs[..|rs|] == rs;
  }

  // One record, its payload into a buffer of its own.
  method OneRecord(src: EvBuffer) returns (got: bool, r: Record)
    requires src.Valid() && !src.freezeStart
    modifies src.g.repr
    ensures src.Valid() && src.SameSwitches() && fresh(src.g.repr - old(src.g.repr))
    ensures var t := Take(old(src.Contents())); (got <==> t.Taken?) && (got ==> r == t.record && src.Contents() == t.rest)
  {
    hide EvBuffer.Valid, Take, TakeOf, Headless, Flatten;
    src.ValidFacts();
    var dst := new EvBuffer();
    dst.ValidFacts();
    ghost var t := src.Contents();
    TakenSmall(t);
    TakeOfIs(t);
    var result, tag := Unmarshal(src, dst);
    if result < 0 {
      return false, Record(tag, []);
    }
    src.ValidFacts();
    dst.ValidFacts();
    ghost var payload := dst.Contents();
    var _, data := BufferDrain.Remove(dst, result);
    assert data == payload == Take(t).record.data;
    return true, Record(tag, data);
  }

  // Unmarshalling n records.
  method UnmarshalAll(src: EvBuffer, n: nat) returns (rs: seq<Record>)
    requires src.Valid() && !src.freezeStart
    modifies src.g.repr
    ensures src.Valid() && fresh(src.g.repr - old(src.g.repr))
    ensures var b := TakeMany(old(src.Contents()), n); |b.records| == n ==> rs == b.records && src.Contents() == b.rest
  {
    hide EvBuffer.Valid, Take, Flatten;
    rs := [];
    ghost var all := TakeMany(src.Contents(), n);
    for i := 0 to n
      invariant src.Valid() && src.SameSwitches() && fresh(src.g.repr - old(src.g.repr)) && |rs| == i
      invariant |all.records| == n ==> all.records == rs + TakeMany(src.Contents(), n - i).records && all.rest == TakeMany(src.Contents(), n - i).rest
    {
      ghost var t, before := src.Contents(), rs;
      var got, r := OneRecord(src);
      if !got {
        return;
      }
      rs := rs + [r];
      assert before + TakeMany(t, n - i).records == rs + TakeMany(src.Contents(), n - i - 1).records;
    }
  }

  lemma TakenSmall(s: seq<byte>)
    ensures Take(s).Taken? ==> |Take(s).record.data| <= SIZE_MAX
  {
  }

  // A stream of any records, however it is laid out in chains, is read back whole, and what follows stays.
  method ReadBack(src: EvBuffer, ghost sent: seq<Record>, n: nat, ghost rest: seq<byte>) returns (rs: seq<Record>)
    requires src.Valid() && !src.freezeStart && AllValid(sent) && n == |sent| && src.Contents() == Stream(sent) + rest
    modifies src.g.repr
    ensures src.Valid() && rs == sent && src.Contents() == rest
  {
    StreamRoundTrip(sent, rest);
    rs := UnmarshalAll(src, n);
  }

  // An integer, of either width, is written and read back.
  method SendInt(buf: EvBuffer, tag: nat, number: nat, width: nat) returns (result: int, back: nat)
    requires buf.Valid() && buf.Contents() == [] && !buf.freezeStart && !buf.freezeEnd
    requires tag < TWO_32 && (width == 4 || width == 8) && number < Pow16(2 * width)
    modifies buf.g.repr
    ensures buf.Valid() && buf.Contents() == [] && Nibbles(number) <= 16 && result == |Encoded(number)| && back == number
  {
    hide EvBuffer.Valid, Nibbles, Pow16, Encoded, EncodedTag, ReadHeader, ReadInt, Flatten, Feed, Pieces;
    TaggedRoundTrip(tag, number, 2 * width, []);
    FramedSmall(Record(tag, Encoded(number)));
    MarshalInt(buf, tag, number, width);
    assert Framed(Record(tag, Encoded(number))) + [] == [] + Framed(Record(tag, Encoded(number))) == buf.Contents();
    result, back := UnmarshalInt(buf, tag, 2 * width);
  }

  lemma SmallInt(n: nat)
    requires n < TWO_31
    ensures Int(n) == n
  {
  }

  // A timeval is written and read back.
  method SendTimeval(buf: EvBuffer, tag: nat, sec: nat, usec: nat) returns (result: int, sec': nat, usec': nat)
    requires buf.Valid() && buf.Contents() == [] && !buf.freezeStart && !buf.freezeEnd
    requires tag < TWO_32 && sec < TWO_32 && usec < TWO_32
    modifies buf.g.repr
    ensures buf.Valid() && buf.Contents() == [] && result == 0 && sec' == sec && usec' == usec
  {
    hide EvBuffer.Valid, Nibbles, Pow16, Encoded, EncodedTag, HeaderOf, ReadTime, Rest, Int, Headless, Flatten, Feed, Pieces;
    TimeRoundTrip(tag, sec, usec, []);
    ghost var data := Encoded(sec) + Encoded(usec);
    FramedSmall(Record(tag, data));
    WholeRecord(Record(tag, data));
    SmallInt(|data|);
    MarshalTimeval(buf, tag, sec, usec);
    assert Framed(Record(tag, data)) + [] == [] + Framed(Record(tag, data)) == buf.Contents();
    assert buf.Contents() == Framed(Record(tag, data));
    result, sec', usec' := UnmarshalTimeval(buf, tag);
  }

  // A framed record of a few bytes fits any buffer.
  lemma FramedSmall(r: Record)
    requires r.tag < TWO_32 && |r.data| <= 18
    ensures Nibbles(|r.data|) <= 16 && |Framed(r)| <= SIZE_MAX
  {
    Widths();
    hide Nibbles, Encoded, EncodedTag;
    TagRoundTrip(r.tag, []);
    IntRoundTrip(|r.data|, 8, []);
  }

  // Any list of records is written and read back.
  method SendAll(buf: EvBuffer, rs: seq<Record>) returns (back: seq<Record>)
    requires buf.Valid() && buf.Contents() == [] && !buf.freezeStart && !buf.freezeEnd && AllValid(rs) && |Stream(rs)| <= SIZE_MAX
    modifies buf.g.repr
    ensures buf.Valid() && back == rs && buf.Contents() == []
  {
    hide EvBuffer.Valid, Flatten, Feed, AllPieces;
    MarshalAll(buf, rs);
    assert buf.Contents() == [] + Stream(rs) == Stream(rs) + [];
    buf.ValidFacts();
    back := ReadBack(buf, rs, |rs|, []);
  }
}
