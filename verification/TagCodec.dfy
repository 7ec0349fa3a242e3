// The wire format of tagged data, on byte strings: integers in nibbles, tags in groups of seven
// bits, records of a tag, a length and a payload (event_tagging.c).
module TagCodec {
  import opened Bytes

  const TWO_32: int := 0x1_0000_0000
  const TWO_31: int := 0x8000_0000

  datatype Parsed = Bad | Good(value: nat, length: nat)

  // n without its i lowest nibbles, and its nibble i.
  function Shifted(n: nat, i: nat): nat {
    if i == 0 then n else Shifted(n, i - 1) / 16
  }

  function Nibble(n: nat, i: nat): (x: nat)
    ensures x < 16
  {
    Shifted(n, i) % 16
  }

  // How many nibbles n needs; at least one.
  function Nibbles(n: nat): (k: nat)
    ensures k > 0
  {
    if n < 16 then 1 else 1 + Nibbles(n / 16)
  }

  // A byte string as nibbles: those at even places are the high ones.
  function Half(s: seq<byte>, p: nat): (x: nat)
    requires p / 2 < |s|
    ensures x < 16
  {
    if p % 2 == 0 then s[p / 2] as int / 16 else s[p / 2] as int % 16
  }

  // Replacing one nibble: data[p / 2] & 0xf0 | x, or & 0x0f | x << 4.
  function WithHalf(b: byte, p: nat, x: nat): byte
    requires x < 16
  {
    if p % 2 == 0 then (x * 16 + b as int % 16) as byte else (b as int / 16 * 16 + x) as byte
  }

  lemma HalfUpdated(s: seq<byte>, p: nat, x: nat, q: nat)
    requires p / 2 < |s| && q / 2 < |s| && x < 16
    ensures Half(s[p / 2 := WithHalf(s[p / 2], p, x)], q) == if q == p then x else Half(s, q)
  {
  }

  lemma SameHalves(s: seq<byte>, t: seq<byte>)
    requires |s| == |t| && forall p :: 0 <= p < 2 * |s| ==> Half(s, p) == Half(t, p)
    ensures s == t
  {
    forall m | 0 <= m < |s| ensures s[m] == t[m] {
      assert Half(s, 2 * m) == Half(t, 2 * m) && Half(s, 2 * m + 1) == Half(t, 2 * m + 1);
    }
  }

  // The nibbles of an encoded integer: how many follow, less one; then its own, lowest first.
  function HalfOf(n: nat, p: nat): (x: nat)
    requires Nibbles(n) <= 16
    ensures x < 16
  {
    if p == 0 then Nibbles(n) - 1 else Nibble(n, p - 1)
  }

  function Encoded(n: nat): (s: seq<byte>)
    requires Nibbles(n) <= 16
    ensures |s| == Nibbles(n) / 2 + 1
  {
    seq(Nibbles(n) / 2 + 1, m requires 0 <= m => (HalfOf(n, 2 * m) * 16 + HalfOf(n, 2 * m + 1)) as byte)
  }

  lemma EncodedHalf(n: nat, rest: seq<byte>, p: nat)
    requires Nibbles(n) <= 16 && p < 2 * |Encoded(n)|
    ensures Half(Encoded(n) + rest, p) == HalfOf(n, p)
  {
  }

  // The value of nibbles i to k of an encoding, from the lowest.
  function Value(s: seq<byte>, i: nat, k: nat): nat
    requires i <= k && k / 2 < |s|
    decreases k - i
  {
    if i == k then 0 else Half(s, i + 1) + 16 * Value(s, i + 1, k)
  }

  // What an integer decoder makes of the bytes.
  function ReadInt(s: seq<byte>, maxNibbles: nat): Parsed {
    if s == [] then Bad
    else
      var k := s[0] as int / 16 + 1;
      if k > maxNibbles || k / 2 + 1 > |s| then Bad else Good(Value(s, 0, k), k / 2 + 1)
  }

  lemma {:induction false} ShiftedTwice(n: nat, i: nat)
    ensures Shifted(n, i + 1) == Shifted(n / 16, i)
  {
    if i > 0 {
      ShiftedTwice(n, i - 1);
    }
  }

  // A number has no more nibbles than it needs.
  lemma {:induction false} NibblesExact(n: nat, i: nat)
    ensures i >= Nibbles(n) ==> Shifted(n, i) == 0
    ensures 0 < i < Nibbles(n) ==> Shifted(n, i) > 0
  {
    if i > 0 {
      ShiftedTwice(n, i - 1);
      if n >= 16 {
        NibblesExact(n / 16, i - 1);
      } else {
        ZeroShifted(i - 1);
      }
    }
  }

  lemma {:induction false} ZeroShifted(i: nat)
    ensures Shifted(0, i) == 0
  {
    if i > 0 {
      ZeroShifted(i - 1);
    }
  }

  function Pow16(k: nat): nat {
    if k == 0 then 1 else 16 * Pow16(k - 1)
  }

  lemma {:induction false} NibblesFit(n: nat, k: nat)
    requires k > 0 && n < Pow16(k)
    ensures Nibbles(n) <= k
  {
    if n >= 16 {
      assert Pow16(1) == 16;
      NibblesFit(n / 16, k - 1);
    }
  }

  lemma Widths()
    ensures Pow16(8) == TWO_32 && Pow16(16) == TWO_32 * TWO_32
  {
    assert Pow16(4) == 0x1_0000;
    assert Pow16(8) == 0x1_0000 * Pow16(4);
    assert Pow16(12) == 0x1_0000 * Pow16(8);
    assert Pow16(16) == 0x1_0000 * Pow16(12);
  }

  lemma {:induction false} ValueEncoded(n: nat, rest: seq<byte>, i: nat)
    requires Nibbles(n) <= 16 && i <= Nibbles(n)
    ensures Value(Encoded(n) + rest, i, Nibbles(n)) == Shifted(n, i)
    decreases Nibbles(n) - i
  {
    if i == Nibbles(n) {
      NibblesExact(n, i);
    } else {
      ValueEncoded(n, rest, i + 1);
      EncodedHalf(n, rest, i + 1);
    }
  }

  // A decoded integer fits the width of its decoder.
  lemma {:induction false} ValueFits(s: seq<byte>, i: nat, k: nat)
    requires i <= k && k / 2 < |s|
    ensures Value(s, i, k) < Pow16(k - i)
    decreases k - i
  {
    if i < k {
      ValueFits(s, i + 1, k);
    }
  }

  lemma IntFits(s: seq<byte>, maxNibbles: nat)
    ensures ReadInt(s, maxNibbles).Good? ==> ReadInt(s, maxNibbles).value < Pow16(maxNibbles)
  {
    if ReadInt(s, maxNibbles).Good? {
      var k := s[0] as int / 16 + 1;
      ValueFits(s, 0, k);
      PowGrows(k, maxNibbles);
    }
  }

  lemma {:induction false} PowGrows(a: nat, b: nat)
    requires a <= b
    ensures Pow16(a) <= Pow16(b)
  {
    if a < b {
      PowGrows(a, b - 1);
    }
  }

  // An integer decodes to itself, whatever follows, if the decoder takes so many nibbles.
  lemma IntRoundTrip(n: nat, maxNibbles: nat, rest: seq<byte>)
    requires 0 < maxNibbles <= 16 && n < Pow16(maxNibbles)
    ensures Nibbles(n) <= maxNibbles
    ensures ReadInt(Encoded(n) + rest, maxNibbles) == Good(n, |Encoded(n)|)
  {
    NibblesFit(n, maxNibbles);
    EncodedHalf(n, rest, 0);
    ValueEncoded(n, rest, 0);
  }

  // A tag: seven bits a byte, lowest first; the high bit says that more follow.
  function EncodedTag(t: nat): (s: seq<byte>)
    ensures |s| > 0
  {
    if t < 128 then [t as byte] else [(t % 128 + 128) as byte] + EncodedTag(t / 128)
  }

  // What the tag decoder makes of the bytes from place i on: at most five bytes and 32 bits.
  function ReadTag(s: seq<byte>, i: nat): Parsed
    decreases |s| - i
  {
    if i >= |s| || i > 4 || (i == 4 && s[i] as int % 128 > 15) then Bad
    else if s[i] < 128 then Good(s[i] as int, 1)
    else
      var more := ReadTag(s, i + 1);
      if more.Bad? then Bad else Good(s[i] as int % 128 + 128 * more.value, more.length + 1)
  }

  // What fits in the groups from place i on.
  function TagRoom(i: nat): nat {
    if i == 0 then TWO_32 else if i == 1 then 0x200_0000 else if i == 2 then 0x4_0000 else if i == 3 then 0x800 else 16
  }

  lemma {:induction false} TagFits(s: seq<byte>, i: nat)
    ensures ReadTag(s, i).Good? ==> ReadTag(s, i).value < TagRoom(i)
    decreases |s| - i
  {
    if i < |s| && i <= 4 {
      TagFits(s, i + 1);
    }
  }

  lemma {:induction false} TagDecodes(t: nat, before: seq<byte>, rest: seq<byte>)
    requires |before| <= 4 && t < TagRoom(|before|)
    ensures ReadTag(before + EncodedTag(t) + rest, |before|) == Good(t, |EncodedTag(t)|)
    ensures |before| + |EncodedTag(t)| <= 5
    decreases t
  {
    var s := before + EncodedTag(t) + rest;
    assert s[|before|] == EncodedTag(t)[0];
    if t >= 128 {
      var b: byte := (t % 128 + 128) as byte;
      TagDecodes(t / 128, before + [b], rest);
      assert before + [b] + EncodedTag(t / 128) + rest == s;
    }
  }

  lemma TagRoundTrip(t: nat, rest: seq<byte>)
    requires t < TWO_32
    ensures ReadTag(EncodedTag(t) + rest, 0) == Good(t, |EncodedTag(t)|) && |EncodedTag(t)| <= 5
  {
    TagDecodes(t, [], rest);
    assert [] + EncodedTag(t) + rest == EncodedTag(t) + rest;
  }

  // A tag, a length and a payload.
  datatype Record = Record(tag: nat, data: seq<byte>) {
    predicate Valid() {
      tag < TWO_32 && |data| < TWO_31
    }
  }

  function Framed(r: Record): seq<byte>
    requires Nibbles(|r.data|) <= 16
  {
    EncodedTag(r.tag) + Encoded(|r.data|) + r.data
  }

  datatype Header = NoHeader | Header(tag: nat, payload: nat, size: nat)

  // The tag and length in front of a payload, and how many bytes they take.
  function ReadHeader(s: seq<byte>): (h: Header)
    ensures h.Header? ==> 0 <= h.size <= |s|
  {
    var t := ReadTag(s, 0);
    if t.Bad? then NoHeader
    else
      TagLength(s, 0);
      var n := ReadInt(s[t.length..], 8);
      if n.Bad? then NoHeader else Header(t.value, n.value, t.length + n.length)
  }

  lemma {:induction false} TagLength(s: seq<byte>, i: nat)
    ensures ReadTag(s, i).Good? ==> i + ReadTag(s, i).length <= |s| && 0 < ReadTag(s, i).length <= 5 - i
    decreases |s| - i
  {
    if i < |s| && i <= 4 {
      TagLength(s, i + 1);
    }
  }

  lemma HeaderFits(s: seq<byte>)
    ensures ReadHeader(s).Header? ==> ReadHeader(s).tag < TWO_32 && ReadHeader(s).payload < TWO_32
  {
    Widths();
    TagFits(s, 0);
    var t := ReadTag(s, 0);
    if t.Good? {
      TagLength(s, 0);
      IntFits(s[t.length..], 8);
    }
  }

  lemma HeaderRoundTrip(tag: nat, n: nat, rest: seq<byte>)
    requires tag < TWO_32 && n < TWO_32
    ensures Nibbles(n) <= 8
    ensures ReadHeader(EncodedTag(tag) + Encoded(n) + rest) == Header(tag, n, |EncodedTag(tag) + Encoded(n)|)
  {
    Widths();
    IntRoundTrip(n, 8, rest);
    TagRoundTrip(tag, Encoded(n) + rest);
    assert EncodedTag(tag) + Encoded(n) + rest == EncodedTag(tag) + (Encoded(n) + rest);
    assert (EncodedTag(tag) + (Encoded(n) + rest))[|EncodedTag(tag)|..] == Encoded(n) + rest;
  }

  lemma Framable(r: Record)
    requires |r.data| < TWO_32
    ensures Nibbles(|r.data|) <= 8
  {
    Widths();
    NibblesFit(|r.data|, 8);
  }

  predicate AllValid(rs: seq<Record>) {
    forall i :: 0 <= i < |rs| ==> rs[i].Valid()
  }

  // The stream of some records.
  function Stream(rs: seq<Record>): seq<byte>
    requires AllValid(rs)
  {
    if rs == [] then []
    else
      Framable(rs[0]);
      Framed(rs[0]) + Stream(rs[1..])
  }

  // A record read off the front: its tag and payload, and what is left.
  datatype Taken = Nothing | Taken(record: Record, rest: seq<byte>)

  function Take(s: seq<byte>): Taken {
    var h := ReadHeader(s);
    if h.NoHeader? || |s| - h.size < h.payload || h.payload >= TWO_31 then Nothing
    else Taken(Record(h.tag, s[h.size..h.size + h.payload]), s[h.size + h.payload..])
  }

  // Whatever follows, a framed record is taken off whole and nothing more.
  lemma TakeFramed(r: Record, rest: seq<byte>)
    requires r.Valid()
    ensures Nibbles(|r.data|) <= 16
    ensures Take(Framed(r) + rest) == Taken(r, rest)
  {
    Framable(r);
    var header := EncodedTag(r.tag) + Encoded(|r.data|);
    HeaderRoundTrip(r.tag, |r.data|, r.data + rest);
    assert Framed(r) + rest == header + (r.data + rest);
    assert (header + (r.data + rest))[|header|..|header| + |r.data|] == r.data;
    assert (header + (r.data + rest))[|header| + |r.data|..] == rest;
  }

  // The first n records, and what is left.
  datatype Batch = Batch(records: seq<Record>, rest: seq<byte>)

  function TakeMany(s: seq<byte>, n: nat): (b: Batch)
    ensures |b.records| <= n
  {
    if n == 0 || Take(s).Nothing? then Batch([], s)
    else
      var more := TakeMany(Take(s).rest, n - 1);
      Batch([Take(s).record] + more.records, more.rest)
  }

  // Any list of records comes back from its stream, with what follows untouched.
  lemma {:induction false} StreamRoundTrip(rs: seq<Record>, rest: seq<byte>)
    requires AllValid(rs)
    ensures TakeMany(Stream(rs) + rest, |rs|) == Batch(rs, rest)
  {
    hide Take, Framed;
    if rs == [] {
      assert Stream(rs) + rest == rest;
    } else {
      TakeFramed(rs[0], Stream(rs[1..]) + rest);
      assert Stream(rs) + rest == Framed(rs[0]) + (Stream(rs[1..]) + rest);
      StreamRoundTrip(rs[1..], rest);
      assert [rs[0]] + rs[1..] == rs;
    }
  }

  lemma {:induction false} PowPositive(k: nat)
    ensures Pow16(k) > 0
  {
    if k > 0 {
      PowPositive(k - 1);
    }
  }

  // Without its i lowest nibbles a number is divided by 16 to the i-th.
  lemma {:induction false} ShiftedIs(n: nat, i: nat)
    ensures Pow16(i) > 0 && Shifted(n, i) == n / Pow16(i)
  {
    PowPositive(i);
    if i > 0 {
      ShiftedIs(n, i - 1);
      var p, q := Pow16(i - 1), Shifted(n, i - 1);
      Quotients(n, p, q, q / 16);
    }
  }

  lemma Quotients(n: nat, p: nat, q: nat, r: nat)
    requires p > 0 && q == n / p && r == q / 16
    ensures n / (16 * p) == r
  {
    var a, b := n % p, q % 16;
    Distribute(p, 16 * r, b);
    Distribute(p, b, 15 - b);
    assert p * (16 * r) == 16 * p * r;
    Divided(n, 16 * p, r, p * b + a);
  }

  lemma Distribute(p: int, x: int, y: int)
    ensures p * (x + y) == p * x + p * y
  {
  }

  lemma Grows(d: nat, a: int, b: int)
    requires a <= b
    ensures d * a <= d * b
  {
  }

  lemma Divided(n: nat, d: nat, q: int, r: nat)
    requires d > 0 && n == d * q + r && r < d
    ensures n / d == q
  {
    var k := n / d;
    if k < q {
      Grows(d, k + 1, q);
    } else if q < k {
      Grows(d, q + 1, k);
    }
  }

  // The halves of the bytes of an encoding.
  lemma EncodedBytes(n: nat, p: nat)
    requires Nibbles(n) <= 16 && p <= Nibbles(n)
    ensures var s := Encoded(n); (if p % 2 == 0 then s[p / 2] as int / 16 else s[p / 2] as int % 16) == HalfOf(n, p)
    ensures var s, k := Encoded(n), Nibbles(n); k % 2 == 0 ==> s[k / 2] as int % 16 == HalfOf(n, k + 1)
  {
    hide Nibbles, HalfOf;
  }

  // The wire format of an integer: the first nibble is the number of its nibbles less one; they follow from the lowest on, two in a byte, the first in the high half; a last half is 0.
  lemma IntOnTheWire(n: nat, i: nat)
    requires Nibbles(n) <= 16 && i < Nibbles(n)
    ensures var s, k := Encoded(n), Nibbles(n);
      && |s| == k / 2 + 1 && s[0] as int / 16 == k - 1
      && Pow16(i) > 0 && (if i % 2 == 0 then s[(i + 1) / 2] as int % 16 else s[(i + 1) / 2] as int / 16) == n / Pow16(i) % 16
      && (k % 2 == 0 ==> s[k / 2] as int % 16 == 0)
  {
    hide Nibbles, Encoded, Shifted, Pow16;
    var k := Nibbles(n);
    ShiftedIs(n, i);
    ShiftedIs(n, k);
    NibblesExact(n, k);
    EncodedBytes(n, 0);
    EncodedBytes(n, i + 1);
  }

  // It has no more nibbles than it needs.
  lemma NoMore(n: nat)
    ensures n < Pow16(Nibbles(n)) && (Nibbles(n) > 1 ==> n >= Pow16(Nibbles(n) - 1))
  {
    hide Nibbles, Shifted, Pow16;
    var k := Nibbles(n);
    ShiftedIs(n, k);
    ShiftedIs(n, k - 1);
    NibblesExact(n, k);
    NibblesExact(n, k - 1);
    Whole(n, Pow16(k));
    Whole(n, Pow16(k - 1));
  }

  lemma Whole(n: nat, d: nat)
    requires d > 0
    ensures n / d == 0 <==> n < d
  {
    assert n == d * (n / d) + n % d;
    if n < d {
      Divided(n, d, 0, n);
    }
  }

  // For example.
  lemma SomeInts()
    ensures Nibbles(0) == 1 && Encoded(0) == [0]
    ensures Nibbles(0xaf0) == 3 && Encoded(0xaf0) == [0x20, 0xfa]
    ensures Nibbles(0x1000) == 4 && Encoded(0x1000) == [0x30, 0x00, 0x10]
  {
    assert Nibbles(0xa) == 1 && Nibbles(0xaf) == 2;
    assert Nibbles(0x1) == 1 && Nibbles(0x10) == 2 && Nibbles(0x100) == 3;
    assert Shifted(0xaf0, 1) == 0xaf && Shifted(0xaf0, 2) == 0xa && Shifted(0xaf0, 3) == 0;
    assert Shifted(0x1000, 1) == 0x100 && Shifted(0x1000, 2) == 0x10 && Shifted(0x1000, 3) == 1 && Shifted(0x1000, 4) == 0;
  }

  function Pow128(k: nat): (p: nat)
    ensures p > 0
  {
    if k == 0 then 1 else 128 * Pow128(k - 1)
  }

  lemma {:induction false} Grouped(t: nat, k: nat)
    ensures t / Pow128(k + 1) == t / 128 / Pow128(k)
  {
    var p, q := Pow128(k), t / 128;
    var r := q / p;
    assert q == p * r + q % p && t == 128 * q + t % 128;
    assert t == 128 * p * r + (128 * (q % p) + t % 128);
    Divided(t, 128 * p, r, 128 * (q % p) + t % 128);
  }

  // The wire format of a tag: seven bits in a byte, from the lowest on; all but the last byte have the high bit.
  lemma {:induction false} TagOnTheWire(t: nat, k: nat)
    requires k < |EncodedTag(t)|
    ensures EncodedTag(t)[k] as int % 128 == t / Pow128(k) % 128
    ensures EncodedTag(t)[k] >= 128 <==> k < |EncodedTag(t)| - 1
    ensures t < Pow128(|EncodedTag(t)|)
    decreases t
  {
    if t >= 128 {
      TagOnTheWire(t / 128, if k > 0 then k - 1 else 0);
      if k > 0 {
        Grouped(t, k - 1);
      }
      var n := |EncodedTag(t / 128)|;
      assert t / 128 < Pow128(n);
      assert Pow128(n + 1) == 128 * Pow128(n);
    } else {
      assert Pow128(1) == 128 * Pow128(0) == 128;
    }
  }

  // A record of three bytes, and one of none.
  lemma SomeRecords()
    ensures Nibbles(3) == 1 && Nibbles(0) == 1
    ensures Framed(Record(0x66, [7, 8, 9])) == [0x66, 0x03, 7, 8, 9] && Framed(Record(0x166, [])) == [0xe6, 0x02, 0x00]
  {
    SomeTags();
    SomeInts();
    assert Encoded(3) == [0x03];
  }

  lemma SomeTags()
    ensures EncodedTag(0x66) == [0x66] && EncodedTag(0x166) == [0xe6, 0x02]
  {
    assert EncodedTag(2) == [2];
  }
}
