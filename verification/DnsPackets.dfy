// Whole packets: names written in turn with one shared table are all read back.
module DnsPackets {
  import opened Bytes
  import opened DnsNames
  import opened Options

  // The size of the buffer that replies are parsed into.
  const NAME_OUT: nat := 256

  // A name that the packet holds is read back, exactly when it has no empty label or is the root.
  lemma NameReads(p: seq<byte>, s: nat, name: seq<byte>)
    requires Holds(p, s, s, Visible(Split(name))) && |name| <= MAX_NAME
    ensures Read(p, s, 0) == Some(Visible(Split(name)))
    ensures Parsed(p, s, NAME_OUT) == Some(Join(Visible(Split(name))))
    ensures Parsed(p, s, NAME_OUT) == Some(name) <==> name == [] || NoEmpty(Split(name))
  {
    hide Holds, Split, Read;
    var ls := Split(name);
    HoldsBound(p, s, s, Visible(ls));
    HoldsRead(p, s, s, Visible(ls), 0);
    JoinSplit(name);
    JoinLengthIs(ls);
    VisibleShorter(ls);
    if Visible(ls) != [] {
      JoinLengthIs(Visible(ls));
    }
    ReadableIff(name);
  }

  lemma HoldsBound(p: seq<byte>, run: nat, pos: nat, labels: seq<seq<byte>>)
    requires Holds(p, run, pos, labels)
    ensures run <= pos < |p|
  {
  }

  // A record: a name, and the bytes behind it.
  datatype Record = Record(name: seq<byte>, rest: seq<byte>)

  // The record at `start` has been written: its name is there, and ends at `end`.
  ghost predicate Stored(p: seq<byte>, r: Record, start: nat, end: nat) {
    && |r.name| <= MAX_NAME && Holds(p, start, start, Visible(Split(r.name)))
    && (r.name == [] || NoEmpty(Split(r.name)) ==> EndOf(p, start) == end)
  }

  lemma StoredExtend(p: seq<byte>, q: seq<byte>, r: Record, start: nat, end: nat)
    requires Stored(p, r, start, end) && p <= q
    ensures Stored(q, r, start, end)
  {
    hide Holds, Split, EndOf;
    HoldsExtend(p, q, start, start, Visible(Split(r.name)));
    EndExtend(p, q, start, start, Visible(Split(r.name)));
  }

  // The records before the n-th are stored, and the table is in order.
  ghost predicate Packet(p: seq<byte>, records: seq<Record>, starts: seq<nat>, ends: seq<nat>, table: seq<LabelEntry>) {
    && |starts| == |ends| <= |records|
    && TableOk(table, p)
    && forall k :: 0 <= k < |starts| ==> Stored(p, records[k], starts[k], ends[k])
  }

  lemma PacketExtend(p: seq<byte>, q: seq<byte>, records: seq<Record>, starts: seq<nat>, ends: seq<nat>, table: seq<LabelEntry>)
    requires Packet(p, records, starts, ends, table) && p <= q
    ensures Packet(q, records, starts, ends, table)
  {
    hide Holds, Split, Visible, Stored;
    forall i | 0 <= i < |table| ensures Holds(q, table[i].pos, table[i].pos, Visible(Split(table[i].v))) {
      HoldsExtend(p, q, table[i].pos, table[i].pos, Visible(Split(table[i].v)));
    }
    forall k | 0 <= k < |starts| ensures Stored(q, records[k], starts[k], ends[k]) {
      StoredExtend(p, q, records[k], starts[k], ends[k]);
    }
  }

  // One more record: the name has been written up to `end`.
  lemma PacketPush(p: seq<byte>, q: seq<byte>, records: seq<Record>, starts: seq<nat>, ends: seq<nat>,
                   before: seq<LabelEntry>, table: seq<LabelEntry>)
    requires Packet(p, records, starts, ends, before) && p <= q && |starts| < |records|
    requires Encoded(q, |p|, records[|starts|].name) && |records[|starts|].name| <= MAX_NAME && TableOk(table, q)
    ensures Packet(q, records, starts + [|p|], ends + [|q|], table)
  {
    hide Holds, Split, Visible, EndOf, TableOk;
    forall k | 0 <= k < |starts| ensures Stored(q, records[k], starts[k], ends[k]) {
      StoredExtend(p, q, records[k], starts[k], ends[k]);
    }
  }

  lemma NearPrefix(a: seq<LabelEntry>, b: seq<LabelEntry>)
    requires a <= b && Near(b)
    ensures Near(a)
  {
  }

  // A record that can be written, given the room: its labels are short, and its name not too long.
  predicate Writable(r: Record) {
    |r.name| <= MAX_NAME && forall l :: l in Split(r.name) ==> |l| <= MAX_LABEL
  }

  // Room for the first n records, without any compression.
  function Need(records: seq<Record>, n: nat): nat
    requires n <= |records|
  {
    if n == 0 then 0 else Need(records, n - 1) + |records[n - 1].name| + 2 + |records[n - 1].rest|
  }

  lemma {:induction false} NeedGrows(records: seq<Record>, m: nat, n: nat)
    requires m <= n <= |records|
    ensures Need(records, m) <= Need(records, n)
  {
    if m < n {
      NeedGrows(records, m, n - 1);
    }
  }

  // Where the records before the n-th lie: one behind the other, from the end of the header to the
  // end of the packet, each with its name and then the bytes that follow it.
  ghost predicate Laid(p: seq<byte>, header: seq<byte>, records: seq<Record>, starts: seq<nat>, ends: seq<nat>) {
    && |starts| == |ends| <= |records| && header <= p
    && (forall k :: 0 <= k < |starts| ==>
          && starts[k] == (if k == 0 then |header| else ends[k - 1] + |records[k - 1].rest|)
          && starts[k] < ends[k] <= ends[k] + |records[k].rest| <= |p| && |records[k].name| <= MAX_NAME
          && p[ends[k]..ends[k] + |records[k].rest|] == records[k].rest)
    && |p| == (if starts == [] then |header| else ends[|ends| - 1] + |records[|ends| - 1].rest|)
  }

  lemma LaidPush(p: seq<byte>, q: seq<byte>, header: seq<byte>, records: seq<Record>, starts: seq<nat>, ends: seq<nat>, end: nat)
    requires Laid(p, header, records, starts, ends) && |starts| < |records| && p <= q && |p| < end <= |q|
    requires q[end..] == records[|starts|].rest && |records[|starts|].name| <= MAX_NAME
    ensures Laid(q, header, records, starts + [|p|], ends + [end])
  {
    var ss, es := starts + [|p|], ends + [end];
    assert p == q[..|p|];
    forall k | 0 <= k < |ss|
      ensures ss[k] == (if k == 0 then |header| else es[k - 1] + |records[k - 1].rest|)
      ensures ss[k] < es[k] <= es[k] + |records[k].rest| <= |q| && |records[k].name| <= MAX_NAME && q[es[k]..es[k] + |records[k].rest|] == records[k].rest
    {
      if k < |starts| {
        assert ss[k] == starts[k] && es[k] == ends[k];
        SliceSlice(q, 0, |p|, ends[k], ends[k] + |records[k].rest|);
      } else {
        assert q[end..|q|] == q[end..];
      }
    }
  }

  // A name has been written from `start` to `end` with the table e, which then has more entries: those for the
  // suffixes before the first that it held, as far as there is room.
  ghost predicate Step(name: seq<byte>, start: nat, end: int, bufLen: nat, e: seq<LabelEntry>, after: seq<LabelEntry>) {
    exists m: nat :: m <= |Split(name)| && Outcome(name, start, bufLen, e, m, end) && after == e + Entries(name, start, Kept(|e|, m))
  }

  // So have the names of the first records, in turn; tables[k] is the table before the k-th.
  ghost predicate Chained(records: seq<Record>, starts: seq<nat>, ends: seq<nat>, tables: seq<seq<LabelEntry>>, bufLen: nat) {
    && |starts| == |ends| <= |records| && |tables| == |starts| + 1 && tables[0] == []
    && (forall k :: 0 <= k < |tables| ==> |tables[k]| <= MAX_LABELS)
    && forall k :: 0 <= k < |starts| ==> Step(records[k].name, starts[k], ends[k], bufLen, tables[k], tables[k + 1])
  }

  lemma StepOf(records: seq<Record>, starts: seq<nat>, ends: seq<nat>, tables: seq<seq<LabelEntry>>, bufLen: nat, k: nat)
    requires Chained(records, starts, ends, tables, bufLen) && k < |starts|
    ensures k < |ends| && k < |records| && k + 1 < |tables|
    ensures Step(records[k].name, starts[k], ends[k], bufLen, tables[k], tables[k + 1])
  {
    hide Step;
  }

  lemma StepFacts(name: seq<byte>, start: nat, end: nat, bufLen: nat, e: seq<LabelEntry>, after: seq<LabelEntry>) returns (m: nat)
    requires Step(name, start, end, bufLen, e, after)
    ensures m <= |Split(name)| && Outcome(name, start, bufLen, e, m, end) && after == e + Entries(name, start, Kept(|e|, m)) && e <= after
  {
    hide Outcome, Entries, Split;
    m :| m <= |Split(name)| && Outcome(name, start, bufLen, e, m, end) && after == e + Entries(name, start, Kept(|e|, m));
  }

  lemma {:induction false} TablesGrow(records: seq<Record>, starts: seq<nat>, ends: seq<nat>, tables: seq<seq<LabelEntry>>, bufLen: nat, j: nat, k: nat)
    requires Chained(records, starts, ends, tables, bufLen) && j <= k < |tables|
    ensures tables[j] <= tables[k]
  {
    hide Step, Outcome, Entries;
    if j < k {
      TablesGrow(records, starts, ends, tables, bufLen, j, k - 1);
      StepOf(records, starts, ends, tables, bufLen, k - 1);
      hide Chained;
      var m := StepFacts(records[k - 1].name, starts[k - 1], ends[k - 1], bufLen, tables[k - 1], tables[k]);
    }
  }

  lemma KnownLater(e: seq<LabelEntry>, after: seq<LabelEntry>, v: seq<byte>)
    requires Known(e, v) && e <= after
    ensures Known(after, v)
  {
    var y :| 0 <= y < |e| && e[y].v == v;
    assert after[y].v == v;
  }

  // When a name has been written, the table holds the whole of it, if it had room for an entry.
  lemma NameKnown(name: seq<byte>, start: nat, end: nat, bufLen: nat, e: seq<LabelEntry>, after: seq<LabelEntry>)
    requires Step(name, start, end, bufLen, e, after) && |e| < MAX_LABELS
    ensures Known(after, name)
  {
    hide Split;
    var m := StepFacts(name, start, end, bufLen, e, after);
    assert Off(Split(name), 0) == 0 && Tail(name, 0) == name;
    if m == 0 {
      KnownLater(e, after, name);
    } else {
      assert after[|e|] == Entries(name, start, Kept(|e|, m))[0];
      assert after[|e|].v == name;
    }
  }

  // A record whose name the table holds ends two bytes behind its start.
  lemma KnownName(name: seq<byte>, start: nat, end: nat, bufLen: nat, e: seq<LabelEntry>, after: seq<LabelEntry>)
    requires Step(name, start, end, bufLen, e, after) && Known(e, name)
    ensures end == start + 2
  {
    hide Split, Known;
    var m := StepFacts(name, start, end, bufLen, e, after);
    assert Off(Split(name), 0) == 0 && Tail(name, 0) == name;
  }

  // So does a record whose name an earlier one has, if there was room in the table for that.
  lemma RepeatedName(records: seq<Record>, starts: seq<nat>, ends: seq<nat>, tables: seq<seq<LabelEntry>>, bufLen: nat, j: nat, k: nat)
    requires Chained(records, starts, ends, tables, bufLen) && j < k < |starts| && records[j].name == records[k].name && |tables[j]| < MAX_LABELS
    ensures ends[k] == starts[k] + 2
  {
    hide Step, Known;
    NameKnown(records[j].name, starts[j], ends[j], bufLen, tables[j], tables[j + 1]);
    TablesGrow(records, starts, ends, tables, bufLen, j + 1, k);
    KnownLater(tables[j + 1], tables[k], records[j].name);
    KnownName(records[k].name, starts[k], ends[k], bufLen, tables[k], tables[k + 1]);
  }

  // The table holds every suffix of the name, ...
  ghost predicate AllKnown(e: seq<LabelEntry>, name: seq<byte>) {
    forall x :: 0 <= x < |Split(name)| ==> Known(e, Tail(name, Off(Split(name), x)))
  }

  // ... and every suffix of what it holds.
  ghost predicate Closed(e: seq<LabelEntry>) {
    forall i :: 0 <= i < |e| ==> AllKnown(e, e[i].v)
  }

  lemma AllKnownLater(e: seq<LabelEntry>, after: seq<LabelEntry>, name: seq<byte>)
    requires AllKnown(e, name) && e <= after
    ensures AllKnown(after, name)
  {
    hide Known, Split, Off;
    forall x | 0 <= x < |Split(name)| ensures Known(after, Tail(name, Off(Split(name), x))) {
      KnownLater(e, after, Tail(name, Off(Split(name), x)));
    }
  }

  // The suffixes of a suffix.
  lemma {:induction false} TailSplit(name: seq<byte>, m: nat)
    requires m < |Split(name)|
    ensures var i := Off(Split(name), m); i <= |name| && Split(name[i..]) == Split(name)[m..]
  {
    hide Split, FirstDot;
    if m == 0 {
      assert name[0..] == name && Split(name)[0..] == Split(name);
    } else {
      TailSplit(name, m - 1);
      var i := Off(Split(name), m - 1);
      NextSplit(name, i, m - 1);
      OffNext(Split(name), m - 1);
      assert Split(name)[m - 1 + 1..] == Split(name)[m..];
    }
  }

  lemma {:induction false} OffOff(ls: seq<seq<byte>>, m: nat, x: nat)
    requires m + x <= |ls|
    ensures Off(ls, m + x) == Off(ls, m) + Off(ls[m..], x)
  {
    if x > 0 {
      OffOff(ls, m, x - 1);
    }
  }

  lemma TailTail(name: seq<byte>, m: nat, x: nat)
    requires m + x < |Split(name)|
    ensures var v := Tail(name, Off(Split(name), m)); x < |Split(v)| && Tail(v, Off(Split(v), x)) == Tail(name, Off(Split(name), m + x))
  {
    hide Split, Off;
    TailSplit(name, m);
    TailSplit(name, m + x);
    OffOff(Split(name), m, x);
  }

  // Writing a name keeps that, as long as the table does not get full, and then it holds all of the name, too.
  lemma StepCloses(name: seq<byte>, start: nat, end: nat, bufLen: nat, e: seq<LabelEntry>, after: seq<LabelEntry>)
    requires Step(name, start, end, bufLen, e, after) && Closed(e) && |after| < MAX_LABELS
    ensures AllKnown(after, name) && Closed(after)
  {
    hide Step, Known, Split, Off, AllKnown;
    var m := StepFacts(name, start, end, bufLen, e, after);
    assert Kept(|e|, m) == m;
    StepKnows(name, start, end, bufLen, e, after, m);
    forall i | 0 <= i < |after| ensures AllKnown(after, after[i].v) {
      if i < |e| {
        AllKnownLater(e, after, e[i].v);
      } else {
        SuffixKnown(after, name, i - |e|);
      }
    }
  }

  lemma SuffixKnown(e: seq<LabelEntry>, name: seq<byte>, m: nat)
    requires AllKnown(e, name) && m < |Split(name)|
    ensures AllKnown(e, Tail(name, Off(Split(name), m)))
  {
    hide Known, Split, Off;
    TailSplit(name, m);
    var v := Tail(name, Off(Split(name), m));
    forall x | 0 <= x < |Split(v)| ensures Known(e, Tail(v, Off(Split(v), x))) {
      TailTail(name, m, x);
    }
  }

  lemma StepKnows(name: seq<byte>, start: nat, end: nat, bufLen: nat, e: seq<LabelEntry>, after: seq<LabelEntry>, m: nat)
    requires m <= |Split(name)| && Outcome(name, start, bufLen, e, m, end) && after == e + Entries(name, start, m) && Closed(e)
    ensures AllKnown(after, name)
  {
    hide Split, Off, AllKnown;
    forall x | 0 <= x < |Split(name)| ensures Known(after, Tail(name, Off(Split(name), x))) {
      if x < m {
        assert after[|e| + x].v == Tail(name, Off(Split(name), x));
      } else {
        var v := Tail(name, Off(Split(name), m));
        var y :| 0 <= y < |e| && e[y].v == v;
        RestKnown(e, name, m, x);
        KnownLater(e, after, Tail(name, Off(Split(name), x)));
      }
    }
    IsAllKnown(after, name);
  }

  lemma RestKnown(e: seq<LabelEntry>, name: seq<byte>, m: nat, x: nat)
    requires m <= x < |Split(name)| && AllKnown(e, Tail(name, Off(Split(name), m)))
    ensures Known(e, Tail(name, Off(Split(name), x)))
  {
    hide Known, Split, Off;
    TailTail(name, m, x - m);
  }

  lemma IsAllKnown(e: seq<LabelEntry>, name: seq<byte>)
    requires forall x :: 0 <= x < |Split(name)| ==> Known(e, Tail(name, Off(Split(name), x)))
    ensures AllKnown(e, name)
  {
  }

  lemma {:induction false} TablesClosed(records: seq<Record>, starts: seq<nat>, ends: seq<nat>, tables: seq<seq<LabelEntry>>, bufLen: nat, k: nat)
    requires Chained(records, starts, ends, tables, bufLen) && k < |tables| && |tables[k]| < MAX_LABELS
    ensures Closed(tables[k]) && (k > 0 ==> AllKnown(tables[k], records[k - 1].name))
  {
    hide Step, AllKnown;
    if k > 0 {
      TablesGrow(records, starts, ends, tables, bufLen, k - 1, k);
      TablesClosed(records, starts, ends, tables, bufLen, k - 1);
      StepCloses(records[k - 1].name, starts[k - 1], ends[k - 1], bufLen, tables[k - 1], tables[k]);
    }
  }

  // As long as the table is not full, every suffix that a name shares with an earlier one costs no more than
  // two bytes: the name ends there, or before.
  lemma SharedSuffix(records: seq<Record>, starts: seq<nat>, ends: seq<nat>, tables: seq<seq<LabelEntry>>, bufLen: nat, j: nat, x: nat, k: nat, y: nat)
    requires Chained(records, starts, ends, tables, bufLen) && j < k < |starts| && |tables[k]| < MAX_LABELS
    requires x < |Split(records[j].name)| && y < |Split(records[k].name)|
    requires Tail(records[j].name, Off(Split(records[j].name), x)) == Tail(records[k].name, Off(Split(records[k].name), y))
    ensures ends[k] <= starts[k] + Off(Split(records[k].name), y) + 2
  {
    hide Step, Known, Split, Off, AllKnown, Closed;
    TablesGrow(records, starts, ends, tables, bufLen, j + 1, k);
    TablesClosed(records, starts, ends, tables, bufLen, j + 1);
    AllKnownLater(tables[j + 1], tables[k], records[j].name);
    PartKnown(tables[k], records[j].name, x);
    EndsBy(records[k].name, starts[k], ends[k], bufLen, tables[k], tables[k + 1], y);
  }

  lemma PartKnown(e: seq<LabelEntry>, name: seq<byte>, x: nat)
    requires AllKnown(e, name) && x < |Split(name)|
    ensures Known(e, Tail(name, Off(Split(name), x)))
  {
  }

  lemma EndsBy(name: seq<byte>, start: nat, end: nat, bufLen: nat, e: seq<LabelEntry>, after: seq<LabelEntry>, y: nat)
    requires Step(name, start, end, bufLen, e, after) && y < |Split(name)| && Known(e, Tail(name, Off(Split(name), y)))
    ensures end <= start + Off(Split(name), y) + 2
  {
    hide Step, Known, Split, Off;
    var m := StepFacts(name, start, end, bufLen, e, after);
    if m < y {
      OffGrows(Split(name), m, y);
    }
  }

  // The record cannot be written at j: its name is too long, or fails, or what is behind it does not fit.
  ghost predicate Refused(r: Record, j: nat, bufLen: nat, e: seq<LabelEntry>) {
    |r.name| > MAX_NAME || exists m: nat, end: int :: Outcome(r.name, j, bufLen, e, m, end) && (end < 0 || end + |r.rest| > bufLen)
  }

  lemma IsRefused(r: Record, j: nat, bufLen: nat, e: seq<LabelEntry>, buf: array<byte>, table: LabelTable, end: int)
    requires end <= buf.Length && Exactly(buf, bufLen, j, r.name, table, e, end) && (end < 0 || end + |r.rest| > bufLen)
    ensures Refused(r, j, bufLen, e)
  {
    hide Outcome, Spelled, Filled;
    var m: nat :| Outcome(r.name, j, bufLen, e, m, end);
  }

  lemma LongRefused(r: Record, j: nat, bufLen: nat, e: seq<LabelEntry>)
    requires |r.name| > MAX_NAME
    ensures Refused(r, j, bufLen, e)
  {
  }

  lemma IsStep(name: seq<byte>, j: nat, bufLen: nat, e: seq<LabelEntry>, buf: array<byte>, table: LabelTable, end: nat)
    requires end <= buf.Length && Exactly(buf, bufLen, j, name, table, e, end) && |e| <= MAX_LABELS
    ensures Step(name, j, end, bufLen, e, table.labels)
  {
    hide Spelled, Entries, Split, Outcome, Filled;
    var m: nat :| Outcome(name, j, bufLen, e, m, end) && Filled(e, table.labels, name, j, m);
    ReachedSome(name, j, bufLen, e, m, end);
    StepIs(name, j, bufLen, e, table.labels, m, end);
  }

  lemma StepIs(name: seq<byte>, j: nat, bufLen: nat, e: seq<LabelEntry>, after: seq<LabelEntry>, m: nat, end: nat)
    requires m <= |Split(name)| && Outcome(name, j, bufLen, e, m, end) && Filled(e, after, name, j, m) && |e| <= MAX_LABELS
    ensures Step(name, j, end, bufLen, e, after)
  {
    hide Outcome, Entries, Split;
  }

  lemma ReachedSome(name: seq<byte>, j: nat, bufLen: nat, e: seq<LabelEntry>, m: nat, end: int)
    requires Outcome(name, j, bufLen, e, m, end)
    ensures m <= |Split(name)|
  {
    hide Split;
  }

  // Where the record behind the first ones goes.
  function Position(header: seq<byte>, records: seq<Record>, starts: seq<nat>, ends: seq<nat>): nat {
    if starts != [] && |starts| == |ends| <= |records| then ends[|ends| - 1] + |records[|ends| - 1].rest| else |header|
  }

  lemma ChainedStart(header: seq<byte>, records: seq<Record>, bufLen: nat)
    ensures Chained(records, [], [], [[]], bufLen) && Position(header, records, [], []) == |header|
  {
  }

  lemma ChainedRoom(records: seq<Record>, starts: seq<nat>, ends: seq<nat>, tables: seq<seq<LabelEntry>>, bufLen: nat)
    requires Chained(records, starts, ends, tables, bufLen)
    ensures |tables| == |starts| + 1 && |starts| == |ends| && |tables[|starts|]| <= MAX_LABELS
  {
    hide Step;
  }

  lemma ChainedPush(records: seq<Record>, starts: seq<nat>, ends: seq<nat>, tables: seq<seq<LabelEntry>>, bufLen: nat,
                    j: nat, end: nat, after: seq<LabelEntry>)
    requires Chained(records, starts, ends, tables, bufLen) && |starts| < |records| && |tables| == |starts| + 1
    requires Step(records[|starts|].name, j, end, bufLen, tables[|starts|], after)
    ensures Chained(records, starts + [j], ends + [end], tables + [after], bufLen)
  {
    hide Step;
    StepRoom(records[|starts|].name, j, end, bufLen, tables[|starts|], after);
    var ss, es, ts := starts + [j], ends + [end], tables + [after];
    forall k | 0 <= k < |ss| ensures Step(records[k].name, ss[k], es[k], bufLen, ts[k], ts[k + 1]) {
      if k < |starts| {
        StepOf(records, starts, ends, tables, bufLen, k);
      }
    }
  }

  lemma StepRoom(name: seq<byte>, j: nat, end: nat, bufLen: nat, e: seq<LabelEntry>, after: seq<LabelEntry>)
    requires Step(name, j, end, bufLen, e, after) && |e| <= MAX_LABELS
    ensures |after| <= MAX_LABELS
  {
    hide Outcome, Split;
  }

  lemma AllRepeated(records: seq<Record>, starts: seq<nat>, ends: seq<nat>, tables: seq<seq<LabelEntry>>, bufLen: nat)
    requires Chained(records, starts, ends, tables, bufLen)
    ensures |starts| == |ends| <= |records| && |tables| == |starts| + 1
    ensures forall j, k :: 0 <= j < k < |starts| && records[j].name == records[k].name && |tables[j]| < MAX_LABELS ==> ends[k] == starts[k] + 2
  {
    hide Step;
    forall j, k | 0 <= j < k < |starts| && records[j].name == records[k].name && |tables[j]| < MAX_LABELS ensures ends[k] == starts[k] + 2 {
      RepeatedName(records, starts, ends, tables, bufLen, j, k);
    }
  }

  // Write one record at position j.
  method WriteRecord(buf: array<byte>, bufLen: nat, j: nat, table: LabelTable, r: Record, ghost records: seq<Record>,
                     ghost starts: seq<nat>, ghost ends: seq<nat>)
    returns (next: int, ghost end: nat)
    requires j <= bufLen < buf.Length && 0 !in r.name && |starts| < |records| && records[|starts|] == r
    requires Near(table.labels) ==> Packet(buf[..j], records, starts, ends, table.labels)
    modifies buf, table
    ensures next < 0 ==> !Writable(r) || j + |r.name| + 2 + |r.rest| > bufLen
    ensures next >= 0 ==> |r.name| <= MAX_NAME && j < end <= j + |r.name| + 2 && next == end + |r.rest| <= bufLen
    ensures next >= 0 ==> buf[..j] == old(buf[..j]) && buf[end..next] == r.rest
    ensures next >= 0 && |old(table.labels)| <= MAX_LABELS ==> Step(r.name, j, end, bufLen, old(table.labels), table.labels)
    ensures next < 0 ==> Refused(r, j, bufLen, old(table.labels))
    ensures old(table.labels) <= table.labels
    ensures bufLen <= REACH_LIMIT && old(Near(table.labels)) ==> Near(table.labels)
    ensures next >= 0 && Near(table.labels) ==> Packet(buf[..next], records, starts + [j], ends + [end], table.labels)
  {
    hide Split, Holds, Visible, Near, Packet, TableOk, Encoded, Step, Refused, Exactly;
    ghost var p, e := buf[..j], table.labels;
    end := 0;
    next := DnsnameToLabels(buf, bufLen, j, r.name, table);
    if bufLen <= REACH_LIMIT && Near(e) {
      StillNear(e, table.labels, bufLen);
    }
    if next < 0 {
      if |r.name| <= MAX_NAME {
        IsRefused(r, j, bufLen, e, buf, table, next);
      } else {
        LongRefused(r, j, bufLen, e);
      }
      return;
    }
    end := next;
    if |e| <= MAX_LABELS {
      IsStep(r.name, j, bufLen, e, buf, table, next);
    }
    ghost var q := buf[..next];
    assert p == buf[..j] == q[..j];
    if Near(table.labels) {
      NearPrefix(e, table.labels);
      PacketTable(p, records, starts, ends, e);
      PacketPush(p, q, records, starts, ends, e, table.labels);
    }
    if next + |r.rest| > bufLen {
      IsRefused(r, j, bufLen, e, buf, table, next);
      next := -1;
      return;
    }
    Copy(buf, next, r.rest);
    next := next + |r.rest|;
    assert q == buf[..next][..end] && buf[..j] == q[..j];
    if Near(table.labels) {
      PacketExtend(q, buf[..next], records, starts + [j], ends + [end], table.labels);
    }
  }

  lemma PacketTable(p: seq<byte>, records: seq<Record>, starts: seq<nat>, ends: seq<nat>, table: seq<LabelEntry>)
    requires Packet(p, records, starts, ends, table)
    ensures TableOk(table, p)
  {
  }

  // Every name of the packet is read at its start, the parser gets to its end, and every entry of
  // the table is right.
  ghost predicate ReadBack(p: seq<byte>, records: seq<Record>, starts: seq<nat>, ends: seq<nat>, table: seq<LabelEntry>) {
    && |starts| == |ends| == |records| && TableOk(table, p)
    && forall k {:trigger records[k]} :: 0 <= k < |records| && (records[k].name == [] || NoEmpty(Split(records[k].name))) ==>
         Parsed(p, starts[k], NAME_OUT) == Some(records[k].name) && EndOf(p, starts[k]) == ends[k]
  }

  // Write a header and some records, which succeeds if they can be written and there is room. Every
  // name is found again at its start, and the parser gets to its end, as long as no suffix was entered
  // too far behind for a pointer: never in a buffer no larger than pointers reach.
  method WritePacket(buf: array<byte>, bufLen: nat, header: seq<byte>, records: seq<Record>)
    returns (length: int, table: LabelTable, ghost starts: seq<nat>, ghost ends: seq<nat>, ghost tables: seq<seq<LabelEntry>>)
    requires |header| <= bufLen < buf.Length && forall k :: 0 <= k < |records| ==> 0 !in records[k].name
    modifies buf
    ensures (forall k :: 0 <= k < |records| ==> Writable(records[k])) && |header| + Need(records, |records|) <= bufLen ==> length >= 0
    ensures length >= 0 ==> length <= bufLen && |starts| == |records| && Laid(buf[..length], header, records, starts, ends)
    ensures Chained(records, starts, ends, tables, bufLen)
    ensures if length >= 0 then tables[|starts|] == table.labels
            else |starts| < |records| && Refused(records[|starts|], Position(header, records, starts, ends), bufLen, tables[|starts|])
    ensures forall j, k :: 0 <= j < k < |starts| && records[j].name == records[k].name && |tables[j]| < MAX_LABELS ==> ends[k] == starts[k] + 2
    ensures bufLen <= REACH_LIMIT ==> Near(table.labels)
    ensures length >= 0 && Near(table.labels) ==> ReadBack(buf[..length], records, starts, ends, table.labels)
  {
    hide Need, Near, Packet, Writable, Laid, ReadBack, Going, Chained, Refused, Step, Position;
    table := new LabelTable();
    Copy(buf, 0, header);
    length, starts, ends, tables := |header|, [], [], [[]];
    ChainedStart(header, records, bufLen);
    PacketStart(buf[..length], header, records);
    for k := 0 to |records|
      invariant fresh(table) && 0 <= length <= bufLen && |starts| == k
      invariant Going(buf[..length], header, records, starts, ends, table.labels, bufLen)
      invariant Chained(records, starts, ends, tables, bufLen) && |tables| == |starts| + 1 && tables[|starts|] == table.labels
      invariant length == Position(header, records, starts, ends)
    {
      length, starts, ends, tables := WriteNextRecord(buf, bufLen, length, table, records[k], header, records, starts, ends, tables);
      AllRepeated(records, starts, ends, tables, bufLen);
      if length < 0 {
        return;
      }
    }
    AllRepeated(records, starts, ends, tables, bufLen);
    Gone(buf[..length], header, records, starts, ends, table.labels, bufLen);
  }

  // What is known while the records are written.
  ghost predicate Going(p: seq<byte>, header: seq<byte>, records: seq<Record>, starts: seq<nat>, ends: seq<nat>, table: seq<LabelEntry>, bufLen: nat) {
    && Laid(p, header, records, starts, ends) && |p| <= |header| + Need(records, |starts|)
    && (bufLen <= REACH_LIMIT ==> Near(table)) && (Near(table) ==> Packet(p, records, starts, ends, table))
  }

  lemma Gone(p: seq<byte>, header: seq<byte>, records: seq<Record>, starts: seq<nat>, ends: seq<nat>, table: seq<LabelEntry>, bufLen: nat)
    requires Going(p, header, records, starts, ends, table, bufLen) && |starts| == |records|
    ensures Laid(p, header, records, starts, ends) && (bufLen <= REACH_LIMIT ==> Near(table))
    ensures Near(table) ==> ReadBack(p, records, starts, ends, table)
  {
    hide Near, Packet, ReadBack;
    if Near(table) {
      AllRead(p, records, starts, ends, table);
    }
  }

  // One record of the packet, and what it adds to what is known.
  method WriteNextRecord(buf: array<byte>, bufLen: nat, j: nat, table: LabelTable, r: Record, ghost header: seq<byte>, ghost records: seq<Record>,
                         ghost starts: seq<nat>, ghost ends: seq<nat>, ghost tables: seq<seq<LabelEntry>>)
    returns (next: int, ghost starts': seq<nat>, ghost ends': seq<nat>, ghost tables': seq<seq<LabelEntry>>)
    requires j <= bufLen < buf.Length && 0 !in r.name && |starts| < |records| && records[|starts|] == r
    requires Going(buf[..j], header, records, starts, ends, table.labels, bufLen)
    requires Chained(records, starts, ends, tables, bufLen) && |tables| == |starts| + 1 && tables[|starts|] == table.labels
    requires j == Position(header, records, starts, ends)
    modifies buf, table
    ensures Chained(records, starts', ends', tables', bufLen)
    ensures if next < 0 then starts' == starts && ends' == ends && tables' == tables && Refused(r, j, bufLen, tables[|starts|])
            else |tables'| == |starts'| + 1 && tables'[|starts'|] == table.labels && next == Position(header, records, starts', ends')
    ensures next < 0 ==> (exists k :: 0 <= k < |records| && !Writable(records[k])) || |header| + Need(records, |records|) > bufLen
    ensures next >= 0 ==> next <= bufLen && |starts'| == |starts| + 1 && Going(buf[..next], header, records, starts', ends', table.labels, bufLen)
    ensures bufLen <= REACH_LIMIT ==> Near(table.labels)
  {
    hide Split, Near, Packet, Writable, Laid, Chained, Refused, Step;
    ChainedRoom(records, starts, ends, tables, bufLen);
    ghost var p := buf[..j];
    ghost var end;
    NeedGrows(records, |starts| + 1, |records|);
    next, end := WriteRecord(buf, bufLen, j, table, r, records, starts, ends);
    starts', ends', tables' := starts, ends, tables;
    if next < 0 {
      return;
    }
    assert p == buf[..next][..j] && buf[..next][end..] == buf[end..next];
    LaidPush(p, buf[..next], header, records, starts, ends, end);
    ChainedPush(records, starts, ends, tables, bufLen, j, end, table.labels);
    starts', ends', tables' := starts + [j], ends + [end], tables + [table.labels];
    LaidLength(p, header, records, starts, ends);
  }

  lemma LaidLength(p: seq<byte>, header: seq<byte>, records: seq<Record>, starts: seq<nat>, ends: seq<nat>)
    requires Laid(p, header, records, starts, ends)
    ensures |starts| == |ends|
  {
  }

  lemma StillNear(before: seq<LabelEntry>, after: seq<LabelEntry>, bufLen: nat)
    requires before <= after && Near(before) && bufLen <= REACH_LIMIT
    requires forall x :: |before| <= x < |after| ==> after[x].pos < bufLen
    ensures Near(after)
  {
  }

  lemma PacketStart(p: seq<byte>, header: seq<byte>, records: seq<Record>)
    requires p == header
    ensures forall n: nat :: Going(p, header, records, [], [], [], n)
  {
  }

  lemma AllRead(p: seq<byte>, records: seq<Record>, starts: seq<nat>, ends: seq<nat>, table: seq<LabelEntry>)
    requires Packet(p, records, starts, ends, table) && |starts| == |records|
    ensures ReadBack(p, records, starts, ends, table)
  {
    hide Split, Holds, Visible, NoEmpty, Parsed, EndOf;
    forall k | 0 <= k < |records| && (records[k].name == [] || NoEmpty(Split(records[k].name)))
      ensures Parsed(p, starts[k], NAME_OUT) == Some(records[k].name) && EndOf(p, starts[k]) == ends[k]
    {
      assert Stored(p, records[k], starts[k], ends[k]);
      NameReads(p, starts[k], records[k].name);
    }
  }

  // In a larger buffer a pointer may lead somewhere else: here the name "a" at position 0x4000 is read as the root.
  lemma FarPointer(p: seq<byte>)
    requires |p| == REACH_LIMIT + 5 && (forall i :: 0 <= i < REACH_LIMIT ==> p[i] == 0)
    requires p[REACH_LIMIT..] == [1, 97, 0, PointerHigh(REACH_LIMIT), PointerLow(REACH_LIMIT)]
    ensures Parsed(p, REACH_LIMIT, NAME_OUT) == Some([97])
    ensures Parsed(p, REACH_LIMIT + 3, NAME_OUT) == Some([])
  {
    var n := REACH_LIMIT;
    assert p[n] == p[n..][0] == 1 && p[n + 1] == p[n..][1] == 97 && p[n + 2] == p[n..][2] == 0;
    assert p[n + 3] == p[n..][3] == 192 && p[n + 4] == p[n..][4] == 0;
    assert Read(p, n + 2, 0) == Some([]);
    var l: seq<byte>, none: seq<seq<byte>> := [97], [];
    assert p[n + 1..n + 1 + 1] == l && [l] + none == [l];
    assert Read(p, n, 0) == Put(l, Read(p, n + 2, 0));
    assert Read(p, n, 0) == Some([[97]]);
    assert Read(p, 0, 1) == Some([]);
    assert Read(p, n + 3, 0) == Some([]);
  }
}
