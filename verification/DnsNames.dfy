// Domain names in DNS packets: the compressing writer dnsname_to_labels and the parser
// name_parse (section 4.1.4 of RFC 1035).
module DnsNames {
  import opened Bytes
  import opened Options

  const DOT: byte := 46
  const MAX_LABEL: nat := 63
  const MAX_NAME: nat := 255
  const MAX_LABELS: nat := 128
  // Pointers have 14 bits.
  const REACH_LIMIT: nat := 0x4000

  // The place of the first dot, or the length.
  function FirstDot(name: seq<byte>): (k: nat)
    ensures k <= |name| && DOT !in name[..k] && (k < |name| ==> name[k] == DOT)
  {
    if name == [] || name[0] == DOT then 0
    else
      var k := 1 + FirstDot(name[1..]);
      assert name[..k] == [name[0]] + name[1..][..k - 1];
      k
  }

  // The labels of a name.
  function Split(name: seq<byte>): (labels: seq<seq<byte>>)
    ensures labels != []
  {
    var k := FirstDot(name);
    if k == |name| then [name] else [name[..k]] + Split(name[k + 1..])
  }

  function Join(labels: seq<seq<byte>>): seq<byte> {
    if labels == [] then [] else if |labels| == 1 then labels[0] else labels[0] + [DOT] + Join(labels[1..])
  }

  lemma {:induction false} JoinSplit(name: seq<byte>)
    ensures Join(Split(name)) == name
  {
    var k := FirstDot(name);
    if k < |name| {
      JoinSplit(name[k + 1..]);
      assert Split(name)[1..] == Split(name[k + 1..]);
      assert name == name[..k] + [DOT] + name[k + 1..];
    }
  }

  // The labels before the first empty one: what the terminating zero lets a parser see.
  function Visible(labels: seq<seq<byte>>): seq<seq<byte>> {
    if labels == [] || labels[0] == [] then [] else [labels[0]] + Visible(labels[1..])
  }

  predicate NoEmpty(labels: seq<seq<byte>>) {
    forall i :: 0 <= i < |labels| ==> labels[i] != []
  }

  lemma {:induction false} VisibleAll(labels: seq<seq<byte>>)
    ensures |Visible(labels)| <= |labels|
    ensures NoEmpty(labels) <==> Visible(labels) == labels
    ensures NoEmpty(labels) <==> |Visible(labels)| == |labels|
  {
    if labels != [] && labels[0] != [] {
      VisibleAll(labels[1..]);
      assert NoEmpty(labels) <==> NoEmpty(labels[1..]);
    }
  }

  function JoinLength(labels: seq<seq<byte>>): nat {
    if labels == [] then 0 else |labels[0]| + 1 + JoinLength(labels[1..])
  }

  lemma {:induction false} JoinLengthIs(labels: seq<seq<byte>>)
    requires labels != []
    ensures JoinLength(labels) == |Join(labels)| + 1
  {
    if |labels| > 1 {
      JoinLengthIs(labels[1..]);
    }
  }

  lemma {:induction false} VisibleShorter(labels: seq<seq<byte>>)
    ensures JoinLength(Visible(labels)) <= JoinLength(labels)
    ensures !NoEmpty(labels) ==> JoinLength(Visible(labels)) < JoinLength(labels)
  {
    if labels != [] && labels[0] != [] {
      VisibleShorter(labels[1..]);
    }
  }

  // A name can be read back exactly when it has no empty label, or is the root.
  lemma ReadableIff(name: seq<byte>)
    ensures Join(Visible(Split(name))) == name <==> name == [] || NoEmpty(Split(name))
  {
    var ls := Split(name);
    JoinSplit(name);
    VisibleAll(ls);
    if !NoEmpty(ls) && name != [] {
      VisibleShorter(ls);
      JoinLengthIs(ls);
      if Visible(ls) != [] {
        JoinLengthIs(Visible(ls));
      }
    }
  }

  // A label at a position of a packet: its length, and its bytes.
  predicate LabelAt(p: seq<byte>, pos: nat, l: seq<byte>) {
    && |l| <= MAX_LABEL && pos + 1 + |l| <= |p|
    && p[pos] as int == |l| && p[pos + 1..pos + 1 + |l|] == l
  }

  // Where a pointer points to.
  function Target(high: byte, low: byte): nat {
    (high as int % 64) * 256 + low as int
  }

  // The packet holds the labels from `pos` on, in a run that began at `run`. A pointer leads
  // to a run that begins before the current one.
  predicate Holds(p: seq<byte>, run: nat, pos: nat, labels: seq<seq<byte>>)
    decreases |labels|, pos
  {
    && run <= pos < |p|
    && if p[pos] == 0 then labels == []
       else if p[pos] >= 64 then
         && p[pos] >= 192 && pos + 1 < |p|
         && Target(p[pos], p[pos + 1]) < run
         && Holds(p, Target(p[pos], p[pos + 1]), Target(p[pos], p[pos + 1]), labels)
       else labels != [] && LabelAt(p, pos, labels[0]) && Holds(p, run, pos + 1 + |labels[0]|, labels[1..])
  }

  // More bytes behind the packet change nothing.
  lemma {:induction false} HoldsExtend(p: seq<byte>, q: seq<byte>, run: nat, pos: nat, labels: seq<seq<byte>>)
    requires Holds(p, run, pos, labels) && p <= q
    ensures Holds(q, run, pos, labels)
    decreases |labels|, pos
  {
    if p[pos] == 0 {
    } else if p[pos] >= 64 {
      var t := Target(p[pos], p[pos + 1]);
      HoldsExtend(p, q, t, t, labels);
    } else {
      assert q[pos + 1..pos + 1 + |labels[0]|] == p[pos + 1..pos + 1 + |labels[0]|];
      HoldsExtend(p, q, run, pos + 1 + |labels[0]|, labels[1..]);
    }
  }

  // A run may be entered anywhere.
  lemma {:induction false} HoldsEnter(p: seq<byte>, run: nat, from: nat, pos: nat, labels: seq<seq<byte>>)
    requires Holds(p, run, pos, labels) && run <= from <= pos
    ensures Holds(p, from, pos, labels)
    decreases |labels|
  {
    if 0 < p[pos] < 64 {
      HoldsEnter(p, run, from, pos + 1 + |labels[0]|, labels[1..]);
    }
  }

  // The labels name_parse finds from `pos` on, after `jumps` pointers.
  function Read(p: seq<byte>, pos: nat, jumps: nat): Option<seq<seq<byte>>>
    requires jumps <= |p|
    decreases |p| - jumps, |p| - pos
  {
    if pos >= |p| then None
    else if p[pos] == 0 then Some([])
    else if p[pos] >= 64 then
      if pos + 1 >= |p| || Target(p[pos], p[pos + 1]) >= |p| || jumps == |p| then None
      else Read(p, Target(p[pos], p[pos + 1]), jumps + 1)
    else
      var n := p[pos] as nat;
      if pos + 1 + n > |p| then None else Put(p[pos + 1..pos + 1 + n], Read(p, pos + 1 + n, jumps))
  }

  function Put(l: seq<byte>, rest: Option<seq<seq<byte>>>): Option<seq<seq<byte>>> {
    if rest.None? then None else Some([l] + rest.value)
  }

  // Where the name that starts at `pos` ends: behind its zero, or behind its first pointer.
  function EndOf(p: seq<byte>, pos: nat): nat
    decreases |p| - pos
  {
    if pos >= |p| then pos
    else if p[pos] == 0 then pos + 1
    else if p[pos] >= 64 then pos + 2
    else EndOf(p, pos + 1 + p[pos] as nat)
  }

  // The parser finds what the packet holds: pointers lead backwards, so there are too few of
  // them for its guard against loops to matter.
  lemma {:induction false} HoldsRead(p: seq<byte>, run: nat, pos: nat, labels: seq<seq<byte>>, jumps: nat)
    requires Holds(p, run, pos, labels) && jumps + run <= |p|
    ensures Read(p, pos, jumps) == Some(labels)
    decreases |labels|, pos
  {
    if p[pos] == 0 {
    } else if p[pos] >= 64 {
      var t := Target(p[pos], p[pos + 1]);
      HoldsRead(p, t, t, labels, jumps + 1);
    } else {
      HoldsRead(p, run, pos + 1 + |labels[0]|, labels[1..], jumps);
      assert labels == [labels[0]] + labels[1..];
    }
  }

  lemma {:induction false} JoinPush(done: seq<seq<byte>>, l: seq<byte>)
    ensures Join(done + [l]) == if done == [] then l else Join(done) + [DOT] + l
  {
    if |done| > 1 {
      JoinPush(done[1..], l);
      assert (done + [l])[1..] == done[1..] + [l];
    } else if |done| == 1 {
      assert (done + [l])[1..] == [l];
    }
  }

  lemma {:induction false} JoinGrows(a: seq<seq<byte>>, b: seq<seq<byte>>)
    ensures |Join(a)| <= |Join(a + b)|
  {
    if a != [] {
      assert (a + b)[1..] == a[1..] + b;
      JoinGrows(a[1..], b);
      if |a| == 1 && b != [] {
        assert a[1..] + b == b;
      }
    }
  }

  // What the parser has found before the cursor, and what it finds from there on.
  function Found(done: seq<seq<byte>>, rest: Option<seq<seq<byte>>>): Option<seq<seq<byte>>> {
    if rest.None? then None else Some(done + rest.value)
  }

  // The name that is parsed: the labels, if they can be read and fit in the output.
  function Parsed(p: seq<byte>, pos: nat, room: nat): Option<seq<byte>> {
    var ls := Read(p, pos, 0);
    if ls.Some? && |Join(ls.value)| < room then Some(Join(ls.value)) else None
  }

  lemma TooLong(p: seq<byte>, pos: nat, room: nat, done: seq<seq<byte>>, l: seq<byte>, rest: Option<seq<seq<byte>>>)
    requires Read(p, pos, 0) == Found(done, Put(l, rest)) && |Join(done + [l])| >= room
    ensures Parsed(p, pos, room) == None
  {
    if rest.Some? {
      assert done + ([l] + rest.value) == done + [l] + rest.value;
      JoinGrows(done + [l], rest.value);
    }
  }

  lemma FoundFirst(rest: Option<seq<seq<byte>>>)
    ensures Found([], rest) == rest
  {
    if rest.Some? {
      assert [] + rest.value == rest.value;
    }
  }

  lemma FoundNext(done: seq<seq<byte>>, l: seq<byte>, rest: Option<seq<seq<byte>>>)
    ensures Found(done, Put(l, rest)) == Found(done + [l], rest)
  {
    if rest.Some? {
      assert done + ([l] + rest.value) == done + [l] + rest.value;
    }
  }

  // memcpy(out + at, d, |d|)
  method Copy(out: array<byte>, at: nat, d: seq<byte>)
    requires at + |d| <= out.Length
    modifies out
    ensures out[..] == old(out[..at]) + d + old(out[at + |d|..])
  {
    forall k | 0 <= k < |d| {
      out[at + k] := d[k];
    }
  }

  // One label of name_parse, at position j of the packet, behind cp bytes of the name.
  method PutLabel(packet: seq<byte>, j: nat, labelLen: nat, out: array<byte>, cp: nat) returns (ok: bool, cp': nat)
    requires cp <= out.Length && j <= |packet| && labelLen > 0
    modifies out
    ensures ok <==> j + labelLen <= |packet| && cp + (if cp == 0 then 0 else 1) + labelLen < out.Length
    ensures ok ==> cp' == cp + (if cp == 0 then 0 else 1) + labelLen
    ensures ok ==> out[..cp'] == old(out[..cp]) + (if cp == 0 then [] else [DOT]) + packet[j..j + labelLen]
  {
    cp' := cp;
    if cp' != 0 {
      if cp' + 1 >= out.Length {
        return false, cp;
      }
      out[cp'] := DOT;
      cp' := cp' + 1;
    }
    if cp' + labelLen >= out.Length {
      return false, cp;
    }
    if j + labelLen > |packet| {
      return false, cp;
    }
    assert out[..cp'] == old(out[..cp]) + if cp == 0 then [] else [DOT];
    Copy(out, cp', packet[j..j + labelLen]);
    cp' := cp' + labelLen;
    ok := true;
  }

  // What name_parse knows at its cursor.
  ghost predicate Parsing(packet: seq<byte>, idx: nat, j: nat, ptrCount: nat, nameEnd: int, done: seq<seq<byte>>, name: seq<byte>) {
    && ptrCount <= |packet| && name == Join(done) && NoEmpty(done)
    && Read(packet, idx, 0) == Found(done, Read(packet, j, ptrCount))
    && EndOf(packet, idx) == if nameEnd < 0 then EndOf(packet, j) else nameEnd
  }

  // Following a pointer.
  lemma Jumped(packet: seq<byte>, idx: nat, j: nat, ptrCount: nat, nameEnd: int, done: seq<seq<byte>>, name: seq<byte>)
    requires Parsing(packet, idx, j, ptrCount, nameEnd, done, name) && j < |packet| && packet[j] >= 64
    ensures j + 1 < |packet| && Target(packet[j], packet[j + 1]) < |packet| && ptrCount < |packet| ==>
              Parsing(packet, idx, Target(packet[j], packet[j + 1]), ptrCount + 1, if nameEnd < 0 then j + 2 else nameEnd, done, name)
    ensures (j + 1 < |packet| && Target(packet[j], packet[j + 1]) < |packet| && ptrCount < |packet|) || Read(packet, idx, 0) == None
  {
  }

  // Taking a label.
  lemma Labelled(packet: seq<byte>, idx: nat, j: nat, ptrCount: nat, nameEnd: int, done: seq<seq<byte>>, name: seq<byte>, room: nat)
    requires Parsing(packet, idx, j, ptrCount, nameEnd, done, name) && j < |packet| && 0 < packet[j] < 64
    requires |name| < room || done == []
    ensures var n := packet[j] as nat; var sep := if done == [] then [] else [DOT];
            if j + 1 + n > |packet| then Read(packet, idx, 0) == None
            else if |name| + |sep| + n >= room then Parsed(packet, idx, room) == None
            else
              var l := packet[j + 1..j + 1 + n];
              Parsing(packet, idx, j + 1 + n, ptrCount, nameEnd, done + [l], name + sep + l)
  {
    var n := packet[j] as nat;
    if j + 1 + n <= |packet| {
      var l := packet[j + 1..j + 1 + n];
      JoinPush(done, l);
      FoundNext(done, l, Read(packet, j + 1 + n, ptrCount));
      if |Join(done + [l])| >= room {
        TooLong(packet, idx, room, done, l, Read(packet, j + 1 + n, ptrCount));
      }
      assert [] + [] + l == l;
    }
  }

  lemma NoRoom(packet: seq<byte>, idx: nat, j: nat, ptrCount: nat, nameEnd: int, done: seq<seq<byte>>, name: seq<byte>, room: nat)
    requires Parsing(packet, idx, j, ptrCount, nameEnd, done, name)
    ensures j < |packet| && packet[j] == 0 ==> Read(packet, idx, 0) == Some(done)
    ensures j >= |packet| ==> Read(packet, idx, 0) == None
    ensures (name == [] <==> done == [])
  {
    assert done + [] == done;
  }

  // name_parse; the name is written to nameOut with a terminating zero. On failure idx stays.
  method NameParse(packet: seq<byte>, idx: nat, nameOut: array<byte>) returns (result: int, idx': nat)
    modifies nameOut
    ensures var r := Parsed(packet, idx, nameOut.Length);
            if r.None? then result == -1 && idx' == idx
            else result == 0 && idx' == EndOf(packet, idx) && |r.value| < nameOut.Length &&
                 nameOut[..|r.value|] == r.value && nameOut[|r.value|] == 0
  {
    hide Read, EndOf, Parsing, Target;
    var j: nat, cp: nat, ptrCount: nat, nameEnd: int := idx, 0, 0, -1;
    ghost var done: seq<seq<byte>> := [];
    assert Parsing(packet, idx, j, 0, -1, done, nameOut[..0]) by { ParsingStart(packet, idx); }
    while true
      invariant cp <= nameOut.Length && (cp < nameOut.Length || done == [])
      invariant Parsing(packet, idx, j, ptrCount, nameEnd, done, nameOut[..cp])
      invariant ptrCount <= |packet|
      decreases |packet| - ptrCount, |packet| - j
    {
      NoRoom(packet, idx, j, ptrCount, nameEnd, done, nameOut[..cp], nameOut.Length);
      if j >= |packet| {
        return -1, idx;
      }
      var labelLen := packet[j] as nat;
      if labelLen == 0 {
        EndHere(packet, idx, j, ptrCount, nameEnd, done, nameOut[..cp]);
        j := j + 1;
        break;
      }
      if labelLen >= 64 {
        Jumped(packet, idx, j, ptrCount, nameEnd, done, nameOut[..cp]);
        j := j + 1;
        if j >= |packet| {
          return -1, idx;
        }
        var target := Target(packet[j - 1], packet[j]);
        j := j + 1;
        if nameEnd < 0 {
          nameEnd := j;
        }
        j := target;
        if j >= |packet| {
          return -1, idx;
        }
        ptrCount := ptrCount + 1;
        if ptrCount > |packet| {
          return -1, idx;
        }
      } else {
        Labelled(packet, idx, j, ptrCount, nameEnd, done, nameOut[..cp], nameOut.Length);
        j := j + 1;
        var ok;
        ok, cp := PutLabel(packet, j, labelLen, nameOut, cp);
        if !ok {
          return -1, idx;
        }
        done := done + [packet[j..j + labelLen]];
        j := j + labelLen;
      }
    }
    if cp >= nameOut.Length {
      return -1, idx;
    }
    nameOut[cp] := 0;
    result := 0;
    idx' := if nameEnd < 0 then j else nameEnd;
  }

  lemma ParsingStart(packet: seq<byte>, idx: nat)
    ensures Parsing(packet, idx, idx, 0, -1, [], [])
  {
    FoundFirst(Read(packet, idx, 0));
  }

  lemma EndHere(packet: seq<byte>, idx: nat, j: nat, ptrCount: nat, nameEnd: int, done: seq<seq<byte>>, name: seq<byte>)
    requires Parsing(packet, idx, j, ptrCount, nameEnd, done, name) && j < |packet| && packet[j] == 0
    ensures Read(packet, idx, 0) == Some(done) && name == Join(done)
    ensures EndOf(packet, idx) == if nameEnd < 0 then j + 1 else nameEnd
  {
    assert done + [] == done;
  }

  // struct dnslabel_entry: a suffix of a name, and where it is in the packet.
  datatype LabelEntry = LabelEntry(v: seq<byte>, pos: nat)

  // struct dnslabel_table
  class LabelTable {
    var labels: seq<LabelEntry>

    constructor ()
      ensures labels == []
    {
      labels := [];
    }

    // dnslabel_table_get_pos: the position of the first entry for the suffix, or -1.
    method GetPos(v: seq<byte>) returns (pos: int)
      ensures if pos < 0 then pos == -1 && forall i :: 0 <= i < |labels| ==> labels[i].v != v
              else exists i :: 0 <= i < |labels| && labels[i] == LabelEntry(v, pos) && forall k :: 0 <= k < i ==> labels[k].v != v
    {
      for i := 0 to |labels|
        invariant forall k :: 0 <= k < i ==> labels[k].v != v
      {
        if labels[i].v == v {
          return labels[i].pos;
        }
      }
      return -1;
    }

    // dnslabel_table_add; a full table forgets the suffix.
    method Add(v: seq<byte>, pos: nat) returns (result: int)
      modifies this
      ensures if |old(labels)| == MAX_LABELS then result == -1 && labels == old(labels)
              else result == 0 && labels == old(labels) + [LabelEntry(v, pos)]
    {
      if |labels| == MAX_LABELS {
        return -1;
      }
      labels := labels + [LabelEntry(v, pos)];
      result := 0;
    }
  }

  // Every entry points to bytes that hold its suffix.
  ghost predicate TableOk(entries: seq<LabelEntry>, p: seq<byte>) {
    forall i :: 0 <= i < |entries| ==> Holds(p, entries[i].pos, entries[i].pos, Visible(Split(entries[i].v)))
  }

  // Every entry is near enough for a pointer.
  ghost predicate Near(entries: seq<LabelEntry>) {
    forall i :: 0 <= i < |entries| ==> entries[i].pos < REACH_LIMIT
  }

  // The bytes of ref | 0xc000, in network order.
  function PointerHigh(ref: nat): byte {
    (192 + ref / 256 % 64) as byte
  }

  function PointerLow(ref: nat): byte {
    (ref % 256) as byte
  }

  // A pointer leads back to its entry exactly when the entry is near enough.
  lemma PointerExact(ref: nat)
    ensures Target(PointerHigh(ref), PointerLow(ref)) == ref <==> ref < REACH_LIMIT
  {
  }

  // The offset of label m in a name, and in its encoding.
  function Off(ls: seq<seq<byte>>, m: nat): nat
    requires m <= |ls|
  {
    if m == 0 then 0 else Off(ls, m - 1) + |ls[m - 1]| + 1
  }

  // The first m labels have been written, from position s on.
  ghost predicate Written(p: seq<byte>, s: nat, ls: seq<seq<byte>>, m: nat) {
    m <= |ls| && forall x :: 0 <= x < m ==> LabelAt(p, s + Off(ls, x), ls[x])
  }

  lemma WrittenAt(p: seq<byte>, s: nat, ls: seq<seq<byte>>, m: nat, x: nat)
    requires Written(p, s, ls, m) && x < m
    ensures LabelAt(p, s + Off(ls, x), ls[x]) && Off(ls, x + 1) == Off(ls, x) + |ls[x]| + 1
  {
    hide LabelAt;
  }

  lemma HoldsLabel(p: seq<byte>, s: nat, pos: nat, ls: seq<seq<byte>>)
    requires ls != [] && s <= pos && LabelAt(p, pos, ls[0])
    requires ls[0] == [] || Holds(p, s, pos + 1 + |ls[0]|, Visible(ls[1..]))
    ensures Holds(p, s, pos, Visible(ls))
  {
    if ls[0] != [] {
      assert Visible(ls)[1..] == Visible(ls[1..]);
    }
  }

  // Once the end of a name is there, each of its suffixes is.
  lemma {:induction false} Complete(p: seq<byte>, s: nat, ls: seq<seq<byte>>, m: nat, x: nat)
    requires Written(p, s, ls, m) && x <= m <= |ls| && Holds(p, s, s + Off(ls, m), Visible(ls[m..]))
    ensures Holds(p, s, s + Off(ls, x), Visible(ls[x..]))
    decreases m - x
  {
    hide Written, Off, Holds, LabelAt, Visible;
    if x < m {
      Complete(p, s, ls, m, x + 1);
      WrittenAt(p, s, ls, m, x);
      assert ls[x..][0] == ls[x] && ls[x..][1..] == ls[x + 1..];
      HoldsLabel(p, s, s + Off(ls, x), ls[x..]);
    }
  }

  lemma OffNext(ls: seq<seq<byte>>, m: nat)
    requires m < |ls|
    ensures Off(ls, m + 1) == Off(ls, m) + |ls[m]| + 1
  {
  }

  lemma OffZero(ls: seq<seq<byte>>)
    ensures Off(ls, 0) == 0
  {
  }

  lemma WrittenLess(p: seq<byte>, s: nat, ls: seq<seq<byte>>, m: nat)
    requires Written(p, s, ls, m) && m > 0
    ensures Written(p, s, ls, m - 1)
  {
    hide LabelAt, Off;
  }

  lemma EndLabel(p: seq<byte>, pos: nat, l: seq<byte>)
    requires LabelAt(p, pos, l) && l != []
    ensures EndOf(p, pos) == EndOf(p, pos + 1 + |l|)
  {
  }

  // Without empty labels, the parser gets to where the writer is.
  lemma {:induction false} EndWritten(p: seq<byte>, s: nat, ls: seq<seq<byte>>, m: nat)
    requires Written(p, s, ls, m) && NoEmpty(ls) && m <= |ls|
    ensures EndOf(p, s) == EndOf(p, s + Off(ls, m))
  {
    hide Written, Off, LabelAt;
    if m == 0 {
      assert Off(ls, 0) == 0 by { OffZero(ls); }
    } else {
      WrittenAt(p, s, ls, m, m - 1);
      WrittenLess(p, s, ls, m);
      EndWritten(p, s, ls, m - 1);
      EndLabel(p, s + Off(ls, m - 1), ls[m - 1]);
    }
  }

  lemma {:induction false} EndExtend(p: seq<byte>, q: seq<byte>, run: nat, pos: nat, labels: seq<seq<byte>>)
    requires Holds(p, run, pos, labels) && p <= q
    ensures EndOf(q, pos) == EndOf(p, pos)
    decreases |labels|
  {
    if 0 < p[pos] < 64 {
      EndExtend(p, q, run, pos + 1 + |labels[0]|, labels[1..]);
    }
  }

  // The suffixes of the name being written that have been entered in the table: entry x is for
  // the labels from ms[x] on. All are longer than the n bytes that are left.
  ghost predicate Entered(added: seq<LabelEntry>, ms: seq<nat>, s: nat, ls: seq<seq<byte>>, m: nat, n: int) {
    && |ms| == |added| && m <= |ls|
    && forall x :: 0 <= x < |added| ==>
         ms[x] < m && Split(added[x].v) == ls[ms[x]..] && added[x].pos == s + Off(ls, ms[x]) && |added[x].v| > n
  }

  // When the name is complete, so is the table.
  lemma TableComplete(e: seq<LabelEntry>, added: seq<LabelEntry>, ms: seq<nat>, p: seq<byte>, q: seq<byte>, s: nat,
                      ls: seq<seq<byte>>, m: nat, n: int)
    requires TableOk(e, p) && p <= q && Entered(added, ms, s, ls, |ls|, n)
    requires m <= |ls| && Written(q, s, ls, m) && Holds(q, s, s + Off(ls, m), Visible(ls[m..]))
    requires forall x :: 0 <= x < |ms| ==> ms[x] <= m
    ensures TableOk(e + added, q)
  {
    hide Holds, Split, Visible, Written;
    forall i | 0 <= i < |e + added| ensures Holds(q, (e + added)[i].pos, (e + added)[i].pos, Visible(Split((e + added)[i].v))) {
      if i < |e| {
        HoldsExtend(p, q, e[i].pos, e[i].pos, Visible(Split(e[i].v)));
      } else {
        var x := i - |e|;
        Complete(q, s, ls, m, ms[x]);
        HoldsEnter(q, s, added[x].pos, added[x].pos, Visible(ls[ms[x]..]));
      }
    }
  }

  // The suffix of a name from byte i on.
  function Tail(name: seq<byte>, i: nat): seq<byte> {
    if i <= |name| then name[i..] else []
  }

  lemma TailIs(name: seq<byte>, i: nat)
    requires i <= |name|
    ensures Tail(name, i) == name[i..]
  {
  }

  // Does the table hold suffix v?
  ghost predicate Known(e: seq<LabelEntry>, v: seq<byte>) {
    exists y :: 0 <= y < |e| && e[y].v == v
  }

  // The table holds no suffix of the name that begins before label m.
  ghost predicate Unknown(e: seq<LabelEntry>, name: seq<byte>, m: nat) {
    m <= |Split(name)| && forall x :: 0 <= x < m ==> !Known(e, Tail(name, Off(Split(name), x)))
  }

  // Labels before the m-th are short, and fit.
  ghost predicate Reached(ls: seq<seq<byte>>, s: nat, bufLen: nat, m: nat) {
    m <= |ls| && (forall x :: 0 <= x < m ==> |ls[x]| <= MAX_LABEL) && s + Off(ls, m) <= bufLen
  }

  // dnsname_to_labels ends at label m with r, the name being written from s on and the table being e: behind
  // all labels, at the first suffix the table holds, or at a label that is too long or does not fit.
  ghost predicate Outcome(name: seq<byte>, s: nat, bufLen: nat, e: seq<LabelEntry>, m: nat, r: int) {
    var ls := Split(name);
    && Reached(ls, s, bufLen, m) && Unknown(e, name, m)
    && if m == |ls| then r == s + |name| + (if ls[m - 1] == [] then 1 else 2)
       else if Known(e, Tail(name, Off(ls, m))) then r == if s + Off(ls, m) + 2 > bufLen then -2 else s + Off(ls, m) + 2
       else if |ls[m]| > MAX_LABEL then r == -1
       else s + Off(ls, m + 1) > bufLen && r == -2
  }

  // The first n suffixes of a name that begins at s, as they are entered in the table.
  function Entries(name: seq<byte>, s: nat, n: nat): (added: seq<LabelEntry>)
    requires n <= |Split(name)|
    ensures |added| == n
  {
    seq(n, x requires 0 <= x < n => LabelEntry(Tail(name, Off(Split(name), x)), s + Off(Split(name), x)))
  }

  // How many of m suffixes a table with n entries has room for.
  function Kept(n: nat, m: nat): (k: nat)
    ensures k <= m
  {
    if n + m <= MAX_LABELS then m else if n <= MAX_LABELS then MAX_LABELS - n else 0
  }

  // The table with the first m suffixes of a name entered, as far as there is room.
  ghost predicate Filled(e: seq<LabelEntry>, after: seq<LabelEntry>, name: seq<byte>, s: nat, m: nat) {
    |e| <= MAX_LABELS && m <= |Split(name)| ==> after == e + Entries(name, s, Kept(|e|, m))
  }

  // The first m labels of the name are there, and then a pointer to the first entry for the rest, or a zero.
  ghost predicate Spelled(q: seq<byte>, s: nat, name: seq<byte>, e: seq<LabelEntry>, m: nat) {
    var ls := Split(name);
    && Written(q, s, ls, m)
    && if m == |ls| then q != [] && q[|q| - 1] == 0
       else exists y :: 0 <= y < |e| && e[y].v == Tail(name, Off(ls, m)) && (forall k :: 0 <= k < y ==> e[k].v != e[y].v)
              && |q| >= 2 && q[|q| - 2..] == [PointerHigh(e[y].pos), PointerLow(e[y].pos)]
  }

  // What dnsname_to_labels has done, exactly.
  ghost predicate Exactly(buf: array<byte>, bufLen: nat, s: nat, name: seq<byte>, table: LabelTable?, e: seq<LabelEntry>, r: int)
    requires r <= buf.Length
    reads buf, table
  {
    exists m: nat ::
      && Outcome(name, s, bufLen, e, m, r)
      && (r >= 0 ==> Spelled(buf[..r], s, name, e, m) && (table != null ==> Filled(e, table.labels, name, s, m)))
  }

  // How far it has come: m labels have been written, and entered if there is a table.
  ghost predicate Underway(name: seq<byte>, s: nat, bufLen: nat, e: seq<LabelEntry>, added: seq<LabelEntry>, m: nat, tabled: bool) {
    Reached(Split(name), s, bufLen, m) && Unknown(e, name, m) && (tabled ==> Filled(e, e + added, name, s, m))
  }

  lemma UnderwayStart(name: seq<byte>, s: nat, bufLen: nat, e: seq<LabelEntry>, tabled: bool)
    requires s <= bufLen
    ensures Underway(name, s, bufLen, e, [], 0, tabled)
  {
    hide Split;
    assert e + [] == e && Entries(name, s, 0) == [];
  }

  // One more label has been written.
  lemma UnderwayNext(name: seq<byte>, s: nat, bufLen: nat, e: seq<LabelEntry>, added: seq<LabelEntry>, after: seq<LabelEntry>, m: nat, tabled: bool)
    requires Underway(name, s, bufLen, e, added, m, tabled) && m < |Split(name)|
    requires var ls := Split(name); |ls[m]| <= MAX_LABEL && s + Off(ls, m + 1) <= bufLen && !Known(e, Tail(name, Off(ls, m)))
    requires var i := Off(Split(name), m);
      tabled ==> after == if |e + added| == MAX_LABELS then added else added + [LabelEntry(Tail(name, i), s + i)]
    ensures Underway(name, s, bufLen, e, after, m + 1, tabled)
  {
    hide Split, Off, Known;
    if tabled && |e| <= MAX_LABELS {
      var k := Kept(|e|, m);
      assert e + added == e + Entries(name, s, k);
      assert added == (e + added)[|e|..] == Entries(name, s, k);
      if |e| + m < MAX_LABELS {
        assert Entries(name, s, k + 1) == Entries(name, s, k) + [LabelEntry(Tail(name, Off(Split(name), m)), s + Off(Split(name), m))];
      }
    }
  }

  // A label is too long, or does not fit.
  lemma FailedOutcome(name: seq<byte>, s: nat, bufLen: nat, e: seq<LabelEntry>, added: seq<LabelEntry>, m: nat, tabled: bool, r: int)
    requires Underway(name, s, bufLen, e, added, m, tabled) && m < |Split(name)| && !Known(e, Tail(name, Off(Split(name), m)))
    requires var ls := Split(name); (|ls[m]| > MAX_LABEL && r == -1) || (|ls[m]| <= MAX_LABEL && s + Off(ls, m + 1) > bufLen && r == -2)
    ensures Outcome(name, s, bufLen, e, m, r)
  {
    hide Split, Off, Known;
  }

  // The rest of the name is in the table.
  lemma PointerOutcome(name: seq<byte>, s: nat, bufLen: nat, e: seq<LabelEntry>, added: seq<LabelEntry>, m: nat, tabled: bool, y: nat, r: int)
    requires Underway(name, s, bufLen, e, added, m, tabled) && m < |Split(name)| && y < |e| && e[y].v == Tail(name, Off(Split(name), m))
    requires r == if s + Off(Split(name), m) + 2 > bufLen then -2 else s + Off(Split(name), m) + 2
    ensures Outcome(name, s, bufLen, e, m, r)
  {
    hide Split, Off;
  }

  // All labels have been written, and the zero behind them.
  lemma ZeroOutcome(name: seq<byte>, s: nat, bufLen: nat, e: seq<LabelEntry>, added: seq<LabelEntry>, tabled: bool, r: int)
    requires Underway(name, s, bufLen, e, added, |Split(name)|, tabled)
    requires r == s + |name| + if Split(name)[|Split(name)| - 1] == [] then 1 else 2
    ensures Outcome(name, s, bufLen, e, |Split(name)|, r)
  {
    hide Split, Off, Known;
  }

  // One label of dnsname_to_labels, at position j; `suffix` is the name from it on.
  method WriteLabel(buf: array<byte>, bufLen: nat, j: nat, l: seq<byte>, suffix: seq<byte>, table: LabelTable?) returns (r: int)
    requires bufLen < buf.Length
    modifies buf, if table == null then {} else {table}
    ensures r == if |l| > MAX_LABEL then -1 else if j + |l| + 1 > bufLen then -2 else j + 1 + |l|
    ensures r >= 0 ==> r <= bufLen && buf[..j] == old(buf[..j]) && LabelAt(buf[..r], j, l)
    ensures r < 0 ==> buf[..] == old(buf[..])
    ensures table != null ==> table.labels == if r < 0 || |old(table.labels)| == MAX_LABELS then old(table.labels)
                                              else old(table.labels) + [LabelEntry(suffix, j)]
  {
    if |l| > MAX_LABEL {
      return -1;
    }
    if j + |l| + 1 > bufLen {
      return -2;
    }
    if table != null {
      var _ := table.Add(suffix, j);
    }
    buf[j] := |l| as byte;
    Copy(buf, j + 1, l);
    r := j + 1 + |l|;
  }

  // What the writer knows: m labels of `name`, which started at s, have been written, and
  // bytes i.. of the name are left.
  ghost predicate Writing(p: seq<byte>, s: nat, name: seq<byte>, i: nat, m: nat) {
    && i <= |name| && |p| == s + i && m < |Split(name)|
    && Written(p, s, Split(name), m) && Off(Split(name), m) == i && Split(name[i..]) == Split(name)[m..]
  }

  lemma WrittenExtend(p: seq<byte>, q: seq<byte>, s: nat, ls: seq<seq<byte>>, m: nat)
    requires Written(p, s, ls, m) && p <= q
    ensures Written(q, s, ls, m)
  {
    forall x | 0 <= x < m ensures LabelAt(q, s + Off(ls, x), ls[x]) {
      var pos, n := s + Off(ls, x), |ls[x]|;
      assert LabelAt(p, pos, ls[x]);
      assert q[pos + 1..pos + 1 + n] == p[pos + 1..pos + 1 + n];
    }
  }

  lemma WrittenPush(q: seq<byte>, s: nat, ls: seq<seq<byte>>, m: nat)
    requires Written(q, s, ls, m) && m < |ls| && LabelAt(q, s + Off(ls, m), ls[m])
    ensures Written(q, s, ls, m + 1)
  {
    hide LabelAt, Off;
  }

  lemma SplitIs(name: seq<byte>)
    ensures var k := FirstDot(name); var ls := Split(name);
            && ls[0] == name[..k] && (|ls| == 1 <==> k == |name|)
            && (k < |name| ==> ls[1..] == Split(name[k + 1..]))
  {
  }

  // The next label of a name whose first m labels end before position i.
  lemma NextSplit(name: seq<byte>, i: nat, m: nat)
    requires i <= |name| && m < |Split(name)| && Split(name[i..]) == Split(name)[m..]
    ensures var k := FirstDot(name[i..]); var ls := Split(name);
            && ls[m] == name[i..i + k] && (i + k == |name| <==> m + 1 == |ls|)
            && (i + k < |name| ==> Split(name[i + k + 1..]) == ls[m + 1..])
  {
    hide Split, FirstDot;
    var rest, ls := name[i..], Split(name);
    var k := FirstDot(rest);
    var tail := ls[m..];
    SplitIs(rest);
    assert tail[0] == ls[m] && |tail| == |ls| - m;
    assert rest[..k] == name[i..i + k];
    if k < |rest| {
      assert rest[k + 1..] == name[i + k + 1..];
      assert tail[1..] == ls[m + 1..];
    }
  }

  // The next label has been written.
  lemma NextLabel(p: seq<byte>, q: seq<byte>, s: nat, name: seq<byte>, i: nat, m: nat)
    requires Writing(p, s, name, i, m) && p <= q
    ensures var k := FirstDot(name[i..]); var ls := Split(name);
            LabelAt(q, s + i, name[i..i + k]) ==>
              Written(q, s, ls, m + 1) && Off(ls, m + 1) == i + k + 1 &&
              (i + k < |name| && |q| == s + i + k + 1 ==> Writing(q, s, name, i + k + 1, m + 1))
  {
    hide Split, Written, LabelAt, FirstDot;
    NextSplit(name, i, m);
    WrittenExtend(p, q, s, Split(name), m);
    if LabelAt(q, s + i, name[i..i + FirstDot(name[i..])]) {
      WrittenPush(q, s, Split(name), m);
    }
  }

  // The end of a name by a pointer to an entry for what is left of it.
  lemma FinishPointer(e: seq<LabelEntry>, p0: seq<byte>, p: seq<byte>, q: seq<byte>, s: nat, name: seq<byte>, i: nat, m: nat, ref: nat)
    requires Writing(p, s, name, i, m) && |p0| == s && p0 <= q && TableOk(e, p0) && Near(e)
    requires exists x :: 0 <= x < |e| && e[x] == LabelEntry(name[i..], ref)
    requires q == p + [PointerHigh(ref), PointerLow(ref)]
    ensures Holds(q, s, s + Off(Split(name), m), Visible(Split(name)[m..]))
    ensures EndOf(q, s + Off(Split(name), m)) == |q|
  {
    hide Split, Visible, Written, Off, Holds, EndOf, PointerHigh, PointerLow;
    var x :| 0 <= x < |e| && e[x] == LabelEntry(name[i..], ref);
    var v := Visible(Split(name[i..]));
    assert Holds(p0, ref, ref, v);
    HoldsExtend(p0, q, ref, ref, v);
    EntryBefore(p0, ref, v);
    PointerHolds(p, q, s, ref, v);
  }

  lemma EntryBefore(p: seq<byte>, pos: nat, labels: seq<seq<byte>>)
    requires Holds(p, pos, pos, labels)
    ensures pos < |p|
  {
  }

  // A pointer to where the packet holds labels.
  lemma PointerHolds(p: seq<byte>, q: seq<byte>, run: nat, ref: nat, labels: seq<seq<byte>>)
    requires run <= |p| && ref < run && ref < REACH_LIMIT && q == p + [PointerHigh(ref), PointerLow(ref)] && Holds(q, ref, ref, labels)
    ensures Holds(q, run, |p|, labels) && EndOf(q, |p|) == |q|
  {
    PointerExact(ref);
  }

  // The end of a name by a zero, unless its last label is empty and so a zero itself.
  lemma FinishZero(p: seq<byte>, q: seq<byte>, s: nat, ls: seq<seq<byte>>) returns (m: nat)
    requires ls != [] && Written(p, s, ls, |ls|) && |p| == s + Off(ls, |ls|)
    requires q == if ls[|ls| - 1] == [] then p else p + [0]
    ensures |ls| - 1 <= m <= |ls| && Written(q, s, ls, m) && Holds(q, s, s + Off(ls, m), Visible(ls[m..]))
    ensures NoEmpty(ls) || |ls| == 1 ==> EndOf(q, s + Off(ls, m)) == |q|
    ensures NoEmpty(ls) ==> m == |ls|
    ensures ls[|ls| - 1] == [] ==> m == |ls| - 1
  {
    hide LabelAt;
    WrittenExtend(p, q, s, ls, |ls|);
    if ls[|ls| - 1] == [] {
      m := |ls| - 1;
      WrittenAt(q, s, ls, |ls|, m);
      WrittenLess(q, s, ls, |ls|);
      assert ls[m..] == [[]];
      HoldsLabel(q, s, s + Off(ls, m), ls[m..]);
      ZeroByte(q, s + Off(ls, m));
    } else {
      m := |ls|;
      assert ls[m..] == [];
    }
  }

  lemma ZeroByte(q: seq<byte>, pos: nat)
    requires LabelAt(q, pos, [])
    ensures EndOf(q, pos) == pos + 1
  {
  }

  // The packet holds the name just written, and the parser gets to its end if no label is empty.
  ghost predicate Encoded(q: seq<byte>, s: nat, name: seq<byte>) {
    && Holds(q, s, s, Visible(Split(name)))
    && (name == [] || NoEmpty(Split(name)) ==> EndOf(q, s) == |q|)
  }

  lemma FinishName(q: seq<byte>, s: nat, name: seq<byte>, m: nat)
    requires m <= |Split(name)| && Written(q, s, Split(name), m)
    requires Holds(q, s, s + Off(Split(name), m), Visible(Split(name)[m..]))
    requires NoEmpty(Split(name)) || name == [] ==> EndOf(q, s + Off(Split(name), m)) == |q|
    requires name == [] ==> m == 0
    ensures Encoded(q, s, name)
  {
    hide Written, Holds, Split, Visible;
    var ls := Split(name);
    Complete(q, s, ls, m, 0);
    assert ls[0..] == ls;
    OffZero(ls);
    if NoEmpty(ls) {
      EndWritten(q, s, ls, m);
    }
  }

  // The table entries of the name being written.
  lemma EnteredNext(added: seq<LabelEntry>, ms: seq<nat>, s: nat, name: seq<byte>, i: nat, m: nat, n: int)
    requires i <= |name| && m < |Split(name)| && Split(name[i..]) == Split(name)[m..] && i == Off(Split(name), m)
    requires Entered(added, ms, s, Split(name), m, |name| - i) && n < |name| - i
    ensures Entered(added, ms, s, Split(name), m + 1, n)
    ensures Entered(added + [LabelEntry(name[i..], s + i)], ms + [m], s, Split(name), m + 1, n)
  {
    hide Split, Off;
  }

  lemma EnteredAll(added: seq<LabelEntry>, ms: seq<nat>, s: nat, ls: seq<seq<byte>>, m: nat, n: int)
    requires Entered(added, ms, s, ls, m, n)
    ensures Entered(added, ms, s, ls, |ls|, n)
  {
    hide Split, Off;
  }

  // A suffix that is found in the table has been there before the name.
  lemma NotEntered(e: seq<LabelEntry>, added: seq<LabelEntry>, ms: seq<nat>, s: nat, name: seq<byte>, i: nat, m: nat, ref: nat)
    requires i <= |name| && Entered(added, ms, s, Split(name), m, |name| - i)
    requires exists x :: 0 <= x < |e + added| && (e + added)[x] == LabelEntry(name[i..], ref)
    ensures exists x :: 0 <= x < |e| && e[x] == LabelEntry(name[i..], ref)
  {
    hide Split, Off;
    var x :| 0 <= x < |e + added| && (e + added)[x] == LabelEntry(name[i..], ref);
    assert forall y :: 0 <= y < |added| ==> (e + added)[|e| + y] == added[y] && |added[y].v| > |name[i..]|;
    assert x < |e|;
    assert (e + added)[x] == e[x];
  }

  lemma WritingStart(p: seq<byte>, s: nat, name: seq<byte>)
    requires |p| == s
    ensures Writing(p, s, name, 0, 0) && Entered([], [], s, Split(name), 0, |name|)
  {
    assert name[0..] == name && Split(name)[0..] == Split(name);
  }

  // The whole name has been written, with a pointer at its end.
  lemma DonePointer(e: seq<LabelEntry>, added: seq<LabelEntry>, ms: seq<nat>, p0: seq<byte>, p: seq<byte>, q: seq<byte>,
                    s: nat, name: seq<byte>, i: nat, m: nat, ref: nat)
    requires Writing(p, s, name, i, m) && |p0| == s && p0 <= q && TableOk(e, p0) && Near(e)
    requires exists x :: 0 <= x < |e + added| && (e + added)[x] == LabelEntry(name[i..], ref)
    requires q == p + [PointerHigh(ref), PointerLow(ref)]
    requires Entered(added, ms, s, Split(name), m, |name| - i)
    ensures Encoded(q, s, name) && TableOk(e + added, q)
  {
    hide Split, Holds, Visible, Encoded, LabelAt, TableOk, Near, Off, Written;
    var ls := Split(name);
    NotEntered(e, added, ms, s, name, i, m, ref);
    FinishPointer(e, p0, p, q, s, name, i, m, ref);
    WrittenExtend(p, q, s, ls, m);
    DoneTail(e, added, ms, p0, q, s, name, |name| - i, m);
  }

  // Once what is behind the first m labels is held, the name and the table are complete.
  lemma DoneTail(e: seq<LabelEntry>, added: seq<LabelEntry>, ms: seq<nat>, p0: seq<byte>, q: seq<byte>, s: nat, name: seq<byte>, n: int, m: nat)
    requires m < |Split(name)| && Written(q, s, Split(name), m) && p0 <= q && TableOk(e, p0) && Entered(added, ms, s, Split(name), m, n)
    requires Holds(q, s, s + Off(Split(name), m), Visible(Split(name)[m..])) && EndOf(q, s + Off(Split(name), m)) == |q|
    ensures Encoded(q, s, name) && TableOk(e + added, q)
  {
    hide Split, Holds, Visible, Encoded, LabelAt, TableOk, Off, Written;
    if name == [] {
      RootSplit(name);
    }
    FinishName(q, s, name, m);
    EnteredAll(added, ms, s, Split(name), m, n);
    TableComplete(e, added, ms, p0, q, s, Split(name), m, n);
  }

  lemma RootSplit(name: seq<byte>)
    requires name == []
    ensures Split(name) == [[]]
  {
  }

  // The whole name has been written, with a zero at its end.
  lemma DoneZero(e: seq<LabelEntry>, added: seq<LabelEntry>, ms: seq<nat>, p0: seq<byte>, p: seq<byte>, q: seq<byte>,
                 s: nat, name: seq<byte>, n: int)
    requires Written(p, s, Split(name), |Split(name)|) && |p| == s + Off(Split(name), |Split(name)|)
    requires p0 <= q && q == if Split(name)[|Split(name)| - 1] == [] then p else p + [0]
    requires Entered(added, ms, s, Split(name), |Split(name)|, n)
    ensures Encoded(q, s, name)
    ensures TableOk(e, p0) ==> TableOk(e + added, q)
  {
    hide Split, Holds, Visible, Encoded, LabelAt, TableOk, Near, Off, Written;
    var ls := Split(name);
    var m := FinishZero(p, q, s, ls);
    if name == [] {
      RootSplit(name);
    }
    FinishName(q, s, name, m);
    if TableOk(e, p0) {
      TableComplete(e, added, ms, p0, q, s, ls, m, n);
    }
  }

  // APPEND16(ref | 0xc000)
  method WritePointer(buf: array<byte>, bufLen: nat, j: nat, ref: nat) returns (r: int)
    requires bufLen < buf.Length
    modifies buf
    ensures r == if j + 2 > bufLen then -2 else j + 2
    ensures r >= 0 ==> buf[..r] == old(buf[..j]) + [PointerHigh(ref), PointerLow(ref)]
    ensures r < 0 ==> buf[..] == old(buf[..])
  {
    if j + 2 > bufLen {
      return -2;
    }
    buf[j] := PointerHigh(ref);
    buf[j + 1] := PointerLow(ref);
    r := j + 2;
  }

  // The terminating zero, unless it is already there.
  method WriteZero(buf: array<byte>, j: nat, ghost l: seq<byte>, ghost at: nat) returns (r: nat)
    requires j < buf.Length && LabelAt(buf[..j], at, l) && j == at + 1 + |l| && 0 !in l
    modifies buf
    ensures buf[..j] == old(buf[..j]) && r == if l == [] then j else j + 1
    ensures r <= buf.Length && buf[..r] == if l == [] then buf[..j] else buf[..j] + [0]
  {
    r := j;
    assert buf[at] as int == |l| by {
      assert buf[..j][at] == buf[at];
    }
    assert l != [] ==> buf[j - 1] == l[|l| - 1] by {
      if l != [] {
        assert buf[..j][at + 1..at + 1 + |l|][|l| - 1] == buf[..j][j - 1];
      }
    }
    if j == 0 || buf[j - 1] != 0 {
      buf[j] := 0;
      r := j + 1;
    }
  }

  lemma LabelOf(name: seq<byte>, l: seq<byte>, m: nat)
    requires m < |Split(name)| && Split(name)[m] == l
    ensures l in Split(name)
  {
  }

  // What the writer knows about the table: the entries it found, and those it has added.
  ghost predicate Tabled(table: LabelTable?, e: seq<LabelEntry>, added: seq<LabelEntry>, lo: nat, hi: nat)
    reads table
  {
    && (if table == null then e == added == [] else table.labels == e + added)
    && forall x :: 0 <= x < |added| ==> lo <= added[x].pos < hi
  }

  lemma TabledStart(table: LabelTable?, lo: nat)
    ensures Tabled(table, if table == null then [] else table.labels, [], lo, lo)
  {
  }

  lemma TabledFacts(table: LabelTable?, e: seq<LabelEntry>, added: seq<LabelEntry>, lo: nat, hi: nat)
    requires Tabled(table, e, added, lo, hi)
    ensures table != null ==> table.labels == e + added && e <= table.labels
    ensures table != null ==> forall x :: |e| <= x < |table.labels| ==> lo <= table.labels[x].pos < hi
  {
  }

  // Write the next label, entering its suffix in the table.
  method WriteNext(buf: array<byte>, bufLen: nat, j: nat, name: seq<byte>, i: nat, l: seq<byte>, table: LabelTable?, ghost s: nat,
                   ghost m: nat, ghost e: seq<LabelEntry>, ghost added: seq<LabelEntry>, ghost ms: seq<nat>)
    returns (r: int, ghost added': seq<LabelEntry>, ghost ms': seq<nat>)
    requires j <= bufLen < buf.Length && j == s + i && Writing(buf[..j], s, name, i, m)
    requires l == name[i..i + FirstDot(name[i..])]
    requires Entered(added, ms, s, Split(name), m, |name| - i) && Tabled(table, e, added, s, j)
    requires Underway(name, s, bufLen, e, added, m, table != null) && !Known(e, Tail(name, i))
    modifies buf, if table == null then {} else {table}
    ensures if r < 0 then Outcome(name, s, bufLen, e, m, r) else Underway(name, s, bufLen, e, added', m + 1, table != null)
    ensures r == if |l| > MAX_LABEL then -1 else if j + |l| + 1 > bufLen then -2 else j + 1 + |l|
    ensures r >= 0 ==> buf[..j] == old(buf[..j]) && LabelAt(buf[..r], j, l)
    ensures r < 0 ==> buf[..] == old(buf[..]) && added' == added
    ensures Tabled(table, e, added', s, if r < 0 then j else r)
    ensures r >= 0 ==> Entered(added', ms', s, Split(name), m + 1, |name| - (i + |l| + 1))
    ensures r >= 0 ==> Written(buf[..r], s, Split(name), m + 1) && Off(Split(name), m + 1) == i + |l| + 1
    ensures r >= 0 && i + |l| < |name| ==> Writing(buf[..r], s, name, i + |l| + 1, m + 1)
  {
    hide Split, FirstDot, Written, Off, LabelAt, Entered, Writing, Underway, Outcome, Known, Tail;
    ghost var p := buf[..j];
    WritingFacts(p, s, name, i, m);
    TailIs(name, i);
    NextSplit(name, i, m);
    OffNext(Split(name), m);
    r := WriteLabel(buf, bufLen, j, l, name[i..], table);
    added', ms' := added, ms;
    if r < 0 {
      FailedOutcome(name, s, bufLen, e, added, m, table != null, r);
    } else {
      assert p == buf[..r][..j];
      NextLabel(p, buf[..r], s, name, i, m);
      EnteredNext(added, ms, s, name, i, m, |name| - (i + |l| + 1));
      if table != null && table.labels != e + added {
        assert table.labels == e + (added + [LabelEntry(name[i..], j)]);
        added', ms' := added + [LabelEntry(name[i..], j)], ms + [m];
      }
      UnderwayNext(name, s, bufLen, e, added, added', m, table != null);
    }
  }

  lemma PointerSpelled(p: seq<byte>, q: seq<byte>, s: nat, name: seq<byte>, i: nat, m: nat, e: seq<LabelEntry>, y: nat)
    requires Writing(p, s, name, i, m) && i == Off(Split(name), m) && y < |e| && e[y].v == name[i..]
    requires forall k :: 0 <= k < y ==> e[k].v != name[i..]
    requires q == p + [PointerHigh(e[y].pos), PointerLow(e[y].pos)]
    ensures Spelled(q, s, name, e, m)
  {
    hide Split, Off, Written, LabelAt;
    WrittenExtend(p, q, s, Split(name), m);
  }

  // A suffix found in the table is the first entry for it of those that were there before the name.
  lemma FirstEntry(e: seq<LabelEntry>, added: seq<LabelEntry>, ms: seq<nat>, s: nat, name: seq<byte>, i: nat, m: nat, y: nat)
    requires i <= |name| && Entered(added, ms, s, Split(name), m, |name| - i) && y < |e + added| && (e + added)[y].v == name[i..]
    requires forall k :: 0 <= k < y ==> (e + added)[k].v != name[i..]
    ensures y < |e| && e[y] == (e + added)[y] && forall k :: 0 <= k < y ==> e[k].v != name[i..]
  {
    hide Split, Off;
    forall x | |e| <= x < |e + added| ensures (e + added)[x].v != name[i..] {
      assert (e + added)[x] == added[x - |e|] && |added[x - |e|].v| > |name[i..]|;
    }
    assert y < |e|;
    forall k | 0 <= k < y ensures e[k].v != name[i..] {
      assert (e + added)[k] == e[k];
    }
  }

  // ... and one that is not found is not there.
  lemma NoEntry(e: seq<LabelEntry>, added: seq<LabelEntry>, v: seq<byte>)
    requires forall k :: 0 <= k < |e + added| ==> (e + added)[k].v != v
    ensures !Known(e, v)
  {
    forall k | 0 <= k < |e| ensures e[k].v != v {
      assert (e + added)[k] == e[k];
    }
  }

  // End the name with a pointer to the entry at `ref`.
  method EndByPointer(buf: array<byte>, bufLen: nat, j: nat, ref: nat, name: seq<byte>, i: nat, ghost s: nat, ghost m: nat,
                      ghost e: seq<LabelEntry>, ghost added: seq<LabelEntry>, ghost ms: seq<nat>, ghost y: nat) returns (r: int)
    requires s <= j <= bufLen < buf.Length && j == s + i && Writing(buf[..j], s, name, i, m)
    requires y < |e| && e[y] == LabelEntry(name[i..], ref) && forall k :: 0 <= k < y ==> e[k].v != name[i..]
    requires Entered(added, ms, s, Split(name), m, |name| - i)
    modifies buf
    ensures r == (if j + 2 > bufLen then -2 else j + 2) && buf[..s] == old(buf[..s])
    ensures r >= 0 ==> Spelled(buf[..r], s, name, e, m)
    ensures r >= 0 && TableOk(e, old(buf[..s])) && Near(e) ==> Encoded(buf[..r], s, name) && TableOk(e + added, buf[..r])
  {
    hide Split, FirstDot, Written, Off, Holds, Visible, Encoded, LabelAt, TableOk, Near, Entered, Writing, Spelled;
    ghost var p := buf[..j];
    WritingFacts(p, s, name, i, m);
    assert (e + added)[y] == LabelEntry(name[i..], ref);
    r := WritePointer(buf, bufLen, j, ref);
    if r >= 0 {
      PointerSpelled(p, buf[..r], s, name, i, m, e, y);
    }
    assert buf[..s] == old(buf[..s]) by {
      assert p[..s] == old(buf[..s]);
      if r >= 0 {
        assert buf[..r][..s] == p[..s];
      } else {
        assert buf[..][..s] == old(buf[..])[..s];
      }
    }
    if r >= 0 && TableOk(e, buf[..s]) && Near(e) {
      assert buf[..r][..s] == buf[..s];
      DonePointer(e, added, ms, buf[..s], p, buf[..r], s, name, i, m, ref);
    }
  }

  lemma ZeroSpelled(p: seq<byte>, q: seq<byte>, s: nat, name: seq<byte>, e: seq<LabelEntry>, l: seq<byte>, at: nat)
    requires Written(p, s, Split(name), |Split(name)|) && LabelAt(p, at, l) && |p| == at + 1 + |l| && q == if l == [] then p else p + [0]
    ensures Spelled(q, s, name, e, |Split(name)|)
  {
    hide Split, Off, Written;
    WrittenExtend(p, q, s, Split(name), |Split(name)|);
  }

  // End the name, whose last label l is at position `at`, with a zero.
  method EndByZero(buf: array<byte>, j: nat, ghost l: seq<byte>, ghost at: nat, ghost name: seq<byte>, ghost s: nat,
                   ghost e: seq<LabelEntry>, ghost added: seq<LabelEntry>, ghost ms: seq<nat>, ghost n: int) returns (r: int)
    requires j < buf.Length && LabelAt(buf[..j], at, l) && j == at + 1 + |l| && 0 !in l && s <= j
    requires l == Split(name)[|Split(name)| - 1] && Written(buf[..j], s, Split(name), |Split(name)|)
    requires j == s + Off(Split(name), |Split(name)|) && Entered(added, ms, s, Split(name), |Split(name)|, n)
    modifies buf
    ensures buf[..s] == old(buf[..s]) && j <= r <= j + 1 && r <= buf.Length
    ensures r == (if l == [] then j else j + 1) && Spelled(buf[..r], s, name, e, |Split(name)|)
    ensures Encoded(buf[..r], s, name) && (TableOk(e, buf[..s]) ==> TableOk(e + added, buf[..r]))
  {
    hide Split, FirstDot, Written, Off, Holds, Visible, Encoded, LabelAt, TableOk, Near, Entered, Writing, Spelled;
    ghost var p := buf[..j];
    r := WriteZero(buf, j, l, at);
    assert buf[..s] == p[..s] == buf[..r][..s];
    ZeroSpelled(p, buf[..r], s, name, e, l, at);
    DoneZero(e, added, ms, buf[..s], p, buf[..r], s, name, n);
  }

  // What dnsname_to_labels has done when it returns r: the packet was p0 and the table e.
  ghost predicate Ended(buf: array<byte>, bufLen: nat, s: nat, name: seq<byte>, table: LabelTable?, e: seq<LabelEntry>, p0: seq<byte>, r: int)
    reads buf, table
  {
    && s <= buf.Length && buf[..s] == p0 && (r == -1 || r == -2 || s < r <= bufLen + 1) && r <= buf.Length
    && Exactly(buf, bufLen, s, name, table, e, r)
    && (r == -1 ==> exists l :: l in Split(name) && |l| > MAX_LABEL)
    && (r == -2 ==> |name| > MAX_NAME || s + |name| + 2 > bufLen)
    && (r >= 0 ==> r <= s + |name| + 2)
    && (table == null && r >= 0 ==> Encoded(buf[..r], s, name))
    && (table != null && r >= 0 && TableOk(e, p0) && Near(e) ==> Encoded(buf[..r], s, name) && TableOk(table.labels, buf[..r]))
    && (table != null ==> e <= table.labels && forall x :: |e| <= x < |table.labels| ==> s <= table.labels[x].pos < bufLen)
  }

  lemma IsExactly(buf: array<byte>, bufLen: nat, s: nat, name: seq<byte>, table: LabelTable?, e: seq<LabelEntry>, m: nat, r: int)
    requires r <= buf.Length && Outcome(name, s, bufLen, e, m, r)
    requires r >= 0 ==> Spelled(buf[..r], s, name, e, m) && (table != null ==> Filled(e, table.labels, name, s, m))
    ensures Exactly(buf, bufLen, s, name, table, e, r)
  {
    hide Outcome, Spelled, Filled;
  }

  // Write the next label, or fail.
  method WriteOn(buf: array<byte>, bufLen: nat, j: nat, name: seq<byte>, i: nat, table: LabelTable?, ghost s: nat, ghost m: nat,
                 ghost e: seq<LabelEntry>, ghost added: seq<LabelEntry>, ghost ms: seq<nat>, ghost p0: seq<byte>)
    returns (r: int, l: seq<byte>, ghost added': seq<LabelEntry>, ghost ms': seq<nat>)
    requires s <= j <= bufLen < buf.Length && i <= |name| && j == s + i && buf[..s] == p0
    requires Writing(buf[..j], s, name, i, m) && Entered(added, ms, s, Split(name), m, |name| - i) && Tabled(table, e, added, s, j)
    requires Underway(name, s, bufLen, e, added, m, table != null) && !Known(e, Tail(name, i))
    modifies buf, if table == null then {} else {table}
    ensures r >= 0 ==> Underway(name, s, bufLen, e, added', m + 1, table != null)
    ensures r < 0 ==> Ended(buf, bufLen, s, name, table, e, p0, r)
    ensures m < |Split(name)| && l == Split(name)[m] && i + |l| <= |name| && (i + |l| == |name| <==> m + 1 == |Split(name)|)
    ensures r >= 0 ==> r == j + 1 + |l| <= bufLen && buf[..s] == p0 && LabelAt(buf[..r], j, l)
    ensures r >= 0 ==> Entered(added', ms', s, Split(name), m + 1, |name| - (i + |l| + 1)) && Tabled(table, e, added', s, r)
    ensures r >= 0 ==> Written(buf[..r], s, Split(name), m + 1) && Off(Split(name), m + 1) == i + |l| + 1
    ensures r >= 0 && i + |l| < |name| ==> Writing(buf[..r], s, name, i + |l| + 1, m + 1)
  {
    hide Split, FirstDot, Written, Off, Holds, Visible, Encoded, LabelAt, TableOk, Near, Entered, Writing, Tabled, Ended, Underway, Outcome, Known, Exactly;
    WritingFacts(buf[..j], s, name, i, m);
    NextSplit(name, i, m);
    l := name[i..i + FirstDot(name[i..])];
    r, added', ms' := WriteNext(buf, bufLen, j, name, i, l, table, s, m, e, added, ms);
    if r < 0 {
      TabledFacts(table, e, added', s, j);
      LabelOf(name, l, m);
      IsExactly(buf, bufLen, s, name, table, e, m, r);
      IsEnded(buf, bufLen, s, name, table, e, p0, r);
    } else {
      assert buf[..s] == buf[..j][..s];
    }
  }

  lemma FilledOf(name: seq<byte>, s: nat, bufLen: nat, e: seq<LabelEntry>, added: seq<LabelEntry>, m: nat, table: LabelTable?)
    requires Underway(name, s, bufLen, e, added, m, table != null) && (table != null ==> table.labels == e + added)
    ensures table != null ==> Filled(e, table.labels, name, s, m)
  {
    hide Reached, Unknown, Filled;
  }

  // The final zero, and what is known at the end.
  method EndOn(buf: array<byte>, bufLen: nat, j: nat, ghost l: seq<byte>, ghost at: nat, ghost name: seq<byte>, ghost s: nat, ghost table: LabelTable?,
               ghost e: seq<LabelEntry>, ghost added: seq<LabelEntry>, ghost ms: seq<nat>, ghost p0: seq<byte>) returns (r: int)
    requires j <= bufLen < buf.Length && LabelAt(buf[..j], at, l) && j == at + 1 + |l| && 0 !in l && s <= j && buf[..s] == p0
    requires l == Split(name)[|Split(name)| - 1] && Written(buf[..j], s, Split(name), |Split(name)|)
    requires j == s + Off(Split(name), |Split(name)|) == s + |name| + 1 && Entered(added, ms, s, Split(name), |Split(name)|, -1)
    requires Tabled(table, e, added, s, j) && Underway(name, s, bufLen, e, added, |Split(name)|, table != null)
    modifies buf
    ensures Ended(buf, bufLen, s, name, table, e, p0, r)
  {
    hide Split, FirstDot, Written, Off, Holds, Visible, Encoded, LabelAt, TableOk, Near, Entered, Writing, Tabled, Ended, Underway, Outcome, Exactly, Spelled, Filled;
    r := EndByZero(buf, j, l, at, name, s, e, added, ms, -1);
    TabledFacts(table, e, added, s, j);
    ZeroOutcome(name, s, bufLen, e, added, table != null, r);
    FilledOf(name, s, bufLen, e, added, |Split(name)|, table);
    IsExactly(buf, bufLen, s, name, table, e, |Split(name)|, r);
    IsEnded(buf, bufLen, s, name, table, e, p0, r);
  }

  lemma NotThere(table: LabelTable?, e: seq<LabelEntry>, added: seq<LabelEntry>, lo: nat, hi: nat, v: seq<byte>)
    requires Tabled(table, e, added, lo, hi) && (table != null ==> forall k :: 0 <= k < |table.labels| ==> table.labels[k].v != v)
    ensures !Known(e, v)
  {
    if table != null {
      NoEntry(e, added, v);
    }
  }

  // One round of dnsname_to_labels: the name ends by a pointer, ends by a zero, fails, or goes on.
  method OneRound(buf: array<byte>, bufLen: nat, j: nat, name: seq<byte>, i: nat, table: LabelTable?, ghost s: nat, ghost m: nat,
                  ghost e: seq<LabelEntry>, ghost added: seq<LabelEntry>, ghost ms: seq<nat>, ghost p0: seq<byte>)
    returns (more: bool, r: int, k: nat, ghost added': seq<LabelEntry>, ghost ms': seq<nat>)
    requires s <= j <= bufLen < buf.Length && i <= |name| && j == s + i && 0 !in name && buf[..s] == p0
    requires Writing(buf[..j], s, name, i, m) && Entered(added, ms, s, Split(name), m, |name| - i) && Tabled(table, e, added, s, j)
    requires Underway(name, s, bufLen, e, added, m, table != null)
    modifies buf, if table == null then {} else {table}
    ensures more ==> Underway(name, s, bufLen, e, added', m + 1, table != null)
    ensures !more ==> Ended(buf, bufLen, s, name, table, e, p0, r)
    ensures more ==> i + k + 1 <= |name| && r == j + k + 1 && r <= bufLen && buf[..s] == p0 && Writing(buf[..r], s, name, i + k + 1, m + 1)
    ensures more ==> Entered(added', ms', s, Split(name), m + 1, |name| - (i + k + 1)) && Tabled(table, e, added', s, r)
  {
    hide Split, FirstDot, Written, Off, Holds, Visible, Encoded, LabelAt, TableOk, Near, Entered, Writing, Tabled, Ended, Underway, Outcome, Exactly, Spelled, Filled, Known;
    more, k, added', ms' := false, 0, added, ms;
    WritingFacts(buf[..j], s, name, i, m);
    if table != null {
      var ref := table.GetPos(name[i..]);
      if ref >= 0 {
        TabledFacts(table, e, added, s, j);
        ghost var y :| 0 <= y < |e + added| && (e + added)[y] == LabelEntry(name[i..], ref) && forall k :: 0 <= k < y ==> (e + added)[k].v != name[i..];
        FirstEntry(e, added, ms, s, name, i, m, y);
        r := EndByPointer(buf, bufLen, j, ref, name, i, s, m, e, added, ms, y);
        PointerOutcome(name, s, bufLen, e, added, m, true, y, r);
        FilledOf(name, s, bufLen, e, added, m, table);
        IsExactly(buf, bufLen, s, name, table, e, m, r);
        IsEnded(buf, bufLen, s, name, table, e, p0, r);
        return;
      }
    }
    assert !Known(e, name[i..]) by {
      NotThere(table, e, added, s, j, name[i..]);
    }
    var l;
    r, l, added', ms' := WriteOn(buf, bufLen, j, name, i, table, s, m, e, added, ms, p0);
    if r >= 0 {
      k := |l|;
      more := i + k < |name|;
      if !more {
        NoZero(name, l);
        r := EndOn(buf, bufLen, r, l, j, name, s, table, e, added', ms', p0);
      }
    }
  }

  lemma NoZero(name: seq<byte>, l: seq<byte>)
    requires l in Split(name) && 0 !in name
    ensures 0 !in l
    decreases |name|
  {
    SplitIs(name);
    var k := FirstDot(name);
    if l != name[..k] {
      NoZero(name[k + 1..], l);
    }
  }

  lemma IsEnded(buf: array<byte>, bufLen: nat, s: nat, name: seq<byte>, table: LabelTable?, e: seq<LabelEntry>, p0: seq<byte>, r: int)
    requires s <= buf.Length && buf[..s] == p0 && r <= buf.Length && (r == -1 || r == -2 || (s < r <= bufLen + 1 && r <= s + |name| + 2))
    requires Exactly(buf, bufLen, s, name, table, e, r)
    requires r == -1 ==> exists l :: l in Split(name) && |l| > MAX_LABEL
    requires r == -2 ==> |name| > MAX_NAME || s + |name| + 2 > bufLen
    requires r >= 0 ==> if table == null then Encoded(buf[..r], s, name)
                        else TableOk(e, p0) && Near(e) ==> Encoded(buf[..r], s, name) && TableOk(table.labels, buf[..r])
    requires table != null ==> e <= table.labels && forall x :: |e| <= x < |table.labels| ==> s <= table.labels[x].pos < bufLen
    ensures Ended(buf, bufLen, s, name, table, e, p0, r)
  {
    hide Split, Encoded, TableOk, Near, Exactly;
  }

  // dnsname_to_labels: the position behind the encoded name; -1 for a label that is too long, -2
  // for a name that does not fit. The caller leaves room for the final zero behind bufLen.
  method DnsnameToLabels(buf: array<byte>, bufLen: nat, j0: nat, name: seq<byte>, table: LabelTable?) returns (r: int)
    requires j0 <= bufLen < buf.Length && 0 !in name
    modifies buf, if table == null then {} else {table}
    ensures buf[..j0] == old(buf[..j0]) && (r == -1 || r == -2 || j0 < r <= bufLen + 1)
    ensures r == -1 ==> exists l :: l in Split(name) && |l| > MAX_LABEL
    ensures r == -2 ==> |name| > MAX_NAME || j0 + |name| + 2 > bufLen
    ensures r >= 0 ==> |name| <= MAX_NAME && r <= j0 + |name| + 2
    ensures if |name| > MAX_NAME then r == -2 && unchanged(buf) && (table != null ==> unchanged(table))
            else r <= buf.Length && Exactly(buf, bufLen, j0, name, table, if table == null then [] else old(table.labels), r)
    ensures table == null && r >= 0 ==> Encoded(buf[..r], j0, name)
    ensures table != null && r >= 0 && old(TableOk(table.labels, buf[..j0]) && Near(table.labels)) ==>
              Encoded(buf[..r], j0, name) && TableOk(table.labels, buf[..r])
    ensures table != null ==> old(table.labels) <= table.labels
    ensures table != null ==> forall x :: |old(table.labels)| <= x < |table.labels| ==> j0 <= table.labels[x].pos < bufLen
  {
    hide Split, FirstDot, Written, Off, Holds, Visible, Encoded, LabelAt, TableOk, Near, Entered, Writing, Tabled, Underway, Exactly;
    if |name| > MAX_NAME {
      return -2;
    }
    var i: nat, j: nat := 0, j0;
    ghost var m: nat, added: seq<LabelEntry>, ms: seq<nat> := 0, [], [];
    ghost var e := if table == null then [] else table.labels;
    ghost var p0 := buf[..j0];
    WritingStart(p0, j0, name);
    UnderwayStart(name, j0, bufLen, e, table != null);
    assert Tabled(table, e, added, j0, j) by { TabledStart(table, j0); }
    var more := true;
    r := j0;
    while more
      invariant more ==> i <= |name| && j == j0 + i && j <= bufLen && buf[..j0] == p0 && Writing(buf[..j], j0, name, i, m)
      invariant more ==> Entered(added, ms, j0, Split(name), m, |name| - i) && Tabled(table, e, added, j0, j)
      invariant more ==> Underway(name, j0, bufLen, e, added, m, table != null)
      invariant !more ==> Ended(buf, bufLen, j0, name, table, e, p0, r)
      decreases more, |name| - i
    {
      var k;
      more, r, k, added, ms := OneRound(buf, bufLen, j, name, i, table, j0, m, e, added, ms, p0);
      if more {
        i, j, m := i + k + 1, r, m + 1;
      }
    }
  }

  lemma {:induction false} OffGrows(ls: seq<seq<byte>>, m: nat, n: nat)
    requires m < n <= |ls|
    ensures Off(ls, m) + |ls[m]| + 1 <= Off(ls, n)
  {
    if m < n - 1 {
      OffGrows(ls, m, n - 1);
    }
  }

  // There is one outcome.
  lemma OneOutcome(name: seq<byte>, s: nat, bufLen: nat, e: seq<LabelEntry>, m: nat, r: int, n: nat, q: int)
    requires Outcome(name, s, bufLen, e, m, r) && Outcome(name, s, bufLen, e, n, q)
    ensures m == n && r == q
  {
    hide Split, Off, Known;
    if m < n {
      NotFurther(name, s, bufLen, e, m, r, n);
    } else if n < m {
      NotFurther(name, s, bufLen, e, n, q, m);
    }
  }

  lemma NotFurther(name: seq<byte>, s: nat, bufLen: nat, e: seq<LabelEntry>, m: nat, r: int, n: nat)
    requires Outcome(name, s, bufLen, e, m, r) && m < n <= |Split(name)|
    ensures !(Reached(Split(name), s, bufLen, n) && Unknown(e, name, n))
  {
    hide Split, Off, Known;
    OffNext(Split(name), m);
    OffGrows(Split(name), m, n);
  }

  // The h-th label is the first that is too long, and the table holds nothing from there or before.
  lemma LongLabel(name: seq<byte>, s: nat, bufLen: nat, e: seq<LabelEntry>, h: nat, m: nat, r: int)
    requires Outcome(name, s, bufLen, e, m, r) && h < |Split(name)| && |Split(name)[h]| > 63 && Unknown(e, name, h + 1)
    requires forall x :: 0 <= x < h ==> |Split(name)[x]| <= 63
    ensures r == if s + Off(Split(name), h) > bufLen then -2 else -1
  {
    hide Split, Off, Known;
    if m < h {
      OffNext(Split(name), m);
      OffGrows(Split(name), m, h);
      assert !Known(e, Tail(name, Off(Split(name), m)));
    } else {
      assert m == h && !Known(e, Tail(name, Off(Split(name), h)));
    }
  }

  // With labels that are short, a name that ends at the h-th, the first from which on the table holds it, takes
  // its bytes up to there and two more; it fails exactly if they do not fit.
  lemma CompressedLength(name: seq<byte>, s: nat, bufLen: nat, e: seq<LabelEntry>, h: nat, m: nat, r: int)
    requires Outcome(name, s, bufLen, e, m, r) && forall x :: 0 <= x < |Split(name)| ==> |Split(name)[x]| <= MAX_LABEL
    requires h < |Split(name)| && Known(e, Tail(name, Off(Split(name), h))) && Unknown(e, name, h)
    ensures r == if s + Off(Split(name), h) + 2 > bufLen then -2 else s + Off(Split(name), h) + 2
  {
    hide Split, Off, Known;
    if m < h {
      OffNext(Split(name), m);
      OffGrows(Split(name), m, h);
    }
  }

  // ... and one of which the table holds nothing takes all its bytes, and a zero unless it ends with one.
  lemma PlainLength(name: seq<byte>, s: nat, bufLen: nat, e: seq<LabelEntry>, m: nat, r: int)
    requires Outcome(name, s, bufLen, e, m, r) && forall x :: 0 <= x < |Split(name)| ==> |Split(name)[x]| <= MAX_LABEL
    requires Unknown(e, name, |Split(name)|)
    ensures r == if s + |name| + 1 > bufLen then -2 else s + |name| + if Split(name)[|Split(name)| - 1] == [] then 1 else 2
  {
    hide Split, Off, Known;
    OffAll(name);
    if m < |Split(name)| {
      OffNext(Split(name), m);
      OffGrows(Split(name), m, |Split(name)|);
      assert !Known(e, Tail(name, Off(Split(name), m)));
    }
  }

  // The labels and their dots make up the name.
  lemma {:induction false} OffAll(name: seq<byte>)
    ensures Off(Split(name), |Split(name)|) == |name| + 1
    decreases |name|
  {
    SplitIs(name);
    var k, ls := FirstDot(name), Split(name);
    if k < |name| {
      OffAll(name[k + 1..]);
      OffFront(ls, |ls|);
    } else {
      assert Off(ls, 1) == Off(ls, 0) + |ls[0]| + 1;
    }
  }

  lemma {:induction false} OffFront(ls: seq<seq<byte>>, m: nat)
    requires 0 < m <= |ls|
    ensures Off(ls, m) == |ls[0]| + 1 + Off(ls[1..], m - 1)
  {
    if m > 1 {
      OffFront(ls, m - 1);
    }
  }

  lemma WritingFacts(p: seq<byte>, s: nat, name: seq<byte>, i: nat, m: nat)
    requires Writing(p, s, name, i, m)
    ensures i <= |name| && m < |Split(name)| && Split(name[i..]) == Split(name)[m..] && i == Off(Split(name), m)
  {
    hide Split, Off, Written;
  }
}
