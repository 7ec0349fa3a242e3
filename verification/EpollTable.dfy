// The operation table of epolltable-internal.h: which epoll_ctl call brings the kernel from the
// old events of a file descriptor, by a change for each kind of event, to the new ones.
module EpollTable {
  // A set of event kinds: EV_READ, EV_WRITE and EV_CLOSED, or EPOLLIN, EPOLLOUT and EPOLLRDHUP.
  datatype Mask = Mask(read: bool, write: bool, closed: bool)

  const NONE := Mask(false, false, false)
  const I := Mask(true, false, false)
  const O := Mask(false, true, false)
  const H := Mask(false, false, true)
  const IO := Mask(true, true, false)
  const IH := Mask(true, false, true)
  const OH := Mask(false, true, true)
  const IOH := Mask(true, true, true)

  // struct operation: the events, and EPOLL_CTL_ADD, EPOLL_CTL_MOD or EPOLL_CTL_DEL; no
  // operation at all; or the entry no change may ever select.
  datatype Operation = Add(events: Mask) | Mod(events: Mask) | Del(events: Mask) | Nothing | Invalid

  // EV_CHANGE_ADD, EV_CHANGE_DEL and EV_CHANGE_ET in the byte for one kind of event.
  datatype Bits = Bits(add: bool, del: bool, et: bool)

  const NO_CHANGE := Bits(false, false, false)

  // struct event_change
  datatype EventChange = EventChange(fd: int, oldEvents: Mask, read: Bits, write: Bits, close: Bits)

  function Code(b: Bits): (c: int)
    ensures 0 <= c < 4
  {
    (if b.add then 1 else 0) + (if b.del then 2 else 0)
  }

  function OldCode(m: Mask): (c: int)
    ensures 0 <= c < 8
  {
    (if m.read then 1 else 0) + (if m.write then 2 else 0) + (if m.closed then 4 else 0)
  }

  // EPOLL_OP_TABLE_INDEX
  function TableIndex(ch: EventChange): (i: int)
    ensures 0 <= i < 512
  {
    Code(ch.close) + 4 * Code(ch.read) + 16 * Code(ch.write) + 64 * OldCode(ch.oldEvents)
  }

  // Four neighbouring rows: no close change, add, del, and both.
  function Pick(close: int, none: Operation, add: Operation, del: Operation, both: Operation): Operation {
    if close == 0 then none else if close == 1 then add else if close == 2 then del else both
  }

  // Rows 0-63, by the write, read and close changes.
  function OldNone(write: int, read: int, close: int): Operation {
    match (write, read)
    case (0, 0) => Pick(close, Nothing, Add(H), Del(H), Invalid)
    case (0, 1) => Pick(close, Add(I), Add(IH), Add(I), Invalid)
    case (0, 2) => Pick(close, Del(I), Add(H), Del(IH), Invalid)
    case (0, 3) => Pick(close, Invalid, Invalid, Invalid, Invalid)
    case (1, 0) => Pick(close, Add(O), Add(OH), Add(O), Invalid)
    case (1, 1) => Pick(close, Add(IO), Add(IOH), Add(IO), Invalid)
    case (1, 2) => Pick(close, Add(O), Add(OH), Add(O), Invalid)
    case (1, 3) => Pick(close, Invalid, Invalid, Invalid, Invalid)
    case (2, 0) => Pick(close, Del(O), Add(H), Del(OH), Invalid)
    case (2, 1) => Pick(close, Add(I), Add(IH), Add(I), Invalid)
    case (2, 2) => Pick(close, Del(IO), Add(H), Del(IOH), Invalid)
    case (2, 3) => Pick(close, Invalid, Invalid, Invalid, Invalid)
    case (3, 0) => Pick(close, Invalid, Invalid, Invalid, Invalid)
    case (3, 1) => Pick(close, Invalid, Invalid, Invalid, Invalid)
    case (3, 2) => Pick(close, Invalid, Invalid, Invalid, Invalid)
    case _ => Pick(close, Invalid, Invalid, Invalid, Invalid)
  }

  // Rows 64-127, by the write, read and close changes.
  function OldR(write: int, read: int, close: int): Operation {
    match (write, read)
    case (0, 0) => Pick(close, Nothing, Mod(IH), Mod(I), Invalid)
    case (0, 1) => Pick(close, Mod(I), Mod(IH), Mod(I), Invalid)
    case (0, 2) => Pick(close, Del(I), Mod(H), Del(IH), Invalid)
    case (0, 3) => Pick(close, Invalid, Invalid, Invalid, Invalid)
    case (1, 0) => Pick(close, Mod(IO), Mod(IOH), Mod(IO), Invalid)
    case (1, 1) => Pick(close, Mod(IO), Mod(IOH), Mod(IO), Invalid)
    case (1, 2) => Pick(close, Mod(O), Mod(OH), Mod(O), Invalid)
    case (1, 3) => Pick(close, Invalid, Invalid, Invalid, Invalid)
    case (2, 0) => Pick(close, Mod(I), Mod(IH), Mod(I), Invalid)
    case (2, 1) => Pick(close, Mod(I), Mod(IH), Mod(I), Invalid)
    case (2, 2) => Pick(close, Del(IO), Mod(H), Del(IOH), Invalid)
    case (2, 3) => Pick(close, Invalid, Invalid, Invalid, Invalid)
    case (3, 0) => Pick(close, Invalid, Invalid, Invalid, Invalid)
    case (3, 1) => Pick(close, Invalid, Invalid, Invalid, Invalid)
    case (3, 2) => Pick(close, Invalid, Invalid, Invalid, Invalid)
    case _ => Pick(close, Invalid, Invalid, Invalid, Invalid)
  }

  // Rows 128-191, by the write, read and close changes.
  function OldW(write: int, read: int, close: int): Operation {
    match (write, read)
    case (0, 0) => Pick(close, Nothing, Mod(OH), Mod(O), Invalid)
    case (0, 1) => Pick(close, Mod(IO), Mod(IOH), Mod(IO), Invalid)
    case (0, 2) => Pick(close, Mod(O), Mod(OH), Mod(O), Invalid)
    case (0, 3) => Pick(close, Invalid, Invalid, Invalid, Invalid)
    case (1, 0) => Pick(close, Mod(O), Mod(OH), Mod(O), Invalid)
    case (1, 1) => Pick(close, Mod(IO), Mod(IOH), Mod(IO), Invalid)
    case (1, 2) => Pick(close, Mod(O), Mod(OH), Mod(O), Invalid)
    case (1, 3) => Pick(close, Invalid, Invalid, Invalid, Invalid)
    case (2, 0) => Pick(close, Del(O), Mod(H), Del(OH), Invalid)
    case (2, 1) => Pick(close, Mod(I), Mod(IH), Mod(I), Invalid)
    case (2, 2) => Pick(close, Del(IO), Mod(H), Del(IOH), Invalid)
    case (2, 3) => Pick(close, Invalid, Invalid, Invalid, Invalid)
    case (3, 0) => Pick(close, Invalid, Invalid, Invalid, Invalid)
    case (3, 1) => Pick(close, Invalid, Invalid, Invalid, Invalid)
    case (3, 2) => Pick(close, Invalid, Invalid, Invalid, Invalid)
    case _ => Pick(close, Invalid, Invalid, Invalid, Invalid)
  }

  // Rows 192-255, by the write, read and close changes.
  function OldRW(write: int, read: int, close: int): Operation {
    match (write, read)
    case (0, 0) => Pick(close, Nothing, Mod(IOH), Mod(IO), Invalid)
    case (0, 1) => Pick(close, Mod(IO), Mod(IOH), Mod(IO), Invalid)
    case (0, 2) => Pick(close, Mod(O), Mod(OH), Mod(O), Invalid)
    case (0, 3) => Pick(close, Invalid, Invalid, Invalid, Invalid)
    case (1, 0) => Pick(close, Mod(IO), Mod(IOH), Mod(IO), Invalid)
    case (1, 1) => Pick(close, Mod(IO), Mod(IOH), Mod(IO), Invalid)
    case (1, 2) => Pick(close, Mod(O), Mod(OH), Mod(O), Invalid)
    case (1, 3) => Pick(close, Invalid, Invalid, Invalid, Invalid)
    case (2, 0) => Pick(close, Mod(I), Mod(IH), Mod(I), Invalid)
    case (2, 1) => Pick(close, Mod(I), Mod(IH), Mod(I), Invalid)
    case (2, 2) => Pick(close, Del(IO), Mod(H), Del(IOH), Invalid)
    case (2, 3) => Pick(close, Invalid, Invalid, Invalid, Invalid)
    case (3, 0) => Pick(close, Invalid, Invalid, Invalid, Invalid)
    case (3, 1) => Pick(close, Invalid, Invalid, Invalid, Invalid)
    case (3, 2) => Pick(close, Invalid, Invalid, Invalid, Invalid)
    case _ => Pick(close, Invalid, Invalid, Invalid, Invalid)
  }

  // Rows 256-319, by the write, read and close changes.
  function OldC(write: int, read: int, close: int): Operation {
    match (write, read)
    case (0, 0) => Pick(close, Nothing, Mod(H), Del(H), Invalid)
    case (0, 1) => Pick(close, Mod(IH), Mod(IH), Mod(I), Invalid)
    case (0, 2) => Pick(close, Mod(H), Mod(H), Del(IH), Invalid)
    case (0, 3) => Pick(close, Invalid, Invalid, Invalid, Invalid)
    case (1, 0) => Pick(close, Mod(OH), Mod(OH), Mod(O), Invalid)
    case (1, 1) => Pick(close, Mod(IOH), Mod(IOH), Mod(IO), Invalid)
    case (1, 2) => Pick(close, Mod(OH), Mod(OH), Mod(O), Invalid)
    case (1, 3) => Pick(close, Invalid, Invalid, Invalid, Invalid)
    case (2, 0) => Pick(close, Mod(H), Mod(H), Del(OH), Invalid)
    case (2, 1) => Pick(close, Mod(IH), Mod(IH), Mod(I), Invalid)
    case (2, 2) => Pick(close, Mod(H), Mod(H), Del(IOH), Invalid)
    case (2, 3) => Pick(close, Invalid, Invalid, Invalid, Invalid)
    case (3, 0) => Pick(close, Invalid, Invalid, Invalid, Invalid)
    case (3, 1) => Pick(close, Invalid, Invalid, Invalid, Invalid)
    case (3, 2) => Pick(close, Invalid, Invalid, Invalid, Invalid)
    case _ => Pick(close, Invalid, Invalid, Invalid, Invalid)
  }

  // Rows 320-383, by the write, read and close changes.
  function OldRC(write: int, read: int, close: int): Operation {
    match (write, read)
    case (0, 0) => Pick(close, Nothing, Mod(IH), Mod(I), Invalid)
    case (0, 1) => Pick(close, Mod(IH), Mod(IH), Mod(I), Invalid)
    case (0, 2) => Pick(close, Mod(H), Mod(H), Del(IH), Invalid)
    case (0, 3) => Pick(close, Invalid, Invalid, Invalid, Invalid)
    case (1, 0) => Pick(close, Mod(IOH), Mod(IOH), Mod(IO), Invalid)
    case (1, 1) => Pick(close, Mod(IOH), Mod(IOH), Mod(IO), Invalid)
    case (1, 2) => Pick(close, Mod(OH), Mod(OH), Mod(O), Invalid)
    case (1, 3) => Pick(close, Invalid, Invalid, Invalid, Invalid)
    case (2, 0) => Pick(close, Mod(IH), Mod(IH), Mod(I), Invalid)
    case (2, 1) => Pick(close, Mod(IH), Mod(IH), Mod(I), Invalid)
    case (2, 2) => Pick(close, Mod(H), Mod(H), Del(IOH), Invalid)
    case (2, 3) => Pick(close, Invalid, Invalid, Invalid, Invalid)
    case (3, 0) => Pick(close, Invalid, Invalid, Invalid, Invalid)
    case (3, 1) => Pick(close, Invalid, Invalid, Invalid, Invalid)
    case (3, 2) => Pick(close, Invalid, Invalid, Invalid, Invalid)
    case _ => Pick(close, Invalid, Invalid, Invalid, Invalid)
  }

  // Rows 384-447, by the write, read and close changes.
  function OldWC(write: int, read: int, close: int): Operation {
    match (write, read)
    case (0, 0) => Pick(close, Nothing, Mod(OH), Mod(O), Invalid)
    case (0, 1) => Pick(close, Mod(IOH), Mod(IOH), Mod(IO), Invalid)
    case (0, 2) => Pick(close, Mod(OH), Mod(OH), Mod(O), Invalid)
    case (0, 3) => Pick(close, Invalid, Invalid, Invalid, Invalid)
    case (1, 0) => Pick(close, Mod(OH), Mod(OH), Mod(O), Invalid)
    case (1, 1) => Pick(close, Mod(IOH), Mod(IOH), Mod(IO), Invalid)
    case (1, 2) => Pick(close, Mod(OH), Mod(OH), Mod(O), Invalid)
    case (1, 3) => Pick(close, Invalid, Invalid, Invalid, Invalid)
    case (2, 0) => Pick(close, Mod(H), Mod(H), Del(OH), Invalid)
    case (2, 1) => Pick(close, Mod(IH), Mod(IH), Mod(I), Invalid)
    case (2, 2) => Pick(close, Mod(H), Mod(H), Del(IOH), Invalid)
    case (2, 3) => Pick(close, Invalid, Invalid, Invalid, Invalid)
    case (3, 0) => Pick(close, Invalid, Invalid, Invalid, Invalid)
    case (3, 1) => Pick(close, Invalid, Invalid, Invalid, Invalid)
    case (3, 2) => Pick(close, Invalid, Invalid, Invalid, Invalid)
    case _ => Pick(close, Invalid, Invalid, Invalid, Invalid)
  }

  // Rows 448-511, by the write, read and close changes.
  function OldRWC(write: int, read: int, close: int): Operation {
    match (write, read)
    case (0, 0) => Pick(close, Nothing, Mod(IOH), Mod(IO), Invalid)
    case (0, 1) => Pick(close, Mod(IOH), Mod(IOH), Mod(IO), Invalid)
    case (0, 2) => Pick(close, Mod(OH), Mod(OH), Mod(O), Invalid)
    case (0, 3) => Pick(close, Invalid, Invalid, Invalid, Invalid)
    case (1, 0) => Pick(close, Mod(IOH), Mod(IOH), Mod(IO), Invalid)
    case (1, 1) => Pick(close, Mod(IOH), Mod(IOH), Mod(IO), Invalid)
    case (1, 2) => Pick(close, Mod(OH), Mod(OH), Mod(O), Invalid)
    case (1, 3) => Pick(close, Invalid, Invalid, Invalid, Invalid)
    case (2, 0) => Pick(close, Mod(IH), Mod(IH), Mod(I), Invalid)
    case (2, 1) => Pick(close, Mod(IH), Mod(IH), Mod(I), Invalid)
    case (2, 2) => Pick(close, Mod(H), Mod(H), Del(IOH), Invalid)
    case (2, 3) => Pick(close, Invalid, Invalid, Invalid, Invalid)
    case (3, 0) => Pick(close, Invalid, Invalid, Invalid, Invalid)
    case (3, 1) => Pick(close, Invalid, Invalid, Invalid, Invalid)
    case (3, 2) => Pick(close, Invalid, Invalid, Invalid, Invalid)
    case _ => Pick(close, Invalid, Invalid, Invalid, Invalid)
  }

  // The row for these old events and changes.
  function Row(before: int, write: int, read: int, close: int): Operation {
    match before
    case 0 => OldNone(write, read, close)
    case 1 => OldR(write, read, close)
    case 2 => OldW(write, read, close)
    case 3 => OldRW(write, read, close)
    case 4 => OldC(write, read, close)
    case 5 => OldRC(write, read, close)
    case 6 => OldWC(write, read, close)
    case _ => OldRWC(write, read, close)
  }

  // epoll_op_table
  function EpollOpTable(i: int): Operation
    requires 0 <= i < 512
  {
    Row(i / 64, i / 16 % 4, i / 4 % 4, i % 4)
  }

  // The events wanted after a change to one kind of event.
  function Next(was: bool, b: Bits): bool {
    b.add || (was && !b.del)
  }

  function After(ch: EventChange): Mask {
    Mask(Next(ch.oldEvents.read, ch.read), Next(ch.oldEvents.write, ch.write), Next(ch.oldEvents.closed, ch.close))
  }

  predicate Adds(ch: EventChange) {
    ch.read.add || ch.write.add || ch.close.add
  }

  predicate Deletes(ch: EventChange) {
    ch.read.del || ch.write.del || ch.close.del
  }

  // No kind of event is both added and deleted.
  predicate Sane(ch: EventChange) {
    !(ch.read.add && ch.read.del) && !(ch.write.add && ch.write.del) && !(ch.close.add && ch.close.del)
  }

  // What is deleted, when nothing is left.
  function Deleted(ch: EventChange): Mask {
    Mask(ch.read.del, ch.write.del, ch.close.del)
  }

  // The rule the table was generated by.
  function Rule(ch: EventChange): Operation {
    if !Sane(ch) then Invalid
    else if !Adds(ch) && !Deletes(ch) then Nothing
    else if After(ch) != NONE then (if ch.oldEvents != NONE then Mod(After(ch)) else Add(After(ch)))
    else Del(Deleted(ch))
  }

  lemma IndexDecodes(ch: EventChange)
    ensures EpollOpTable(TableIndex(ch)) == Row(OldCode(ch.oldEvents), Code(ch.write), Code(ch.read), Code(ch.close))
  {
    hide Row, Code, OldCode;
    Digits(Code(ch.close), Code(ch.read), Code(ch.write), OldCode(ch.oldEvents));
  }

  lemma Digits(a: int, b: int, c: int, d: int)
    requires 0 <= a < 4 && 0 <= b < 4 && 0 <= c < 4 && 0 <= d
    ensures var i := a + 4 * b + 16 * c + 64 * d; i / 64 == d && i / 16 % 4 == c && i / 4 % 4 == b && i % 4 == a
  {
    var i := a + 4 * b + 16 * c + 64 * d;
    assert i / 4 == b + 4 * (c + 4 * d) && i / 16 == c + 4 * d;
  }

  // Rows 0-255.
  lemma LowRows(ch: EventChange)
    requires !ch.oldEvents.closed
    ensures Row(OldCode(ch.oldEvents), Code(ch.write), Code(ch.read), Code(ch.close)) == Rule(ch)
  {
  }

  // Rows 256-511.
  lemma HighRows(ch: EventChange)
    requires ch.oldEvents.closed
    ensures Row(OldCode(ch.oldEvents), Code(ch.write), Code(ch.read), Code(ch.close)) == Rule(ch)
  {
  }

  // The table is what the rule gives, row for row.
  lemma TableIsRule(ch: EventChange)
    ensures EpollOpTable(TableIndex(ch)) == Rule(ch)
  {
    hide Row, Rule, Code, OldCode;
    IndexDecodes(ch);
    if ch.oldEvents.closed {
      HighRows(ch);
    } else {
      LowRows(ch);
    }
  }
}
