# libevent 2.1.12: models and proofs

A Dafny model of the parts of libevent in which a fast, in-place structure has to agree with something
simple, and proofs that it does. Code that changes things step by step is modelled by classes, arrays and
methods with loops, proved against specification functions; tables, codecs and protocols by functions,
state machines and lemmas. `dafny verify dfyconfig.toml` checks the whole project.

1. **The chained byte buffer** (`Bytes`, `Evbuffer`, `BufferAdd`, `BufferDrain`, `BufferSplice`, `BufferPullup`,
   `BufferExpand`, `BufferReserve`, `BufferSearch`, `BufferLines`, `BufferRun`, `BufferLaws`). A buffer is a linked
   list of chunks with slack at both ends, a cached slot pointer (modelled as the chain whose `next` is
   meant, or null for the head slot) and a cached length. A ghost layout holds the chains and their
   pieces. Every operation is proved to act on the concatenation of the pieces as the obvious operation on
   one byte string, singly and over any run on any number of buffers.
2. **The interest set** (`EpollTable`, `InterestSet`, `InterestRun`). Per-descriptor counters, a coalescing
   changelist with back-indices and the 512-row operation table together leave the kernel's set equal to
   what the events in use wait for. The kernel is a map from descriptor to mask with the EEXIST, ENOENT and EBADF
   results of `epoll_ctl`.
3. **The scheduler** (`Scheduler`, `SchedulerRun`, `SchedulerLaws`, `SchedulerPeriods`, `MinHeap`). Active queues by
   priority, the later queue, the timeout heap, common-timeout lists, flag bits and counters. The scheduler sees the heap as a set with a least
   element; `MinHeap` is the array that stands for such a set. The whole state is seen as a value (`Look`), and every
   operation is proved to be a function on such values, but for events of one and the same deadline, which may fire
   in any order.
4. **DNS codecs and request state** (`DnsNames`, `DnsPackets`, `Inflight`, `Getaddrinfo`). Name compression
   against the name parser, the hashed circular lists of requests in flight, and the asynchronous
   getaddrinfo with its two sub-requests, skew timer and cancellation.
5. **Tagged data** (`TagCodec`, `Tagging`). The wire format on byte strings, and the code for it on the
   chained buffer of part 1.
6. **Rate limiting and random numbers** (`TokenBucket`, `RateLimit`, `RateRun`, `RateLaws`, `RateGroup`, `Arc4`). Token
   buckets in machine arithmetic, suspension and the refill timer of a bufferevent, group suspension
   under any interleaving of threads, and the cipher state and range reduction of arc4random.

Sizes are those of a 64-bit system (`size_t` and `ssize_t` of 64 bits, `int` of 32). Memory allocation
succeeds for sizes that can be expressed. Times, results of system calls, random words and what a
callback does are parameters. `Options` holds the one type for a value that may be missing.

## What the code does otherwise than it says

- `evbuffer_prepend` can return -1 after having prepended the part of the data that fits in front of the first
  chain (`BufferAdd.PrependBytes`).
- `evbuffer_remove_buffer` does not look at the result of its last `evbuffer_add`: when the destination would
  exceed the largest size, and only then, the bytes of the chain in which the split falls are lost; nothing is
  lost if the split falls between two chains. That takes about 2^64 bytes (`BufferSplice.RemoveBuffer`).
- `evbuffer_remove` and `evbuffer_remove_buffer` return an int, to which a larger number of bytes is cut
  (`BufferDrain.Remove`, `BufferSplice.RemoveBuffer`).
- An extent reserved alone may be refused by `evbuffer_commit_space`: exactly when the reservation passes over a
  slot chain that has some space, and the chain behind it is not the last (`BufferReserve.AppendAlone`, with a
  buffer that gets there in `BufferReserve.RefusedExtent`).
- A DNS label table entry at or past 0x4000 gives a pointer to somewhere else (`DnsNames.PointerExact`,
  `DnsPackets.FarPointer`). The only callers with a table, at evdns.c:1909-1967, use a buffer of 1500 bytes, so
  no such entry is ever made.
- A getaddrinfo request cancelled by its user may report something else: exactly when, at the cancellation, both
  sub-requests are outstanding and not both have answered with addresses already (`Getaddrinfo.CancelTold`,
  `Getaddrinfo.CancelNotTold`; `Getaddrinfo.CancelToldAsFailure` is one such run).
- `event_tagging.c` describes integers and tags as big-endian (lines 79-95); both are written lowest part first,
  and the models follow the code.
- `event_base_init_common_timeout` carries over microseconds only above a million, so that a duration with exactly a
  million gets a common timeout of its own (`Scheduler.SharedExactly`).
- On reconfiguration the tick of a bucket's last update is kept so that "the next update" adds what is due
  (bufferevent_ratelim.c:55-60). With the same tick length it does (`TokenBucket.CreditExact`). When the tick length
  changes the kept number is of another scale, and what is due is added exactly when both lengths give the last
  update the same number, apart from updates within a tick (`TokenBucket.RetunedExact`). A suspended bufferevent can
  stay without refill for a day (`RateLimit.StaleRun`).
- A refund that lifts a limit above its maximum defeats the overflow check of the bucket update
  (`TokenBucket.RefillExact`, `RateLimit.RefundOverflows`). In `RateLimit.RefundRun` a bufferevent gets there by
  calls alone, and ends with a negative limit and nothing suspended.
- `arc4_addrandom` ends with `rs.j = rs.i` and so forgets j: every state it can leave comes from exactly 256 states,
  one for each j the rounds may have ended with (`Arc4.AddedFrom`). The rounds themselves lose nothing
  (`Arc4.RoundsInjective`).

## Model

The first 47 rows are the main results; the others follow in the order of the parts above.

| member | source | states |
|---|---|---|
| `BufferRun.Run` | libevent-2.1.12-stable/buffer.c:290-2782 | any operations on any number of buffers: the invariant and a history of byte strings, step by step |
| `BufferLaws.RunIsIdeal` | libevent-2.1.12-stable/buffer.c:290-2782 | every such run is the run of the obvious functions on plain sequences |
| `BufferLaws.RunConserves` | libevent-2.1.12-stable/buffer.c:798-1347 | runs that only move bytes, within and between buffers, conserve the multiset of all bytes |
| `BufferReserve.CommitPieces` | libevent-2.1.12-stable/buffer.c:723-791 | writing any pieces that fit into reserved extents and committing them appends exactly the pieces, in order |
| `BufferReserve.AppendAlone` | libevent-2.1.12-stable/buffer.c:670-791 | reserving a single extent, writing into it and committing it: refused if and only if, before the reservation, the slot chain has some space but too little, is worth neither realigning nor copying, and the chain behind it has enough and is not the last |
| `BufferReserve.RefusedExtent` | libevent-2.1.12-stable/buffer.c:1994-2005 | a buffer brought there by reserving, committing and reserving: 500 bytes are reserved and their extent is refused |
| `BufferSplice.RemoveBuffer` | libevent-2.1.12-stable/buffer.c:1259-1347 | moves exactly the first n bytes, except that the bytes of the chain in which the split falls are lost exactly when the destination would exceed the largest size; the number is cut to an int |
| `BufferPullup.Pullup` | libevent-2.1.12-stable/buffer.c:1349-1461 | keeps the byte string and the invariant; the result is the first chain with at least the bytes asked for, or null exactly when there are not so many, none are asked for, or they do not fit a chain |
| `BufferSearch.SearchRange` | libevent-2.1.12-stable/buffer.c:2720-2782 | the least position at or behind the start where the pattern occurs and ends by the end, or not-found if and only if there is none; empty and oversized patterns give the start |
| `BufferLines.ReadLn` | libevent-2.1.12-stable/buffer.c:1686-1723 | no line if and only if frozen or without an end of line; else the old string is line ++ end ++ rest |
| `InterestRun.Run` | libevent-2.1.12-stable/evmap.c:272-417 | any adds, deletes, dispatches, reinitialisations, disturbances, and descriptors opened and closed, with either backend: which events are in use, an add the kernel refuses or a full counter being an add that fails; and after a dispatch the kernel waits for exactly what some event in use waits for, on every descriptor it takes that has not been disturbed or opened since its set last changed |
| `InterestSet.EventBase.Dispatch` | libevent-2.1.12-stable/epoll.c:416-462 | apply, then clear: the kernel set of a descriptor equals its counters if it was undisturbed or a change was pending |
| `EpollTable.TableIsRule` | libevent-2.1.12-stable/epolltable-internal.h:40-85 | all 512 transcribed rows are what the generating rule gives (with EPOLLRDHUP) |
| `SchedulerRun.Run` | libevent-2.1.12-stable/event.c:2596-3096 | any run of adds, deletes, timers taken off, activations, finalizations, cancellations, timeouts, dequeuing and running, at any times and also between dequeuing a callback and the end of its run: a history of whole states, each of which follows from the one before by the function of the command (all flags, both kinds of queues in their order, the common lists, deadlines, intervals and results), and in none of which a common timeout is lost |
| `SchedulerRun.NeverLost` | libevent-2.1.12-stable/event.c:1449-1482 | whatever event waits in a common list, the timer of the list is in the heap no later than its deadline, is active, or is being run |
| `SchedulerRun.Meaning` | libevent-2.1.12-stable/event.c:3963-4020 | the invariant spelled out: a callback is in its priority's active queue, or in the later queue, or neither, exactly as its flags say; EVLIST_TIMEOUT holds iff it is in the heap or a common list; event_count_active and event_count are exact |
| `SchedulerLaws.TimeoutsMean` | libevent-2.1.12-stable/event.c:3180-3204 | what the command for due timeouts comes to, for any state it may leave: exactly the events of the heap that were due are active for EV_TIMEOUT and in no other structure, and each queue holds those of its callbacks that did not fire, in their old order, and then those that did, the earliest first |
| `SchedulerLaws.ElapsedMeans` | libevent-2.1.12-stable/event.c:1461-1482 | what the run of a common timer comes to: the first events of its list fire, exactly as far as they are due, in the order of the list behind all others of their queues; then the timer is set for the next |
| `SchedulerPeriods.KeepsPeriod` | libevent-2.1.12-stable/event.c:1561-1624 | a persistent event keeps its period over any run in which the user leaves it alone: taken off its queue k times, each time for its timeout and not a whole interval late, it is due k intervals after its first deadline, whatever happens to all other events |
| `MinHeap.Heap.TakeDue` | libevent-2.1.12-stable/event.c:3193-3204 | the loop over the top of the array heap takes off exactly the events that are due, the earliest first and each once, and leaves a heap of the others |
| `DnsPackets.WritePacket` | libevent-2.1.12-stable/evdns.c:1614-1678 | any list of names written in turn with one shared table: succeeds whenever the names have labels of 1 to 63 bytes, are within 255, and all fits uncompressed, and fails exactly at a record whose compressed name or rest does not; the header, each name and each rest lie end to end; a name that an earlier record has takes two bytes, unless the table was full then; name_parse at each start gives the name and the offset past its encoding, and the whole table is right, if no entry lies past the reach of a pointer, as none does in a buffer of 0x4000 bytes |
| `DnsPackets.SharedSuffix` | libevent-2.1.12-stable/evdns.c:1638-1678 | a suffix that a name shares with an earlier one of the packet costs two bytes or nothing, as long as the table is not full: the name ends there or before |
| `DnsNames.HoldsRead` | libevent-2.1.12-stable/evdns.c:976-1030 | pointers that go strictly backwards, to an earlier run, are followed to the end: the loop guard never stops a parse of what the packet holds (section 4.1.4 of RFC 1035) |
| `DnsNames.DnsnameToLabels` | libevent-2.1.12-stable/evdns.c:1614-1678 | the bytes before are kept, the encoding holds the name, and every table entry still points at its suffix; the labels go on exactly up to the first suffix that the table held before, then comes a pointer to the first entry for it; up to there the suffixes enter the table until it has 128 entries; -1 and -2 exactly at the first label that is too long or does not fit |
| `Inflight.Run` | libevent-2.1.12-stable/evdns.c:306-315 | any commands, among them a reply with any id and the end of any request in flight: a history of the requests in flight, step by step, and the buckets hold exactly as many requests of each id as the plain count says |
| `Getaddrinfo.Run` | libevent-2.1.12-stable/evdns.c:4391-4847 | any interleaving of replies, deliveries, timeout and cancel: a history of states in which each step is what the event does, all of them good |
| `Getaddrinfo.ExactlyOnce` | libevent-2.1.12-stable/evdns.c:4391-4847 | in every good state: when nothing is outstanding the user has been told exactly once and the memory freed exactly once; before, it has not been freed and the user told at most once |
| `Getaddrinfo.BothTold` | libevent-2.1.12-stable/evdns.c:4457-4640 | in any history of a request for both families in which both replies have come and neither timer nor user interfered, in either order: one call, with the addresses of version 4 and then those of version 6, or if there are none with the error of the reply that came last |
| `Getaddrinfo.CancelTold` | libevent-2.1.12-stable/evdns.c:4391-4847 | in any history: a user who cancels when one sub-request is outstanding, or both have answered with addresses already, is never told anything but the cancellation |
| `Getaddrinfo.CancelNotTold` | libevent-2.1.12-stable/evdns.c:4391-4847 | in every other state in which a user can cancel there are events after which something else has been told |
| `TagCodec.StreamRoundTrip` | libevent-2.1.12-stable/event_tagging.c:260-484 | any list of 32-bit tags with payloads below 2^31 bytes comes back from its stream, trailing bytes untouched |
| `Tagging.SendAll` | libevent-2.1.12-stable/event_tagging.c:260-484 | any list of records marshalled to an empty buffer is unmarshalled to itself, and the buffer is empty again |
| `TokenBucket.RefillExact` | libevent-2.1.12-stable/bufferevent_ratelim.c:93-105 | the overflow-avoiding update equals min(maximum, limit + n * rate), in machine arithmetic, if and only if the limit is not above the maximum (or so many ticks passed that it makes no difference) |
| `TokenBucket.RetunedExact` | libevent-2.1.12-stable/bufferevent_ratelim.c:50-66 | after a change of the tick length the ticks passed in the new length are credited if and only if the tick kept from the last update is the one the new length gives it (or no tick has passed and the kept one lies ahead) |
| `TokenBucket.Window` | libevent-2.1.12-stable/bufferevent_ratelim.c:73-111 | over any steps, in a window of T ticks no more than maximum + T * rate + what is refunded is let through |
| `RateLimit.StaleRun` | libevent-2.1.12-stable/bufferevent_ratelim.c:393-439 | a bufferevent that has been given its limit, has used it up, and been given another tick length stays suspended through any number of refill callbacks within a day |
| `RateRun.Run` | libevent-2.1.12-stable/bufferevent_ratelim.c:197-439 | over any run under one configuration: the bytes each command moves, and between any two commands no more than maximum + ticks * rate + what is refunded; no limit is ever above its maximum |
| `RateLaws.NothingLost` | libevent-2.1.12-stable/bufferevent_ratelim.c:73-124 | of such a run, if no look is more than the largest int of ticks behind the one before: what is left, and what was moved and charged, is exactly the first limit and the tokens of all ticks up to the last look, unless some look found the limit at its maximum; then it is no more |
| `RateRun.RunAny` | libevent-2.1.12-stable/bufferevent_ratelim.c:272-1022 | under any commands, looks at the limit and reconfigurations, except that a refund above the maximum is not made: a history of states, each step what the action does to the limits, the suspensions and the timer, and in every one a limit <= 0 means suspended, and suspended means the refill timer is pending, or its callback queued or running |
| `RateGroup.NoneForgotten` | libevent-2.1.12-stable/bufferevent_ratelim.c:228-253 | in every state of every interleaving: pending_unsuspend implies not suspended, and outside a releasing pass a member carrying the suspension is in a suspended group or its release is pending |
| `RateGroup.AllVisited` | libevent-2.1.12-stable/bufferevent_ratelim.c:487-523 | the members of a group are distinct, and every pass that ends, in any interleaving, has visited each of them exactly once |
| `RateGroup.AllSuspended` | libevent-2.1.12-stable/bufferevent_ratelim.c:349-371 | in any interleaving with other threads: when a suspending pass ends, the group is suspended with no release pending, each member was visited, and carries the suspension if its lock could be had then or if it carried it at first |
| `Arc4.Run` | libevent-2.1.12-stable/arc4random.c:99-125 | after any run of adding and getting, the state and the bytes given out are those of the rounds, and every byte value is still in the state |
| `Arc4.RoundsInjective` | libevent-2.1.12-stable/arc4random.c:112-122 | any number of rounds with the same data lose nothing: different states stay different |
| `Arc4.AddedFrom` | libevent-2.1.12-stable/arc4random.c:110-125 | a state is what is left after adding the data to x if and only if x is one of its 256 sources, which are distinct and are found by running the rounds backwards: only the last j is lost |
| `Arc4.Unbiased` | libevent-2.1.12-stable/arc4random.c:512-545 | every residue has the same number of accepted words: 2^32 / upper_bound |
| `Arc4.Uniform` | libevent-2.1.12-stable/arc4random.c:512-545 | the residue of the first accepted word; words before it are all below min |
| `Evbuffer.ChainNew` | libevent-2.1.12-stable/buffer.c:156-193 | fails exactly when header and payload cannot be expressed; else a new empty chain whose memory is the least 1024 * 2^i that holds header and payload, less the header |
| `Evbuffer.CapacityLeast` | libevent-2.1.12-stable/buffer.c:169-184 | the size is 1024 * 2^i for the least i that is enough, up to half the largest size; above that just what is asked for |
| `Evbuffer.EvBuffer.Valid` | libevent-2.1.12-stable/evbuffer-internal.h:80-101 | (predicate; the invariant every buffer method keeps) first/next spell out distinct chains, `last` is the final one, the cached slot is exactly that of the last non-empty chain or the head slot, total_len is the length of the byte string, and total_len = length at the last clearing + n_add_for_cb - n_del_for_cb |
| `Evbuffer.EvBuffer.SlotFacts` | libevent-2.1.12-stable/buffer.c:703-721 | the chain in the cached slot is the chain at the intended place, and is missing only in a buffer without chains |
| `Evbuffer.EvBuffer.FreeTrailingEmptyChains` | libevent-2.1.12-stable/buffer.c:290-303 | exactly the chains behind the data are cut off, the byte string stays, and the slot returned is the one behind the last kept chain |
| `Evbuffer.EvBuffer.ChainInsert` | libevent-2.1.12-stable/buffer.c:308-327 | the new chain follows the kept chains, its data follows the byte string, and all caches are exact afterwards |
| `Evbuffer.EvBuffer.RunCallbacks` | libevent-2.1.12-stable/buffer.c:455-511 | callbacks are told the exact length at the last clearing and the bytes added and deleted since; the counters are cleared except for the first round of deferred callbacks |
| `BufferAdd.Add` | libevent-2.1.12-stable/buffer.c:1729-1824 | appends exactly the data, or fails exactly when frozen, overflowing or unallocatable, and then changes nothing |
| `BufferAdd.PrependBytes` | libevent-2.1.12-stable/buffer.c:1826-1910 | prepends exactly the data; when the rest cannot be allocated, -1 is returned although the suffix that fits has been prepended |
| `BufferAdd.RealignWorth` | libevent-2.1.12-stable/buffer.c:1927-1934 | a chain is realigned exactly if its data is up to 2048 bytes and no more than half of its memory, and there is room behind it then |
| `BufferDrain.Drain` | libevent-2.1.12-stable/buffer.c:1100-1166 | drops exactly the first len bytes (or all); frozen buffers with data refuse |
| `BufferDrain.CopyoutFrom` | libevent-2.1.12-stable/buffer.c:1189-1254 | copies exactly the bytes from the position on, as many as there are; its error cases |
| `BufferDrain.Remove` | libevent-2.1.12-stable/buffer.c:1169-1181 | what is removed followed by what is left is the old byte string; the number of bytes is cut to an int |
| `BufferSplice.AddBuffer` | libevent-2.1.12-stable/buffer.c:965-1009 | moves all bytes to the end of the other buffer, or changes neither |
| `BufferSplice.PrependBuffer` | libevent-2.1.12-stable/buffer.c:1054-1098 | moves all bytes to the front of the other buffer, or changes neither |
| `BufferSplice.AdvanceLastWithData` | libevent-2.1.12-stable/buffer.c:703-721 | brings the cached slot up to the last chain with data, however far behind it was |
| `BufferExpand.ExpandSinglechain` | libevent-2.1.12-stable/buffer.c:1938-2046 | keeps the byte string; fails exactly when the chain that is needed cannot be had; else the result has datlen free bytes, and is the chain behind the slot chain exactly when that is passed over, the last one, or the first with space |
| `BufferExpand.Expand` | libevent-2.1.12-stable/buffer.c:2160-2169 | afterwards the slot chain or one behind it has datlen free bytes; fails exactly when the chain that is needed cannot be had; changes no byte |
| `BufferExpand.CopyWorth` | libevent-2.1.12-stable/buffer.c:1994-1998 | data is worth copying to a new chain exactly if it is up to 4096 bytes, an eighth of the memory (rounded down) is free, and all fits a chain |
| `BufferReserve.ExpandFast` | libevent-2.1.12-stable/buffer.c:2050-2158 | afterwards at most n consecutive chains from the first with space provide datlen bytes; the byte string stays |
| `BufferReserve.ReadSetupVecs` | libevent-2.1.12-stable/buffer.c:2224-2260 | the extents are free memory of consecutive chains, at most n, together at least (exactly, if asked) the bytes wanted, and all of a chain except possibly the last |
| `BufferReserve.ReserveSpace` | libevent-2.1.12-stable/buffer.c:670-701 | keeps the byte string; hands out free extents of at least the size; a single extent fails exactly when its chain cannot be had, and its place follows from the buffer before; with more extents no chain is given up while they suffice |
| `BufferReserve.ExtentsDisjoint` | libevent-2.1.12-stable/buffer.c:2245-2255 | extents handed out together are in different chains |
| `BufferReserve.CommitSpace` | libevent-2.1.12-stable/buffer.c:723-791 | accepts exactly extents that are free memory of the last chain or of consecutive chains from the first with space; then appends exactly the bytes they cover; otherwise nothing changes |
| `BufferReserve.AppendReserved` | libevent-2.1.12-stable/buffer.c:670-791 | reserving, filling the extents one after the other and committing appends exactly the data, for any size and two or more extents |
| `BufferReserve.PrefixAccepted` | libevent-2.1.12-stable/buffer.c:746-769 | whatever lengths within the extents the user hands back, for as many of them as were used, the commit accepts them |
| `BufferReserve.SingleAccepted` | libevent-2.1.12-stable/buffer.c:736-769 | an extent is accepted alone if and only if its chain is the last or the first with space |
| `BufferReserve.RefusedMeans` | libevent-2.1.12-stable/buffer.c:1927-2005 | when an extent reserved alone will be refused, in numbers: data in the slot chain, some space but too little, the data over 2048 bytes or half the memory (or no room behind it), and over 4096 bytes or with less than an eighth free, and the space in the next chain, not the last |
| `BufferReserve.NeverFails` | libevent-2.1.12-stable/buffer.c:1938-2046 | the reservation is made if it fits a chain together with what any chain holds |
| `BufferSearch.SetPtr` | libevent-2.1.12-stable/buffer.c:2622-2672 | a pointer to exactly the position, or not-found exactly when it is past the end; overflow leaves the pointer |
| `BufferSearch.PtrMemCmp` | libevent-2.1.12-stable/buffer.c:2678-2712 | zero if and only if the bytes occur at the pointer, across chains; else the difference of the first bytes that differ, or -1 when so many bytes are not there |
| `BufferSearch.Find` | libevent-2.1.12-stable/buffer.c:2577-2595 | the offset, in a first chain that holds the whole match, of the first match in the string |
| `BufferLines.StrChr` | libevent-2.1.12-stable/buffer.c:1473-1493 | the first position of the byte, or -1 if and only if there is none |
| `BufferLines.FindEol` | libevent-2.1.12-stable/buffer.c:1522-1542 | the first CR or LF, over chunks of 128 bytes and chains |
| `BufferLines.StrSpn` | libevent-2.1.12-stable/buffer.c:1544-1581 | how many bytes in a row are in the set |
| `BufferLines.SearchEol` | libevent-2.1.12-stable/buffer.c:1596-1684 | the first end of line and its length, for each of the five styles, or none if and only if there is none |
| `BufferLines.EolUnique` | libevent-2.1.12-stable/buffer.c:1596-1684 | there is one first end of line, so the search is determined |
| `BufferLines.SplitLaw` | libevent-2.1.12-stable/buffer.c:1686-1723 | what the split means for each style: the end of line is one of the style, and the line is free of it |
| `BufferRun.Perform` | libevent-2.1.12-stable/buffer.c:1100-2169 | one operation does to the byte string what the definition says, whatever the chains |
| `BufferLaws.DoesIdeal` | libevent-2.1.12-stable/buffer.c:1100-2169 | an operation for which room and memory suffice is the obvious function on byte strings |
| `EpollTable.TableIndex` | libevent-2.1.12-stable/epolltable-internal.h:124-134 | an index in range for every combination of old events and changes |
| `EpollTable.IndexDecodes` | libevent-2.1.12-stable/epolltable-internal.h:124-134 | the index arithmetic picks the row of exactly those old events and changes |
| `InterestSet.Kernel.Ctl` | libevent-2.1.12-stable/epoll.c:290-345 | the kernel: a map from descriptor to mask with EEXIST, ENOENT and EBADF |
| `InterestSet.ApplyOneChange` | libevent-2.1.12-stable/epoll.c:266-353 | an empty change does nothing; any other leaves the kernel with exactly the wanted set, whatever it held before |
| `InterestSet.WantedIsInterest` | libevent-2.1.12-stable/evmap.c:272-349 | the counters are positive exactly for the kinds some event of the list waits for |
| `InterestSet.ChangesAddUp` | libevent-2.1.12-stable/evmap.c:865-946 | a coalesced change followed by an add or a delete is the change to the sum |
| `InterestSet.EventBase.Backend` | libevent-2.1.12-stable/evmap.c:716-770 | (predicate) changelist entries and idxplus1 back-pointers are in bijection, and each change leads from the old events to what the backend was asked for |
| `InterestSet.EventBase.MakeSpace` | libevent-2.1.12-stable/evmap.c:204-232 | room for the slot without losing an entry; fails exactly for a slot whose array would be too large, and then changes nothing |
| `InterestSet.EventBase.GetOrConstruct` | libevent-2.1.12-stable/evmap.c:834-863 | the index of the one change of the descriptor, made if missing, with the back-pointer set |
| `InterestSet.EventBase.ChangelistAdd` | libevent-2.1.12-stable/evmap.c:865-893 | what the backend is asked for grows by exactly the kinds; the bijection is kept |
| `InterestSet.EventBase.ChangelistDel` | libevent-2.1.12-stable/evmap.c:895-946 | ... and shrinks by exactly the kinds, taking back an add of kinds not set before |
| `InterestSet.EventBase.NochangelistAdd` | libevent-2.1.12-stable/epoll.c:374-393 | the immediate path brings the kernel to the union at once, or reports the error and changes nothing |
| `InterestSet.EventBase.NochangelistDel` | libevent-2.1.12-stable/epoll.c:395-414 | ... and to the difference |
| `InterestSet.EventBase.IoAdd` | libevent-2.1.12-stable/evmap.c:272-349 | the event joins the list and the counters unless it fails, which it does exactly for a descriptor too large for the map, a full counter or a backend error; 1 exactly when it is the first of a kind |
| `InterestSet.EventBase.IoDel` | libevent-2.1.12-stable/evmap.c:353-417 | exactly that event leaves the list and the counters; 1 exactly when it was the last of a kind |
| `InterestSet.EventBase.ApplyChanges` | libevent-2.1.12-stable/epoll.c:355-372 | each usable descriptor with a pending change gets exactly the set asked for; others keep theirs |
| `InterestSet.EventBase.RemoveAll` | libevent-2.1.12-stable/evmap.c:778-797 | the changelist is empty and every back-pointer cleared |
| `InterestSet.EventBase.Reinit` | libevent-2.1.12-stable/evmap.c:606-664 | after a new epoll descriptor every set is established again |
| `InterestRun.CountIs` | libevent-2.1.12-stable/evmap.c:299-330 | a counter is the number of events of the list that wait for its kind |
| `InterestRun.RoomForMore` | libevent-2.1.12-stable/evmap.c:299-330 | no event is refused as long as fewer than 65535 events wait for its descriptor and the kernel takes it or is told later; one is that waits for a kind that 65535 wait for |
| `InterestRun.MaskUnique` | libevent-2.1.12-stable/epoll.c:355-414 | so the changelist and the immediate path end with the same kernel set |
| `DnsNames.ReadableIff` | libevent-2.1.12-stable/evdns.c:1614-1678 | splitting and joining at dots loses nothing, exactly for names without empty labels (or the root) |
| `DnsNames.HoldsExtend` | libevent-2.1.12-stable/evdns.c:976-1030 | bytes written later do not change what is held |
| `DnsNames.NameParse` | libevent-2.1.12-stable/evdns.c:976-1030 | fails exactly when the labels cannot be read or do not fit; else the name, terminated by zero, and the offset just past its encoding |
| `DnsNames.LabelTable.GetPos` | libevent-2.1.12-stable/evdns.c:1574-1583 | the position of the first entry for exactly this suffix, or -1 if there is none |
| `DnsNames.LabelTable.Add` | libevent-2.1.12-stable/evdns.c:1586-1601 | one more entry, unless the table of 128 is full |
| `DnsNames.PointerExact` | libevent-2.1.12-stable/evdns.c:1645-1650 | a compression pointer decodes to its entry if and only if the entry is below 0x4000 |
| `DnsNames.OneOutcome` | libevent-2.1.12-stable/evdns.c:1638-1678 | where a name ends, and with what length or error, is determined by the name, the place, the room and the table |
| `DnsNames.LongLabel` | libevent-2.1.12-stable/evdns.c:1650-1671 | a first label that is too long gives -1, or -2 if those before it do not fit |
| `DnsNames.CompressedLength` | libevent-2.1.12-stable/evdns.c:1638-1646 | a name with short labels whose first suffix in the table starts at a label takes its bytes up to there and two more, or fails with -2 exactly if they do not fit |
| `DnsNames.PlainLength` | libevent-2.1.12-stable/evdns.c:1646-1678 | one of which the table holds nothing takes all its bytes and the bytes at both ends, or fails with -2 exactly if they do not fit |
| `DnsNames.TableComplete` | libevent-2.1.12-stable/evdns.c:1636-1672 | once a name is complete, every entry added for it points at bytes that hold its suffix |
| `DnsPackets.NameReads` | libevent-2.1.12-stable/evdns.c:976-1030 | a name the packet holds parses back to itself if and only if it has no empty label or is the root |
| `DnsPackets.FarPointer` | libevent-2.1.12-stable/evdns.c:1645-1650 | the counterexample past that reach: a pointer to position 0x4000 is read as the root |
| `Inflight.RingInsert` | libevent-2.1.12-stable/evdns.c:2754-2768 | the request is last in the circle, which is linked both ways |
| `Inflight.RingRemove` | libevent-2.1.12-stable/evdns.c:2716-2751 | exactly that request leaves the circle, its links cleared, and the head stays right |
| `Inflight.Insert` | libevent-2.1.12-stable/evdns.c:2754-2768 | the request is in its bucket and nothing else changes |
| `Inflight.RemoveAt` | libevent-2.1.12-stable/evdns.c:2716-2751 | exactly the request leaves; other buckets are untouched |
| `Inflight.Find` | libevent-2.1.12-stable/evdns.c:472-487 | a request of the index with that id, or null if and only if none is in flight |
| `Inflight.Resize` | libevent-2.1.12-stable/evdns.c:3425-3454 | every request is moved to its new bucket: none lost, none duplicated; limits below 1 count as 1 |
| `Inflight.Base.Perform` | libevent-2.1.12-stable/evdns.c:652-710 | submitting, answering, ending a given request and resizing change the set in flight as they should |
| `Getaddrinfo.Request.GotResolve` | libevent-2.1.12-stable/evdns.c:4457-4640 | the user is told when the last reply comes, all addresses, version 4 first, else the merged error |
| `Getaddrinfo.Request.TimeoutCb` | libevent-2.1.12-stable/evdns.c:4391-4441 | the user is told of the reply that is there; the other sub-request is cancelled, and the memory stays while it is outstanding |
| `Getaddrinfo.Request.CancelByUser` | libevent-2.1.12-stable/evdns.c:4832-4847 | cancelling only marks and cancels; telling and freeing are left to the replies |
| `Getaddrinfo.FirstDelivered` | libevent-2.1.12-stable/evdns.c:4613-4618 | the first of two replies tells nothing, frees nothing and sets the skew timer, if the user still waits |
| `Getaddrinfo.OneTold` | libevent-2.1.12-stable/evdns.c:4457-4640 | the reply of a request for one family: its addresses, else the error it stands for |
| `Getaddrinfo.TimerTold` | libevent-2.1.12-stable/evdns.c:4391-4441 | the timer tells of the reply that is there, by its addresses or its error, and cancels the other sub-request if it still waits |
| `Getaddrinfo.CancelCancels` | libevent-2.1.12-stable/evdns.c:4832-4847 | a user's cancellation tells nothing, takes off the timer, and cancels exactly the sub-requests that still wait |
| `Getaddrinfo.CancelToldAsFailure` | libevent-2.1.12-stable/evdns.c:4391-4441 | an interleaving in which a cancelled request is told as a failure, not as cancelled |
| `Scheduler.InsertInOrder` | libevent-2.1.12-stable/event.c:3330-3358 | the event is placed behind the last one not later: the list stays sorted and no element is lost, and it is the one list of that kind |
| `Scheduler.Base.Core` | libevent-2.1.12-stable/event.c:3963-4020 | (predicate) the invariant of event_base_assert_ok_nolock_ and more: flags stand for membership, counters for the flags, lists are sorted, an event being finalized is in no timeout structure |
| `Scheduler.Base.InsertActive` | libevent-2.1.12-stable/event.c:3376-3395 | an active callback is queued once, at the end of its priority; counters follow |
| `Scheduler.Base.RemoveLater` | libevent-2.1.12-stable/event.c:3251-3265 | exactly that callback leaves the later queue; counters follow |
| `Scheduler.Base.InsertTimeout` | libevent-2.1.12-stable/event.c:3414-3436 | the event is in the heap or, in order, in its common list; the flag and event_count follow |
| `Scheduler.Base.RemoveTimeout` | libevent-2.1.12-stable/event.c:3266-3286 | ... and leaves it |
| `Scheduler.Base.EventDel` | libevent-2.1.12-stable/event.c:2809-2898 | afterwards the event is in no structure and has no flag; one being finalized is left alone unless asked otherwise; the result is that of the event map; every common timeout but the one of its own timer stays noticed |
| `Scheduler.Base.CallbackActivate` | libevent-2.1.12-stable/event.c:3005-3034 | 1 exactly when it was in no queue; afterwards in its active queue; a callback being finalized is left alone |
| `Scheduler.Base.EventActive` | libevent-2.1.12-stable/event.c:2918-2967 | active, with the new results added to those it had if it was queued; an event being finalized is left alone |
| `Scheduler.Base.CallbackActivateLater` | libevent-2.1.12-stable/event.c:3036-3047 | in the later queue unless it was in a queue |
| `Scheduler.Base.CallbackCancel` | libevent-2.1.12-stable/event.c:3068-3096 | out of all queues; an event is deleted; the exact result; one being finalized is left alone |
| `Scheduler.Base.EventFinalize` | libevent-2.1.12-stable/event.c:2246-2258 | deleted, then active for its finalizer, so that no finalizing event has a timeout; one being finalized is left alone |
| `Scheduler.Base.CallbackFinalize` | libevent-2.1.12-stable/event.c:2288-2303 | the same for a plain callback |
| `Scheduler.Base.EventAdd` | libevent-2.1.12-stable/event.c:2596-2766 | fails exactly for a finalizing event or a failing event map; else the whole state is the one with the event inserted, its deadline now + interval or the absolute one, and the timer of its common timeout set if it is the first; every common timeout stays noticed |
| `Scheduler.Base.Schedule` | libevent-2.1.12-stable/event.c:1449-1456 | the timer is in the heap with exactly the first deadline |
| `Scheduler.Base.TimeoutProcess` | libevent-2.1.12-stable/event.c:3180-3204 | terminates; the events of the heap that are due, and no others, leave it and become active with EV_TIMEOUT, one after the other, each the earliest then; nothing else changes |
| `Scheduler.Base.CommonTimeoutCallback` | libevent-2.1.12-stable/event.c:1461-1482 | exactly a first part of the list, the events that are due, becomes active in its order; the timer is set for the first of the others; nothing else changes |
| `Scheduler.Base.MakeLaterActive` | libevent-2.1.12-stable/event.c:3438-3451 | the later queue is appended to the queues in order, and nothing is counted twice |
| `Scheduler.Base.InitCommonTimeout` | libevent-2.1.12-stable/event.c:1486-1558 | the index of the common timeout of that duration, with more than a second of microseconds carried over and the mark of a common timeout taken off: an old one if there is one, else a new one behind the others; -1 exactly if there is none and 256 are in use |
| `Scheduler.SharedExactly` | libevent-2.1.12-stable/event.c:1494-1509 | durations of the same length share a common timeout, except for one with exactly a million microseconds and one with another number |
| `Scheduler.MarkedIs` | libevent-2.1.12-stable/event.c:1396-1416 | the timeval handed out for a common timeout, with the mark and the index above its microseconds, is recognised and stands for its duration |
| `Scheduler.NotMarked` | libevent-2.1.12-stable/event.c:1396-1416 | a number of microseconds without the mark, or with an index not in use, is not |
| `Scheduler.Base.Reschedule` | libevent-2.1.12-stable/event.c:1561-1624 | unless it cannot be added, a persistent event with a timeout is due an interval after it was due, or from now if it ran for another reason or that is over; no common timeout is lost |
| `SchedulerPeriods.NextPeriod` | libevent-2.1.12-stable/event.c:1577-1608 | a persistent event due at d with interval v, taken for its timeout at a time up to d + v, is next due at d + v; taken later or for another reason, v from now |
| `SchedulerPeriods.NoPeriod` | libevent-2.1.12-stable/event.c:1571-1609 | one without an interval keeps the timeout it has, or has none |
| `Scheduler.Base.RemoveTimer` | libevent-2.1.12-stable/event.c:2554-2572 | the timer of the event is off and its interval forgotten; its other flags stay, and every common timeout stays noticed |
| `Scheduler.Base.RunCurrent` | libevent-2.1.12-stable/event.c:1633-1751 | the timer of a common timeout lets exactly the due events of its list fire and changes nothing else; any other callback changes nothing; the invariant is kept |
| `Scheduler.Base.Dequeue` | libevent-2.1.12-stable/event.c:1633-1673 | the first callback of the queue leaves it; a persistent event stays added, a one-shot event is deleted, nothing else changes |
| `Scheduler.Base.FirstQueue` | libevent-2.1.12-stable/event.c:1759-1802 | the least priority whose queue is not empty |
| `Scheduler.Base.Register` | libevent-2.1.12-stable/event.c:2112-2161 | a callback newly assigned has no flags and disturbs nothing |
| `MinHeap.Heap.TopLeast` | libevent-2.1.12-stable/minheap-internal.h:69 | no event of the heap is before the one on top |
| `MinHeap.Heap.AssertOk` | libevent-2.1.12-stable/event.c:3970-3981 | what event_base_assert_ok_nolock_ checks: no event is before its parent, and each knows its place |
| `MinHeap.Heap.Top` | libevent-2.1.12-stable/minheap-internal.h:69 | a least event of the set, or null if and only if it is empty |
| `MinHeap.Heap.ShiftUp` | libevent-2.1.12-stable/minheap-internal.h:165-175 | from a gap without smaller children the event goes up to where it belongs: the heap of the others and it |
| `MinHeap.Heap.ShiftDown` | libevent-2.1.12-stable/minheap-internal.h:177-190 | from a gap whose parent is not later the event goes down to where it belongs; a gap behind the end takes it out |
| `MinHeap.Heap.Reserve` | libevent-2.1.12-stable/minheap-internal.h:133-151 | the same heap in an array of at least the size; fails exactly when it needs to grow and cannot |
| `MinHeap.Heap.Push` | libevent-2.1.12-stable/minheap-internal.h:71-77 | the set with the event, or fails exactly when there is no place and no memory, and changes nothing |
| `MinHeap.Heap.Pop` | libevent-2.1.12-stable/minheap-internal.h:79-89 | a least event leaves the set, and knows that it is in no heap; null if and only if the set is empty |
| `MinHeap.Heap.Erase` | libevent-2.1.12-stable/minheap-internal.h:96-115 | exactly the event leaves the set, from any place; -1 if and only if it was not there |
| `MinHeap.Heap.Adjust` | libevent-2.1.12-stable/minheap-internal.h:117-129 | after any change of its time the event is in the heap at the right place, whether it was in it or not; fails exactly when one that was not finds no memory |
| `SchedulerRun.Start` | libevent-2.1.12-stable/event.c:604-741 | a new base with callbacks assigned to it satisfies the invariant of runs |
| `SchedulerLaws.QueueAfter` | libevent-2.1.12-stable/event.c:3180-3204 | when any events have fired one after the other, a queue is those that have not, in their old order, and then those that have, in the order they fired in |
| `SchedulerLaws.ExpiresInOrder` | libevent-2.1.12-stable/event.c:3193-3204 | whatever state the loop over the heap leaves, the events fired were those due, by their deadlines |
| `SchedulerLaws.LooksOrderly` | libevent-2.1.12-stable/event.c:4000-4009 | every queue of a base holds callbacks of its priority only, each once |
| `SchedulerLaws.LaterInOrder` | libevent-2.1.12-stable/event.c:3438-3451 | callbacks that move from the later queue go behind those already active of their priority, in their order |
| `TokenBucket.NoOvercredit` | libevent-2.1.12-stable/bufferevent_ratelim.c:80-86 | with 32-bit tick numbers and the guard against time going back, no more ticks are credited than passed since the last look |
| `TokenBucket.CreditExact` | libevent-2.1.12-stable/bufferevent_ratelim.c:80-86 | with one tick length, up to the largest int of ticks: exactly the ticks that have passed are credited |
| `TokenBucket.TickIs` | libevent-2.1.12-stable/bufferevent_ratelim.c:126-140 | the tick of a time is the number of whole tick lengths passed |
| `TokenBucket.UpdateExact` | libevent-2.1.12-stable/bufferevent_ratelim.c:73-111 | an update up to the largest int of ticks after the last one leaves min(maximum, limit + ticks * rate), and records the current tick |
| `TokenBucket.BackwardsIdle` | libevent-2.1.12-stable/bufferevent_ratelim.c:80-91 | an update does nothing when time has gone back by up to 2^31 ticks |
| `TokenBucket.LooksLoseNothing` | libevent-2.1.12-stable/bufferevent_ratelim.c:73-111 | an update on the way makes no difference to a later one |
| `TokenBucket.Bounded` | libevent-2.1.12-stable/bufferevent_ratelim.c:73-111 | over any steps the limit never exceeds the maximum |
| `RateLimit.NewConfig` | libevent-2.1.12-stable/bufferevent_ratelim.c:142-173 | a configuration is made exactly when 1 <= rate <= burst <= the largest signed size, in both directions |
| `RateLimit.Bufferevent.UpdateBuckets` | libevent-2.1.12-stable/bufferevent_ratelim.c:113-124 | both limits are refilled for the ticks since the last update; the invariant is kept |
| `RateLimit.Bufferevent.GetMax` | libevent-2.1.12-stable/bufferevent_ratelim.c:197-258 | the least of the own limit (or the maximum for one call) and the share of the group, and never negative; a closed group suspends and allows nothing |
| `RateLimit.ShareExact` | libevent-2.1.12-stable/bufferevent_ratelim.c:236-243 | a member's share, times the members, makes up the limit of the group but for a remainder, unless it is the least share |
| `RateLimit.AllowanceExact` | libevent-2.1.12-stable/bufferevent_ratelim.c:197-258 | what may be moved is positive only with a positive own limit and an open group, and then one of the own limit and the share, and no more than either |
| `RateLimit.Bufferevent.Decrement` | libevent-2.1.12-stable/bufferevent_ratelim.c:272-346 | suspended for bandwidth afterwards exactly when the limit is used up; the timer is set then, and taken off when nothing is suspended any more; the other direction is untouched; the invariant is kept exactly if a refund stays within the maximum |
| `RateLimit.Bufferevent.DecrementLimit` | libevent-2.1.12-stable/bufferevent_ratelim.c:968-1022 | suspension changes exactly when the limit crosses zero; the invariant is kept exactly if a refund stays within the maximum |
| `RateLimit.Bufferevent.RefillCallback` | libevent-2.1.12-stable/bufferevent_ratelim.c:393-439 | released exactly where the refilled limit is positive; otherwise the timer is set again |
| `RateLimit.Bufferevent.SetRateLimit` | libevent-2.1.12-stable/bufferevent_ratelim.c:559-635 | suspension follows the new limits; without a configuration nothing stays suspended for bandwidth |
| `RateLimit.RefundOverflows` | libevent-2.1.12-stable/bufferevent_ratelim.c:97-100 | the counterexample above the maximum: after a refund a positive limit can become negative in an update |
| `RateLimit.RefundRun` | libevent-2.1.12-stable/bufferevent_ratelim.c:968-1022 | a bufferevent given a limit and a refund, whose limit is negative after an update although nothing was ever moved and nothing is suspended |
| `RateLimit.StaleTick` | libevent-2.1.12-stable/bufferevent_ratelim.c:55-64 | after a change from ticks of a second to ticks of a tenth an update does nothing, at any time within a day |
| `RateRun.Perform` | libevent-2.1.12-stable/bufferevent_ratelim.c:197-439 | each command has its exact effect on both directions, and moves the bytes it says |
| `RateGroup.RandomOrder` | libevent-2.1.12-stable/bufferevent_ratelim.c:445-484 | the two loops visit the list from the random element round to it again: every member exactly once |
| `RateGroup.ReleaseExact` | libevent-2.1.12-stable/bufferevent_ratelim.c:487-504 | a pass releases exactly the members whose lock can be had, and leaves pending_unsuspend set if and only if there are others |
| `RateGroup.SuspendExact` | libevent-2.1.12-stable/bufferevent_ratelim.c:349-371 | a suspending pass, uninterrupted, leaves carrying exactly those who carried and the members whose lock can be had; the group is suspended, and no release pending |
| `RateGroup.LookSuspends` | libevent-2.1.12-stable/bufferevent_ratelim.c:228-241 | a member that looks at its limit while its group is suspended carries the suspension then |
| `RateGroup.LocksRespected` | libevent-2.1.12-stable/bufferevent_ratelim.c:349-371 | in any interleaving, nobody changes the suspension of a bufferevent whose lock another thread has |
| `RateGroup.JoinedSuspended` | libevent-2.1.12-stable/bufferevent_ratelim.c:758-779 | whoever joins a suspended group carries the suspension, whatever other threads do meanwhile |
| `RateGroup.LeftReleased` | libevent-2.1.12-stable/bufferevent_ratelim.c:787-809 | whoever has left carries nothing of the group |
| `Arc4.Generator.AddRandom` | libevent-2.1.12-stable/arc4random.c:110-125 | the state is a permutation of the 256 bytes before and after 256 stirring rounds |
| `Arc4.Stirs` | libevent-2.1.12-stable/arc4random.c:110-125 | the 256 rounds by their arithmetic: i steps through all places, j adds up the bytes found and those of the data in turn, and both places are exchanged |
| `Arc4.Generator.GetByte` | libevent-2.1.12-stable/arc4random.c:415-427 | one round, then the output byte of the new state; the permutation is kept |
| `Arc4.Generator.GetWord` | libevent-2.1.12-stable/arc4random.c:429-440 | four successive bytes, the first the highest |
| `Arc4.BigBytes` | libevent-2.1.12-stable/arc4random.c:429-440 | the bytes of a word are the four given, the first the highest |
| `Arc4.RoundInjective` | libevent-2.1.12-stable/arc4random.c:415-427 | a round loses nothing: different states stay different |
| `Arc4.LeastExact` | libevent-2.1.12-stable/arc4random.c:523-531 | `min` is 2^32 mod upper_bound in both branches of the 32-bit arithmetic, also for 2^31 |
| `Arc4.MostAccepted` | libevent-2.1.12-stable/arc4random.c:533-537 | more than half of all words are accepted |
| `TagCodec.NibblesExact` | libevent-2.1.12-stable/event_tagging.c:121-142 | a number needs exactly so many nibbles |
| `TagCodec.IntRoundTrip` | libevent-2.1.12-stable/event_tagging.c:319-363 | an integer that fits 32 or 64 bits decodes to itself with its encoded length, whatever follows |
| `TagCodec.IntFits` | libevent-2.1.12-stable/event_tagging.c:319-363 | whatever is decoded fits the width |
| `TagCodec.IntOnTheWire` | libevent-2.1.12-stable/event_tagging.c:121-142 | the bytes of an encoded integer: the number of its nibbles less one in the high half of the first byte, then the nibbles, the lowest first, in low and high halves by turns, and a zero in a half left over |
| `TagCodec.NoMore` | libevent-2.1.12-stable/event_tagging.c:121-142 | that many nibbles are enough and one less is not |
| `TagCodec.SomeInts` | libevent-2.1.12-stable/event_tagging.c:121-142 | 0, 0xaf0 and 0x1000 on the wire |
| `TagCodec.TagRoundTrip` | libevent-2.1.12-stable/event_tagging.c:177-246 | every 32-bit tag decodes to itself, in at most five bytes, whatever follows |
| `TagCodec.TagFits` | libevent-2.1.12-stable/event_tagging.c:213-221 | whatever tag is decoded fits 32 bits |
| `TagCodec.TagOnTheWire` | libevent-2.1.12-stable/event_tagging.c:177-196 | the bytes of a tag: seven bits each, the lowest first, with the high bit set on all but the last |
| `TagCodec.SomeRecords` | libevent-2.1.12-stable/event_tagging.c:260-267 | two records on the wire: the tag, then the length, then the payload |
| `TagCodec.TakeFramed` | libevent-2.1.12-stable/event_tagging.c:260-267 | a marshalled record is taken off whole and nothing more |
| `Tagging.EncodeIntInternal` | libevent-2.1.12-stable/event_tagging.c:121-154 | the loop over an array gives exactly the nibble encoding, without touching what is before it |
| `Tagging.EncodeTag` | libevent-2.1.12-stable/event_tagging.c:177-198 | appends exactly the encoding of the tag, of at most five bytes, or nothing exactly if the buffer is frozen at its end or has no room for it; its length is returned either way |
| `Tagging.DecodeTagInternal` | libevent-2.1.12-stable/event_tagging.c:200-246 | the tag at the front and its length, or -1 exactly when there is none; drained or unchanged, as asked and as the buffer allows |
| `Tagging.DecodeIntInternal` | libevent-2.1.12-stable/event_tagging.c:319-377 | the integer at a place of the buffer, over chains, or -1 exactly when there is none; no byte changes |
| `Tagging.PayloadLength` | libevent-2.1.12-stable/event_tagging.c:423-437 | looks at the header and changes nothing |
| `Tagging.PeekLength` | libevent-2.1.12-stable/event_tagging.c:405-421 | the length of the whole record, in 32 bits; nothing changes |
| `Tagging.Marshal` | libevent-2.1.12-stable/event_tagging.c:260-267 | appends exactly the framed record; a full buffer gets those of its three parts for which there is room, a frozen one none |
| `Tagging.MarshalBuffer` | libevent-2.1.12-stable/event_tagging.c:269-277 | appends the tag, the length in 32 bits and the bytes of the other buffer, which is emptied; below 2^32 bytes that is the framed record; of the tag and the length a full buffer gets what still fits, a frozen one gets nothing, and of a frozen one nothing is taken |
| `Tagging.MarshalInt` | libevent-2.1.12-stable/event_tagging.c:279-301 | appends the framed encoding of the integer, in either width; a full buffer gets those parts for which there is room, a frozen one none |
| `Tagging.MarshalTimeval` | libevent-2.1.12-stable/event_tagging.c:310-317 | appends both parts, each cut to 32 bits, in one framed record; a full buffer gets those parts for which there is room, a frozen one none |
| `Tagging.MarshalAll` | libevent-2.1.12-stable/event_tagging.c:260-267 | appends the stream of any list of records; a full buffer gets those parts of each for which there is room, a frozen one none |
| `Tagging.UnmarshalHeader` | libevent-2.1.12-stable/event_tagging.c:441-455 | takes off exactly the header and returns the payload length as an int, if the payload is there; else it says what is left; of a buffer whose start is frozen nothing is taken off, and the length is looked for where the tag is |
| `Tagging.Consume` | libevent-2.1.12-stable/event_tagging.c:457-466 | takes off exactly one record; a length that is negative as an int takes everything; else it says what is left |
| `Tagging.Unmarshal` | libevent-2.1.12-stable/event_tagging.c:470-484 | appends exactly the payload to the other buffer and takes the record off, or fails exactly when there is no whole record or no room, and says what is left then |
| `Tagging.UnmarshalInt` | libevent-2.1.12-stable/event_tagging.c:488-538 | the integer of a record with the tag wanted, if its encoding ends within the payload; what is left in either case |
| `Tagging.LeftBehind` | libevent-2.1.12-stable/event_tagging.c:441-538 | what a failed look leaves: the header is gone, or the tag alone if an integer with another tag was looked for; an integer goes with its payload if that is there; nothing goes from a frozen start |
| `Tagging.TaggedRoundTrip` | libevent-2.1.12-stable/event_tagging.c:280-301 | a marshalled integer is unmarshalled to itself, 32 and 64 bits |
| `Tagging.SendInt` | libevent-2.1.12-stable/event_tagging.c:279-538 | an integer marshalled to an empty buffer is unmarshalled to itself, and the buffer is empty again |
| `Tagging.UnmarshalTimeval` | libevent-2.1.12-stable/event_tagging.c:583-609 | the two integers of a record with the tag wanted; the payload is taken off in any case; none for a length that is negative as an int; what is left when there is no record |
| `Tagging.TimeRoundTrip` | libevent-2.1.12-stable/event_tagging.c:310-317 | a marshalled timeval below 2^32 is unmarshalled to itself |
| `Tagging.SendTimeval` | libevent-2.1.12-stable/event_tagging.c:310-609 | a timeval below 2^32 seconds and microseconds marshalled to an empty buffer is unmarshalled to itself, and the buffer is empty again |
| `Tagging.ReadBack` | libevent-2.1.12-stable/event_tagging.c:441-484 | a stream of any records, however laid out in chains, is read back whole; what follows stays |

## Left out

- BufferReserve.ReserveSpace: with several extents a failure is only bounded from one side (the size is near the largest a chain can have); and a reservation of size 0 with several extents needs some chain with space on, as the code asserts.
- BufferReserve.ExpandFast: the same one-sided bound for its failure.
- BufferSearch.Find: positions above the largest signed size.
- BufferLines.StrSpn: when the data is exhausted the pointer it leaves names the start of the last chain, whatever its position says; only the position is stated.
- BufferLines.ReadLn: the allocation of the line, and buffers longer than the largest size.
- BufferRun.Run: buffer callbacks and what they may do to buffers; how much of a prepend that fails gets in front, and how much a failing remove loses, depend on the chains, which byte strings do not show (BufferAdd.PrependBytes and BufferSplice.RemoveBuffer say it).
- BufferSplice.AddBuffer: a sum of two lengths above the largest size, which the code does not look for, is not cut to 64 bits.
- Evbuffer.EvBuffer.RunCallbacks: the calls themselves and their deferral through the event loop.
- Chains that are pinned, referenced, shared or backed by files, reading from and writing to descriptors, printf, and the release of memory with its reference counts.
- InterestSet.EventBase.Dispatch: whether EPOLLET is set (it is the union over all changes of the descriptor, deletions included) is not part of the equality.
- InterestRun.Run: signals; and that a change which is made and taken back between two dispatches may correct a disturbed descriptor, too.
- InterestSet.ApplyOneChange: the branch for a system without EPOLLRDHUP.
- DnsNames.DnsnameToLabels: the final zero may be written at bufLen itself, so room for it is required, as evdns_request_len supplies.
- DnsPackets.WritePacket: the other fields of a resource record, of which only the length matters.
- Getaddrinfo.Run: a reply DNS_ERR_SHUTDOWN, failing allocations, hosts files and cnames.
- Inflight.Run: when a request times out, retransmission, the waiting queue and its limits; ids are any numbers, and may repeat.
- Scheduler.Base.EventAdd: signals with their number of calls, the notification of another thread, and failing allocations of the heap.
- Scheduler.Base.InitCommonTimeout: a negative number of microseconds; failing allocations.
- Scheduler.Base.Core: the heap is a set with a least element here; the array that keeps one is MinHeap.
- Scheduler.Base.RunCurrent: what a user's callback does; those are steps of the run between Dequeue and RunCurrent.
- SchedulerRun.Run: event_base_loop itself with its exits, limits on callbacks and time, and the time cache; callbacks are assigned before the run, and a new one in the course of it is Scheduler.Base.Register.
- MinHeap.Heap.Pop: heaps of 2^31 events or more, whose places do not fit min_heap_idx (an int), nor do the places of their children fit an unsigned int; the same holds of Erase, Adjust, ShiftDown and TakeDue, and the index that Push sets is not cut to an int.
- RateLimit.Bufferevent.GetMax: the group is what its lock shows at that moment; its bucket is an instance of TokenBucket.
- RateLimit.Bufferevent.Decrement: the part for the group is a step of RateGroup; a limit must stay in 64 bits, as signed overflow is undefined.
- RateRun.RunAny: a refund that would lift a limit above its maximum, or overflow, is a step that does nothing, as the invariant does not survive it (RateLimit.RefundRun).
- RateLimit.NewConfig: a tick shorter than a millisecond gives msec_per_tick 0, by which the code then divides.
- RateGroup.NoneForgotten: says nothing about the middle of a releasing pass, which no other thread can see.
- RateGroup.RandomOrder: that the start is random.
- Arc4.Uniform: that a word is accepted at all; the words are given. Seeding and stirring are system calls.
- Tagging.DecodeTagInternal: the byte fetched behind five continued ones, whose value does not matter.
- evtag_unmarshal_fixed and evtag_unmarshal_string, which are UnmarshalHeader and a removal.
- The choice of a nameserver, sockets, timeouts of nameservers, and the server side of evdns.c.
- Bufferevents other than their rate limits, evrpc.c, http.c and the other backends.
