# Verified model of the NAC capture-card software

This project models six parts of the driver, library and test tools for the NAC network
capture card, and proves what they are for. Each part is written in the form the C code has
(methods with loops over fields, arrays and registers), and each is proved against a
specification that does not mention how it works.

| part | files | main results |
|---|---|---|
| 64-bit division out of 32-bit words | `Words`, `CountZeros`, `QuotientDigit`, `UDivMod`, `SignedDiv` | quotient and remainder are exact for all operands, in both builds; the signed versions are the truncating division of section 6.5.5 of ISO/IEC 9899:1999 |
| DMA rings shared with the card | `StreamTypes`, `RingQueue`, `TxCard`, `TxCopyRing`, `TxCommitRing`, `RxRing` | under every interleaving with the card the bytes that come out are the bytes that went in, in order; unread bytes are never overwritten |
| cutting files into records and putting them back in order | `Segments`, `Reorder` | a file of at least one chip comes out byte for byte, for every order of arrival that the ten slots can hold |
| the contiguous block allocator | `PageSort`, `Contig`, `MemPool`, `MemLife`, `Leases` | every block obtained is given back, and exactly once if and only if all areas are whole; two areas share a byte exactly if an odd block of one begins inside the other; card after card gets the first area that one of its searches finds in what is left, and the hand-out ends only where all of them fail; no area has two holders |
| the clock discipline loop | `Clock`, `Crystal`, `HostClock` | a sample is the crystal's frequency to one unit; a crystal within a megahertz of the nominal frequency is found in 184 samples, and the clock locks to the second within 70 ns by the 249th pulse; one further off is never followed |
| flash programming | `FlashChip`, `BitSwap`, `Flash` | a bank is programmed word for word, every bit at its mirror place, each address once, stopping in front of the first locked block; a stored serial number is read back |

Nothing has been executed. The results are statements about the model, for all inputs.

## How the model is built

- C words are bounded integers with the wrap-around written out (`Words.Add`, `Words.Sub`,
  `Words.Mul`, `Words.Shl`). A shift count of 32 or more, which C leaves undefined, is a
  precondition that every call has to meet.
- The host and the card run concurrently. Between any two accesses of the host to a register or
  a byte of the ring the card may do any number of steps (`Work`). A waiting loop carries a budget
  `polls`; when it is used up the outcome is `Polling`. Progress is claimed for cards that
  never rest, where a budget of one ring size is enough.
- A ring closes where its end is also its start. `Closing` says how the card reports that
  place: as the start, as the end, first as the end and later as the start, or as either from one
  read to the next. Safety is proved for all four.
- Device time, arrival order, the kernel's page supply and the chip's busy times are parameters
  or free choices.

## Where the code does less than it seems to

These are results, each with the exact condition. Where the condition alone does not show that
the code can get there, a run or an input does.

- A file shorter than one chip makes one record, which counts as the first and never as the
  last, so the file is opened and never closed (`src/flow_test/flow_test.c` line 435 before
  line 459). `Reorder.Transfer` delivers a file if and only if it has at least 1552 bytes and
  every arrival finds a place.
- A second copy of a record that has been delivered is kept in a slot, and the receiver has no way
  to tell. With two-record files and the very first record sent twice, the copy opens the next
  file as soon as the first one is closed, and from then on every file comes out with the first
  part of the file before it (`Reorder.Duplicated`). `Reorder.Transfer` is therefore about orders
  of arrival without duplicates.
- `nac_tx_stream_commit_bytes` wraps its offset only past the end (line 1583 of
  `lib/nac_stream.c`), although its comment says that the offset stays inside the buffer. A card
  that never rests makes room for every request beside the margin, for every way of reporting the
  closing place, as long as the offset is not at the very end of the buffer or the card reports
  that place as the end (`TxCommitRing.TxStream.GetStreamSpace`). The offset is there exactly
  after whole laps (`TxCommitRing.Run`). If the ring is empty then and the card reports the place
  as the start for good, a request is granted if and only if the cached count covers it, and
  otherwise polled for in vain. Two records that fill the ring exactly lead there
  (`TxCommitRing.FilledExactly`).
- `nac_tx_stop_stream` compares the registers as they read. After whole laps the host has written
  the closing place as the start, and a card that reports it as the end is waited for without
  end, although everything has been sent. In every other case the loop ends, if the card never
  rests and does not choose to report the place as the end (`TxCopyRing.TxStream.Drain`,
  `TxCopyRing.Run`).
- `nac_tx_stream_copy_bytes` refuses only buffers longer than the ring. One that is longer than
  the ring less 128 bytes is accepted and waited for in vain (`TxCopyRing.TxStream.CopyBytes`).
- A feed of 128 bytes or more is never read to its end with `nac_advance_stream`: at least a
  safety window stays unread behind the reader's aligned position. A shorter feed is offered whole
  (`RxRing.Run`).
- A reader of `nac_advance_stream` that keeps asking gets all of the feed but at most 128 bytes,
  from a card that never rests and does not report the closing place now one way and now the
  other, if the ring has at least 384 bytes and the extra window more than
  128 (`RxRing.Run`). With 256 bytes, or an extra window of at most 128, a reader that finds the
  first 128 bytes waiting never leaves the first lap (`RxRing.HeldBack`). The one other exception
  is a jam: the reader is at the start of its lap, a full lap has arrived and the card reports
  the closing place as the start (`RxRing.UnwrappedIsSafe`). The card is at its limit then, and
  no later call offers a byte; a card that fills the ring before the first advance gets there
  (`RxRing.FilledFirst`).
- `nac_mem_findcontig` takes an area out of the table whole if and only if the block size
  divides the size asked for; otherwise its topmost block stays in the table as if it were free
  (`Contig.TakenWhole`). `nac_mem_freecontig` frees that block with the area all the same. So
  over the life of the module every block is freed exactly once if and only if the size of every
  area is a multiple of the block size (`MemLife.Lifetime`); one card and two blocks are enough to
  free one twice (`MemLife.OddArea`). Line 187 of `drv/nac_mem.c` divides the memory by the number
  of cards, which need not give a multiple.
- For the same reason the areas of two cards can share bytes. They do exactly if the odd block of
  one begins inside the other, and never if both sizes are whole (`MemLife.SharedByte`,
  `MemLife.Lifetime`). Two cards that want 66 MB each, out of 32 MB blocks, get the areas from 256
  to 322 MB and from 320 to 353 MB (`MemLife.OverlappingAreas`).
- `nac_mem_alloc_ptable` writes past its table of high blocks exactly if, among the blocks it
  takes until the low table is full or the supply ends, more are high than that table has entries
  (`MemPool.Pool.AllocPtable`).
- A search from an empty entry fails and stays there, so an area that ends at the last live entry
  ends the hand-out for all later cards, whatever is free (`Contig.CarveTraps`, with an input in
  `Contig.TrapExample`). `MemPool.Pool.Carve` says exactly when a card gets nothing. It misses a
  halved size that would fit from the start of the table only if the cursor was on an empty entry
  or no entry from it on was empty (`MemPool.MissedFromStart`). On a sorted table a failed search
  from the start can have missed only an area whose lowest block is in the very last slot
  (`Contig.SearchIsComplete`).
- In a table without an empty entry a failed search moves the cursor to the last run, and smaller
  sizes are searched for only there (`Contig.AfterFailure`, with an input in
  `Contig.LastRunExample`).
- `duck_intr` takes a sample only within a megahertz of its estimate, and starts from the nominal
  100 MHz. A crystal at or below 99000000 Hz or from 101000001 Hz on is never followed: every one of
  its samples is rejected for good. Between 99000001 and 101000000 Hz every sample is taken
  (`Crystal.UnbrokenRun`); at these two frequencies it depends on the rounding of the sample.
- `nac_mem_free` of an area that is not lent drives its count below zero, and the area is never
  granted again. So null is returned exactly when every area is lent or was once freed like that
  (`Leases.Serve`).
- The signed quotient fits in 64 bits except for the most negative number divided by minus one,
  and then it wraps to the dividend (`SignedDiv.OnlyOverflow`).

## Model

| member | source | states |
|---|---|---|
| Words.AddSubWrap | drv/divdi3_impl.c:250-257 | the word sum and difference are the mathematical ones modulo 2^32 |
| CountZeros.TableIsBitLength | drv/divdi3_impl.c:203-213 | every entry of the 256-entry table is the bit length of its index |
| CountZeros.TopByte | drv/divdi3_impl.c:221-232 | the byte that the comparisons pick holds the highest set bit, so table entry plus offset is the bit length of the word |
| CountZeros.CountLeadingZeros | drv/divdi3_impl.c:214-233 | the macro yields 32 less the bit length, zero included |
| CountZeros.BitLengthBounds | drv/divdi3_impl.c:214-233 | what bit length means: the number lies between two neighbouring powers of two |
| CountZeros.Normalises | drv/divdi3_impl.c:361-371 | shifting by the leading zeros sets the top bit and loses none; the shift is zero exactly when the top bit was set already |
| QuotientDigit.DigitExists | drv/divdi3_impl.c:413-415 | two words divided by one have a one-word quotient whenever the high word is below the divisor |
| QuotientDigit.DigitUnique | drv/divdi3_impl.c:239-274 | a quotient digit and remainder that fit are the mathematical ones |
| QuotientDigit.UdivQrnnd | drv/divdi3_impl.c:327-340 | the divide primitive of machines that have one, with its precondition |
| QuotientDigit.JoinHalves | drv/divdi3_impl.c:249-272 | the or of a shifted half word and another half word adds them, nothing overlaps or is lost |
| QuotientDigit.GuessBounds | drv/divdi3_impl.c:246-249 | the product of guess and low half fits in a word, and the guess is at most two too large |
| QuotientDigit.Guess | drv/divdi3_impl.c:246-249 | what the guess leaves to divide, and how large it must be if it overshoots |
| QuotientDigit.Correct | drv/divdi3_impl.c:250-257 | at most two corrections are needed, and the comparison after the wrapping addition stands for the lost carry |
| QuotientDigit.HalfDigit | drv/divdi3_impl.c:246-257 | a half digit is exact, with a remainder below the divisor |
| QuotientDigit.TwoHalfDigits | drv/divdi3_impl.c:246-273 | long division by half words: two half digits and the last remainder divide the whole dividend |
| QuotientDigit.UdivQrnndC | drv/divdi3_impl.c:239-274 | for every normalised divisor above the high word: quotient times divisor plus remainder is the dividend, and the remainder is below the divisor |
| UDivMod.Digit | drv/divdi3_impl.c:276-280 | whichever divide primitive the build has, the digit and remainder are the exact ones |
| UDivMod.ShiftLeftPair | drv/divdi3_impl.c:405-408 | the shifted words and the word shifted out together are the pair times a power of two |
| UDivMod.ShiftRightPair | drv/divdi3_impl.c:502-508 | the shifted words are the pair divided by a power of two |
| UDivMod.ScaledDivision | drv/divdi3_impl.c:376-422 | dividing scaled operands gives the same quotient and a scaled remainder that the right shift restores |
| UDivMod.SubDdmmss | drv/divdi3_impl.c:464-505 | two-word subtraction, a final borrow is lost |
| UDivMod.UmulPpmm | drv/divdi3_impl.c:492 | the full two-word product |
| UDivMod.GuessLeaves | drv/divdi3_impl.c:491-494 | what a guess from the top divisor word leaves of the dividend |
| UDivMod.TopWordGuess | drv/divdi3_impl.c:485-498 | the digit guessed from the top divisor word is the true quotient or exactly one more, and the comparison with the product tells which |
| UDivMod.GuessTimesLow | drv/divdi3_impl.c:491-494 | the guess times the low divisor word stays below half of the double-word range |
| UDivMod.OneWordPlain | drv/divdi3_impl.c:321-351 | one-word divisor without normalising: exact quotient and remainder |
| UDivMod.NormalisedPair | drv/divdi3_impl.c:363-408 | normalising meets the precondition of the divide primitive, high word below divisor |
| UDivMod.OneDigit | drv/divdi3_impl.c:357-377 | one quotient digit, with the remainder still shifted |
| UDivMod.BothDigits | drv/divdi3_impl.c:378-418 | two quotient digits, with the first one known to be 1 if the divisor needs no shift |
| UDivMod.OneWordNormalizing | drv/divdi3_impl.c:355-426 | one-word divisor with normalising: the same exact quotient and remainder |
| UDivMod.TwoWordTop | drv/divdi3_impl.c:450-477 | a two-word divisor with its top bit set: the quotient is 0 or 1, exact quotient and remainder |
| UDivMod.NormalisedDivisor | drv/divdi3_impl.c:483-486 | normalising a two-word divisor loses nothing, sets the top bit and leaves zero low bits |
| UDivMod.GuessedDigit | drv/divdi3_impl.c:491-505 | three words by a normalised divisor of two: the digit is exact after the single correction, and the differences of the words are the remainder |
| UDivMod.TwoWordShifted | drv/divdi3_impl.c:478-510 | a two-word divisor with leading zeros: exact quotient and remainder |
| UDivMod.Udivmoddi4 | drv/divdi3_impl.c:301-517 | for all operands and both builds: traps exactly for a zero divisor, otherwise returns n/d and stores n%d when a place is given |
| UDivMod.Udivdi3 | drv/divdi3_impl.c:580-584 | the unsigned quotient, for all operands |
| UDivMod.Umoddi3 | drv/divdi3_impl.c:569-577 | the unsigned remainder, for all operands |
| SignedDiv.Negdi2 | drv/divdi3_impl.c:285-298 | negation modulo 2^64 of a two's complement number, from its two words |
| SignedDiv.TruncDivisionExists | drv/divdi3_impl.c:520-566 | section 6.5.5 of ISO/IEC 9899:1999: u = q*v + r, remainder smaller than the divisor with the sign of the dividend |
| SignedDiv.TruncDivisionUnique | drv/divdi3_impl.c:520-566 | these conditions leave one quotient and remainder |
| SignedDiv.MagnitudeOf | drv/divdi3_impl.c:530-535 | the negated operand read as unsigned is the absolute value, even for the most negative number |
| SignedDiv.SignedFromMagnitudes | drv/divdi3_impl.c:530-565 | the quotient of the magnitudes negated for unequal signs, and their remainder negated for a negative dividend, are the truncating ones |
| SignedDiv.Divdi3 | drv/divdi3_impl.c:520-542 | the truncating quotient modulo 2^64, for all operands |
| SignedDiv.Moddi3 | drv/divdi3_impl.c:545-566 | the truncating remainder modulo 2^64, for all operands |
| SignedDiv.OnlyOverflow | drv/divdi3_impl.c:520-566 | the results are the mathematical ones if and only if it is not the most negative number over minus one; that quotient wraps to the dividend, its remainder is right |
| RingQueue.WritePast | lib/nac_stream.c:1429-1439 | a write past the end of a stretch, short of a full lap, leaves the stretch alone |
| RingQueue.FifoEmpty | lib/nac_stream.c:1186-1194 | equal positions mean an empty queue and that everything has been sent |
| RingQueue.FifoTake | lib/nac_stream.c:1411-1421 | the card sending the byte under the record pointer keeps the order of the queue |
| RingQueue.FifoWriteFree | lib/nac_stream.c:1429-1439 | writing into the free part keeps the queue |
| RingQueue.FifoAppend | lib/nac_stream.c:1441-1452 | moving the limit over written bytes queues exactly those bytes |
| RingQueue.PlaceMoves | lib/nac_stream.c:1441-1446 | an offset moved and wrapped at the end of the buffer stays the place where the bytes so far end |
| RingQueue.PlaceIsMod | lib/nac_stream.c:1441-1446 | that place is the number of bytes modulo the size |
| RingQueue.EndOffsetMoves | lib/nac_stream.c:1578-1584 | the same for an offset that wraps only past the end |
| RingQueue.EndIsWholeLaps | lib/nac_stream.c:1578-1584 | such an offset is at the very end exactly after whole laps |
| TxCard.LinearIsWrapped | lib/nac_stream.c:1521-1522 | a linear write through the double mapping is the wrapped write |
| TxCard.Card.PointersMeet | lib/nac_stream.c:1188-1194 | equal registers mean that everything accepted is on the wire |
| TxCard.Card.Work | lib/nac_stream.c:1411-1421 | the card at any pace and with any of the four ways of reporting the closing place, to and fro included: bytes move from queue to wire, none appears or vanishes |
| TxCard.Card.DrainedToWire | lib/nac_stream.c:1411-1421 | whatever the card does, what was on the wire stays its beginning |
| TxCard.Card.SetLimit | lib/nac_stream.c:1448-1452 | writing the limit register hands over exactly the bytes up to it |
| TxCopyRing.SpaceLeft | lib/nac_stream.c:1413-1419 | the 32-bit space computation is the true space less the safety window, however the closing place is reported |
| TxCopyRing.TxStream.constructor | lib/nac_stream.c:1115-1157 | an empty ring with both pointers at its base satisfies the invariant |
| TxCopyRing.TxStream.PollSpace | lib/nac_stream.c:1411-1421 | a poll sees exactly the space there was when it read the record pointer, which is never more than there is now |
| TxCopyRing.TxStream.Memcpy | lib/nac_stream.c:1429-1439 | a copy, with the card at work between bytes, leaves unread bytes alone and the data in place |
| TxCopyRing.TxStream.CopyIn | lib/nac_stream.c:1427-1439 | the copy in one or two pieces puts the whole buffer behind the limit, in order |
| TxCopyRing.TxStream.Publish | lib/nac_stream.c:1441-1452 | exactly the copied bytes are accepted; occupancy stays at most the size less 128 |
| TxCopyRing.TxStream.CopyBytes | lib/nac_stream.c:1368-1456 | errors in their order and for no other reason: a closed card, then no stream or a buffer longer than the ring, then a stream number outside 8 to 15; on success the buffer is appended to what the card was given, otherwise nothing is; it waits only if the room is not there, ends within one ring of polls if the buffer fits, and never if it does not |
| TxCopyRing.TxStream.CopyAll | lib/nac_stream.c:1368-1456 | call after call, the card is given the concatenation of the copied buffers; none is copied by a stream that cannot transmit |
| TxCopyRing.TxStream.FilledOnce | lib/nac_stream.c:1186-1194 | after whole laps the record register of a card that reports the end as its end never reads as the start |
| TxCopyRing.TxStream.Drain | lib/nac_stream.c:1186-1194 | when the stop loop ends everything accepted is on the wire; it ends for a card that never rests, and at once if everything has been sent, unless whole laps were copied and the card does not report the closing place as the start; after whole laps, with a card that reports the end, it never ends, however many polls |
| TxCopyRing.Run | lib/nac_stream.c:1368-1456 | over any run: the wire is a prefix of the copied buffers in order, at most the size less 128 behind, and equal after the stop loop, which ends or not as the copied bytes and the card determine; a stream outside 8 to 15 copies nothing |
| TxCommitRing.SpaceSeenIsSafe | lib/nac_stream.c:1500-1505 | the space seen never exceeds the real one, and equals it if and only if the pointers do not read as start and end |
| TxCommitRing.TxStream.ReadSpace | lib/nac_stream.c:1497-1505 | a read of the record pointer gives the exact space, unless the ring is empty and the closing place is mistaken; then it gives zero in the stuck state |
| TxCommitRing.TxStream.PollSpace | lib/nac_stream.c:1498-1509 | a poll keeps the invariant, sees exactly the space there was unless the closing place can be mistaken, and leaves a stuck ring stuck |
| TxCommitRing.TxStream.GetStreamSpace | lib/nac_stream.c:1464-1523 | errors in their order and for no other reason; on success the space is reserved beside the margin and the write address returned; never succeeds for more than the size less 2048; waits only if the room is not there, and always succeeds in time for less, for every way of reporting the closing place, unless that can be mistaken; in the stuck state succeeds if and only if the cached count covers the request |
| TxCommitRing.TxStream.Fill | lib/nac_stream.c:1521-1522 | filling the reservation through the linear mapping hits no unread byte and leaves the record behind the limit |
| TxCommitRing.TxStream.CommitBytes | lib/nac_stream.c:1535-1610 | errors in their order and for no other reason; any number of the reserved bytes is accepted, and no others; the offset stays in [0, size] and wraps only past the end |
| TxCommitRing.TxStream.Send | lib/nac_stream.c:1464-1610 | a whole round appends the record to what the card was given, or changes nothing; it succeeds in time unless the closing place can be mistaken |
| TxCommitRing.TxStream.SendAll | lib/nac_stream.c:1464-1610 | round after round, the card is given the concatenation of the records; the reasons to stop are an error, a record beside the margin, an impatient or resting side, or an offset at the end |
| TxCommitRing.FilledExactly | lib/nac_stream.c:1497-1509 | two records that fill the ring exactly, and a card that comes to report its end as its start for good: any further request is granted if and only if the cached count covers it, whatever the number of polls |
| TxCommitRing.Run | lib/nac_stream.c:1464-1610 | over any run of alternating rounds: the wire is a prefix of the records in order, at most the size less 2048 behind; with a card that never rests a fitting record can fail only after whole laps and only if the card does not report its end as its end; a stream outside 8 to 15 sends nothing |
| RxRing.LimitMovesForward | include/nacapi.h:97-98 | the limit register always moves forward in ring order by less than a lap, to the place meant for the reader |
| RxRing.WindowReceive | lib/nac_stream.c:867-880 | the card storing a byte below its limit overwrites nothing unread |
| RxRing.WindowRead | lib/nac_stream.c:908-925 | the byte found through the linear mapping is the one received for that position |
| RxRing.Card.Work | lib/nac_stream.c:889-906 | the card at any pace keeps the window of unread bytes intact |
| RxRing.Card.SetLimit | lib/nac_stream.c:878-880 | a limit write moves the limit forward and keeps the window |
| RxRing.UnwrappedIsSafe | lib/nac_stream.c:910-911 | the unwrapped position is never past what was received, and equals it if and only if no full lap is hidden |
| RxRing.RxStream.constructor | lib/nac_stream.c:733-773 | a fresh ring satisfies the invariant |
| RxRing.RxStream.NormaliseBottom | lib/nac_stream.c:851-855 | the bottom is set or wrapped into the first mapping, the invariant kept |
| RxRing.RxStream.MoveLimit | lib/nac_stream.c:877-880 | the limit never moves backward and fits the aligned bottom |
| RxRing.RxStream.ReadRecord | lib/nac_stream.c:867-870 | the position read has really been passed by the card; it is the exact one unless a lap is hidden |
| RxRing.RxStream.TopIsReadable | lib/nac_stream.c:910-925 | the returned top is at least the aligned bottom, inside the mapping, not past the received bytes and short of the card's limit; the safety window is kept back in full if as much is there, and otherwise nothing is |
| RxRing.RxStream.Stops | lib/nac_stream.c:910-925 | a reader that is offered nothing new, and to whom nothing new comes, has at most the safety window left or is jammed; of a feed shorter than that, nothing |
| RxRing.RxStream.Leaves | lib/nac_stream.c:922-925 | reading up to the top leaves a safety window behind the aligned position, and behind the bottom if one was there |
| RxRing.RxStream.WaitForData | lib/nac_stream.c:888-906 | polling ends with a position the card has passed, no older than at the start of the call unless the ring is jammed; it does not begin if `mindata` bytes are there, and with a card that never rests and enough polls it ends only when they are or the card has stored all it may |
| RxRing.RxStream.FreeRing | lib/nac_stream.c:851-880 | freeing the ring behind the bottom keeps every byte in front of it, reads a position no older than the call unless the ring is jammed, and lets a card go on that never rests and is below the new limit |
| RxRing.RxStream.MoveLimitAtWork | lib/nac_stream.c:877-886 | the same with the card at work before and after the register write; a card that never rests stores a byte if the new limit allows one |
| RxRing.RxStream.AdvanceStream | lib/nac_stream.c:808-927 | errors in their order; the top lies between aligned bottom and end of the mapping; for every card it hides at most the safety window of what had arrived, unless the ring is jammed, and that is for good if the card sticks to its report; at least `mindata` less the safety window is offered, unless the polls run out or no more can come; the safety window is kept back whenever as much had arrived, and everything is offered while less has |
| RxRing.RxStream.ReadByte | lib/nac_stream.c:908-925 | a byte read below the top through the linear mapping is the next byte of the feed |
| RxRing.RxStream.Consume | lib/nac_stream.c:854-855 | the caller reads exactly the next bytes of the feed, with the card at work |
| RxRing.RxStream.Round | lib/nac_stream.c:808-927 | an advance and a read make progress until at most the safety window is unread or the ring jams, and in a feed shorter than that until all is read; a safety window behind the aligned position stays |
| RxRing.FilledFirst | lib/nac_stream.c:867-925 | if the whole ring fills before the first advance and its end reads as its start, no number of advances offers a byte |
| RxRing.HeldBack | lib/nac_stream.c:913-925 | a ring of 256 bytes, or an extra window of at most 128, keeps a reader that finds the first 128 bytes waiting inside the first lap for good |
| RxRing.Run | lib/nac_stream.c:808-927 | over any run of advances and reads, the bytes read are a prefix of the feed; a feed of 128 bytes or more is never read to its end, a shorter one always, by a reader that keeps asking a card that never rests; with such a card that sticks to its way of reporting, at least 384 bytes of ring and more than 128 of extra window, that reader leaves at most 128 bytes, or is jammed at the start of a lap by a card that does not report its end as its end |
| Segments.NetworkOrderRoundTrip | src/flow_test/flow_test.c:623-632 | network byte order and back is the identity on 16 and 32 bits |
| Segments.HeaderOnWire | src/flow_test/flow_test.c:623-638 | the bytes of a record: file size at 0 to 3, sequence number at 4 to 7, record length 1600 at 10 and 11, wire length at 14 and 15, the most significant byte first |
| Segments.LastIsShort | src/flow_test/flow_test.c:605-640 | the wire length differs from the record length less 16 for the last record and for no other, even when the chip divides the file |
| Segments.UptoStep | src/flow_test/flow_test.c:634-640 | the chunks in order make up the file |
| Segments.HeaderFields | src/flow_test/flow_test.c:622-639 | reading the fields of a built header gives what was put in |
| Segments.FillRecord | src/flow_test/flow_test.c:622-641 | one record of the packet buffer is complete, with name and digest in their places, all others are untouched |
| Segments.RecordParts | src/flow_test/flow_test.c:627-640 | header, name, digest and chunk one after another are a record whose fields read back |
| Segments.BuildRecords | src/flow_test/flow_test.c:605-642 | the packet buffer holds every record of the file in its place, each labelled with name and digest |
| Reorder.NumberedCount | src/flow_test/flow_test.c:495-505 | different numbers fill all slots exactly when there are as many as slots |
| Reorder.SlotsRelease | src/flow_test/flow_test.c:300-331 | freeing the slot of the awaited record leaves the slots of exactly the later arrivals |
| Reorder.SlotsStore | src/flow_test/flow_test.c:508-510 | storing a record in a free slot keeps all numbers different and all records whole |
| Reorder.Receiver.Write | src/flow_test/flow_test.c:435-485 | the next part of the file is appended; the file is finished exactly at its last record, if that is not the first |
| Reorder.Receiver.WriteHeld | src/flow_test/flow_test.c:277-333 | the same from a slot, which becomes free |
| Reorder.Receiver.FindSlot | src/flow_test/flow_test.c:258-268 | the first slot with a number, or ten if there is none |
| Reorder.Receiver.DeliverHeld | src/flow_test/flow_test.c:256-336 | one turn delivers the awaited record if a slot has it, else changes nothing |
| Reorder.Receiver.FindNextInList | src/flow_test/flow_test.c:250-337 | the search ends, with the awaited number not arrived yet or the file finished |
| Reorder.Receiver.FreeSlot | src/flow_test/flow_test.c:495-505 | a slot is free exactly when fewer than ten numbers are held |
| Reorder.Receiver.InOrder | src/flow_test/flow_test.c:433-490 | after the awaited record and its successors the slots hold exactly the arrived, undelivered numbers |
| Reorder.Receiver.Stash | src/flow_test/flow_test.c:493-511 | any record that is not the awaited one goes into the first free slot under its number, or nothing changes because there is none |
| Reorder.Receiver.Keep | src/flow_test/flow_test.c:491-512 | an out-of-order record is kept if and only if fewer than ten are held |
| Reorder.Receiver.HandleRecord | src/flow_test/flow_test.c:433-512 | the receiver gives up if and only if a record is not the awaited one and ten are held |
| Reorder.Receiver.ReceiveFile | src/flow_test/flow_test.c:411-516 | for every duplicate-free order: accepted if and only if every arrival finds a place, and then a complete file of two or more records comes out unchanged |
| Reorder.CloseAndReopen | src/flow_test/flow_test.c:459-489 | closing a file with a first record waiting in a slot opens another file with that record |
| Reorder.Duplicated | src/flow_test/flow_test.c:433-512 | files of two records each, the very first record twice: the first file comes out right, every later one with the first part of the file before it |
| Reorder.Transfer | src/flow_test/flow_test.c:605-642 | segmentation, any delivery, reassembly: the files come out byte for byte, up to the first that is shorter than a chip or overflows the slots |
| PageSort.SwapInversions | drv/nac_mem.c:398-402 | swapping two ascending neighbours removes exactly one inversion |
| PageSort.Pass | drv/nac_mem.c:396-403 | a pass keeps the contents, and lowers the inversions or finds the table sorted |
| PageSort.DescendingFar | drv/nac_mem.c:389-405 | neighbours in order mean the whole table is |
| PageSort.SortPtable | drv/nac_mem.c:389-405 | terminates for a table of any length with a descending permutation |
| Contig.NeedCovers | drv/nac_mem.c:459-469 | the length test asks for the blocks that cover the size; the whole blocks taken are as many if and only if the block size divides it |
| Contig.PageTable.Enough | drv/nac_mem.c:459-469 | the multiplied length test is the number of blocks needed |
| Contig.WithinRun | drv/nac_mem.c:459-495 | the two tests of the scan decide exactly whether an area ends here |
| Contig.ScanTests | drv/nac_mem.c:459-465 | the tests of one turn find the first fit, or show that no area ends here |
| Contig.ScanGoesOn | drv/nac_mem.c:490-495 | a turn without a result keeps the start of the last run right |
| Contig.ScanFails | drv/nac_mem.c:481-501 | an empty entry or the end of the table ends the search for good, with the cursor at zero or at the last run |
| Contig.PageTable.Scan | drv/nac_mem.c:449-501 | from any cursor: the earliest area that fits, or none fits and the cursor is where the three kinds of failure leave it |
| Contig.PageTable.ClearEntries | drv/nac_mem.c:476-477 | exactly the entries of the area are cleared |
| Contig.PageTable.FindContig | drv/nac_mem.c:439-502 | from any cursor: returns zero if and only if no area fits and then changes no entry and leaves the cursor as stated, else the first fit, its lowest address, its entries taken out and the cursor behind it |
| Contig.MaskIsAlignment | drv/nac_mem.c:449-459 | for a power of two the mask test is the alignment |
| Contig.AreaIsCovered | drv/nac_mem.c:459-465 | every byte of the area lies in one of its consecutive live blocks |
| Contig.TakenWhole | drv/nac_mem.c:469-477 | the area is taken out whole if and only if the block size divides its size; otherwise its topmost block stays |
| Contig.EmptyCursorTraps | drv/nac_mem.c:450-457 | on an empty entry every search fails and leaves the cursor there |
| Contig.CarveTraps | drv/nac_mem.c:476-479 | an area that ends at the last live entry makes every later search fail |
| Contig.TrapExample | drv/nac_mem.c:450-479 | a sorted table where that happens although an aligned block is free |
| Contig.LastRunExample | drv/nac_mem.c:450-501 | a full table where a failed search for three blocks moves the cursor, and a free aligned block is not found from there |
| Contig.NeighboursMeet | drv/nac_mem.c:386-405 | in a sorted table, neighbours in memory are neighbours in the table |
| Contig.ListedAreaFits | drv/nac_mem.c:458-480 | in a sorted table an aligned area of free blocks is a candidate of the search if and only if it does not end in the last slot |
| Contig.RunLists | drv/nac_mem.c:459-495 | a run of table entries lists the blocks of an area |
| Contig.SearchIsComplete | drv/nac_mem.c:458-501 | on a sorted table with the cursor at zero, a failed search means that no aligned area of free blocks exists except one ending in the last slot |
| Contig.HighestAreaFirst | drv/nac_mem.c:458-480 | a successful search returns the highest of the free aligned areas |
| MemPool.LiveIsMultiset | drv/nac_mem.c:389-405 | sorting keeps what a table lists |
| MemPool.TakingConserves | drv/nac_mem.c:465-479 | carving an area moves exactly its blocks out of the table |
| MemPool.AreaAndTop | drv/nac_mem.c:505-514 | the blocks that freeing an area hands back are those it took out and its odd block |
| MemPool.AreaTaken | drv/nac_mem.c:465-479 | what a search takes out is the card's area; all blocks that cover it were listed, and an odd one stays |
| MemPool.Pool.AllocPtable | drv/nac_mem.c:356-377 | the blocks taken are those up to the last one the low table has room for; it overflows the high table exactly if more of them are high ones than that has entries; otherwise the two tables list exactly those blocks, the low table the low ones, and it is full or the supply has ended |
| MemPool.Pool.SortTable | drv/nac_mem.c:389-405 | the low table becomes descending and lists the same blocks |
| MemPool.Pool.FreeTable | drv/nac_mem.c:415-434 | each listed block is freed once, and the table is empty |
| MemPool.Pool.FreeContig | drv/nac_mem.c:505-514 | exactly the blocks that cover the area are freed, each once, for any size |
| MemPool.RestartsFail | drv/nac_mem.c:285-292 | once the cursor is back at zero, the halving fails if and only if no halved size fits from the start |
| MemPool.MissedFromStart | drv/nac_mem.c:285-292 | a halved size that fits from the start is missed only from an empty entry or with no empty entry ahead; from an empty entry a card gets nothing |
| MemPool.TriesOn | drv/nac_mem.c:285-292 | the retry loop passes from a failed search to one of half the size, from where the failure left the cursor |
| MemPool.Pool.Carve | drv/nac_mem.c:285-292 | the halving loop ends: with the first fit of the first of its searches that has one, aligned, all covering blocks listed and the whole ones taken out; or with nothing, exactly when the first search and all halved ones fail |
| MemPool.Pool.NacMem | drv/nac_mem.c:278-305 | card after card is served from the table and cursor the one before left, each by the first of its searches that finds an area; if a card gets none, its first search and all halved ones fail there; the cards with an area are a prefix of the slots; table and areas together keep every block |
| MemPool.Pool.Cleanup | drv/nac_mem.c:307-324 | every area is given back, with its odd block if its size is not whole |
| MemPool.Pool.Exit | drv/nac_mem.c:407-437 | what is freed is the leftovers, the areas and the odd blocks |
| MemLife.AreasDisjoint | drv/nac_mem.c:284-292 | the whole blocks of areas share no byte if each block was obtained once |
| MemLife.FreedOnce | drv/nac_mem.c:307-437 | each block is freed once if and only if no area has an odd block |
| MemLife.SharedByte | drv/nac_mem.c:284-292 | two areas share a byte if and only if the odd block of one begins inside the other |
| MemLife.FitIsArea | drv/nac_mem.c:458-501 | in a sorted table with an empty entry a search from the start fails if and only if no aligned area of free blocks exists |
| MemLife.FirstCardGets | drv/nac_mem.c:284-292 | in such a table the first card gets the highest area of the first size tried that has one |
| MemLife.FirstCardFails | drv/nac_mem.c:284-292 | it gets nothing only if no size tried has an area |
| MemLife.TableIsSorted | drv/nac_mem.c:389-405 | the sorted low table is one the completeness of the search applies to |
| MemLife.OddArea | drv/nac_mem.c:195-211 | a run with one card and two blocks that frees a block twice |
| MemLife.OverlappingAreas | drv/nac_mem.c:284-292 | a run in which two cards get areas that share bytes |
| MemLife.Lifetime | drv/nac_mem.c:195-211 | from initialisation to exit, for any wanted size: the blocks freed are the blocks obtained and the odd blocks once more, so each once if and only if all areas are whole; areas are aligned and a prefix of the slots; two of them share a byte if and only if the odd block of one begins inside the other, so never if all are whole; every card is served from what the sorted low table and the cards before leave, and fewer than all get an area only if no size tried fits there; if the low table did not fill up, the first card gets the highest aligned area of the first size tried that has one, and nothing if and only if none has |
| Leases.LeaseTable.Malloc | drv/nac_mem.c:215-252 | null if and only if all areas are lent or withheld; otherwise the first area that is neither, its size cut or filled in |
| Leases.LeaseTable.Free | drv/nac_mem.c:254-276 | for any pointer: a lent area becomes free, an area that is not lent is withheld, any other pointer changes nothing |
| Leases.Serve | drv/nac_mem.c:215-276 | over any run of borrowing and returning, matching or not: no area has two holders, a request gets the first area that is not out or stray, and is turned down exactly when all areas are out or were once returned without being out |
| Clock.FilterStaysInBand | drv/nacts.c:360-366 | with all samples in [L, U] the estimate stays in [8L, 8U+7] |
| Clock.StepEighth | drv/nacts.c:360-366 | the eighth of the estimate, which a sample is compared with, moves toward the sample and not past it |
| Clock.StepApproaches | drv/nacts.c:360-366 | a step moves the estimate closer to the sample without passing it, and an accepted sample stays acceptable |
| Clock.FilterConverges | drv/nacts.c:360-366 | a constant accepted sample draws the estimate into [8t, 8t+7] in finitely many pulses, where it rests |
| Clock.WantRange | drv/nacts.c:347-386 | the rate asked for is within a quarter of nominal |
| Clock.WordFits | drv/nacts.c:388-389 | above 83886080 Hz the word is positive and fits in 32 bits |
| Clock.FilteredSound | drv/nacts.c:360-370 | a sample, taken or rejected, keeps the estimate the filter of the accepted samples and in their band |
| Clock.NewWordSound | drv/nacts.c:388-390 | within the band the word stored is the exact quotient: positive, and nothing cut off |
| Clock.PulseSound | drv/nacts.c:297-412 | a pulse, whichever branch it takes, keeps the state sound, and the word it sets is the one for the rate asked for |
| Clock.PulsesSound | drv/nacts.c:286-413 | over any run of pulses: while the accepted samples lie in [L, U] with L above 83886080, the estimate stays in [8L, 8U+7], the word fits in 32 bits and nothing is divided by zero |
| Crystal.SampleBounds | drv/nacts.c:337-361 | the reciprocal and the quotient lose less than a crystal tick and 2^26 units of the product together |
| Crystal.SampleWithin | drv/nacts.c:337-361 | with times read to j steps the sample is the crystal's frequency to j ticks a second and the two units of the divisions |
| Crystal.SampleRecovers | drv/nacts.c:337-361 | with times exact to one step the sample is the crystal's frequency or one less |
| Crystal.PulseMeasures | drv/nacts.c:335-370 | a pulse about a second after the last moves the estimate by the frequency of any crystal that fits its distance, to one unit, or leaves it |
| Crystal.PulseOnCrystal | drv/nacts.c:297-412 | a pulse of a steady crystal, whichever branch it takes, keeps all samples at its frequency, the estimate between that and the nominal one, and the word large enough |
| Crystal.RunOnCrystal | drv/nacts.c:286-413 | so does any run, resets and missing pulses included, and the clock never stops: the premise of `Clock.PulsesSound` is met |
| Crystal.StepCloses | drv/nacts.c:360-366 | a sample closes an eighth of the gap between estimate and crystal |
| Crystal.Settles | drv/nacts.c:360-366 | 184 samples bring the estimate from a megahertz off to the crystal's frequency, to one unit |
| Crystal.RateError | drv/nacts.c:388-389 | the crystal on the word runs at the rate asked for, to one part in 2^24 |
| Crystal.PeriodError | drv/nacts.c:372-389 | asked for a rate lower by h, the crystal gives a period longer by h, less a second-order term and 108 steps |
| Crystal.PhaseMoves | drv/nacts.c:347-356 | the phase error changes by what the period is longer than a second |
| Crystal.PhaseShrinks | drv/nacts.c:347-389 | with a settled estimate, the next pulse finds at most five eighths of the phase error beyond 300 steps, or 70 ns |
| Crystal.PhaseHolds | drv/nacts.c:382-389 | a word set for a whole second keeps the phase error to 108 steps |
| Crystal.NearOrFar | drv/nacts.c:362-370 | every sample of a crystal less than a megahertz off is taken, and none of one further off |
| Crystal.UnbrokenRun | drv/nacts.c:297-412 | in a run of pulses a second apart a near crystal has every sample taken, a far one none, and then the estimate stays nominal |
| Crystal.EstimateSettles | drv/nacts.c:297-412 | from the 185th pulse of such a run on the estimate is the near crystal's frequency, to one unit |
| Crystal.PhaseCloses | drv/nacts.c:297-412 | from then on the phase error beyond 300 steps shrinks to five eighths with each pulse |
| Crystal.ClockLocks | drv/nacts.c:297-412 | from the 249th pulse on it is at most 300 steps |
| Crystal.RunFollows | drv/nacts.c:286-413 | all of this over any run, for every crystal that fits its times |
| Crystal.NominalRun | drv/nacts.c:286-413 | runs that meet these premises exist, of any length |
| HostClock.Duck.Reset | drv/nacts.c:62-107 | back to the nominal crystal with no samples |
| HostClock.Duck.TakeSample | drv/nacts.c:362-370 | a sample enters the filter exactly when it is close to the estimate, else it is counted as bad |
| HostClock.Duck.HostPulse | drv/nacts.c:297-412 | the interrupt branch refines the pulse step for all times, division by zero included; told apart from it: a card a second off is reset, the first pulse only records its time, a pulse off by a per cent leaves the estimate alone, and any other moves it by the crystal's frequency, to one unit, or not at all |
| HostClock.Run | drv/nacts.c:286-413 | over any run of interrupts: the estimate is the filter over the samples accepted since the last reset, and for all bounds on these it is between them, the word is positive and fits in 32 bits, and nothing was divided by zero; for every crystal that fits the times, the run follows it as `Crystal.RunFollows` says |
| FlashChip.BurnPlaced | lib/nacapi.c:1300-1307 | a buffer filled from its start address on programs exactly its run of words, each address once |
| FlashChip.OverlayConcat | lib/nacapi.c:1354-1360 | programming one run after another is programming the longer run |
| FlashChip.ErasedTakesAnything | lib/nacapi.c:1428-1460 | an erased word takes any data unchanged |
| FlashChip.BurnedBits | lib/nacapi.c:1230-1236 | a programmed bit is set if and only if it was set and the data sets it |
| BitSwap.ReverseMirrors | lib/nacapi.c:1155-1163 | reversing n bits puts bit n-1-k in place k |
| BitSwap.SwapMirrors | lib/nacapi.c:1155-1163 | bit k of the swapped word is bit 15-k of the source |
| BitSwap.SwapInvolution | lib/nacapi.c:1155-1163 | swapping twice gives the word back |
| BitSwap.MoveBit | lib/nacapi.c:1161 | mask and shift, left or right, move one bit to its mirror position |
| BitSwap.SwapBits | lib/nacapi.c:1155-1163 | bit k of the result is bit 15-k of the source |
| Flash.ReachesAll | lib/nacapi.c:1394-1399 | all words are reached if and only if no block in the way is locked |
| Flash.ReachStops | lib/nacapi.c:1394-1399 | the words reached are not locked, and the run stops at the start of a locked block |
| Flash.WroteOnErased | lib/nacapi.c:1280-1400 | on erased flash bit k of every stored word is bit 15-k of the file's word, the file reads back, and nothing else changed |
| Flash.WroteIsStored | lib/nacapi.c:1280-1400 | over any contents: bit k of a stored word is set if and only if it was and bit 15-k of the file's word is; no other word has changed |
| Flash.WroteOnce | lib/nacapi.c:1365-1400 | word k is programmed once, at bank*0x80000+k, and a run of at most a bank stays in it |
| Flash.SerialSurvives | lib/nacapi.c:1026-1048 | programming the banks below leaves the serial number alone |
| Flash.SerialFields | lib/nacapi.c:1040-1047 | the masks and shifts cut the number into its four 16-bit fields |
| Flash.SerialStored | lib/nacapi.c:1040-1047 | the four fields, the top one at the lowest address, are the number |
| Flash.SerialOrs | lib/nacapi.c:1091-1098 | the shifts and ors put the fields together again |
| Flash.Programmer.FlashWrite | lib/nacapi.c:1165-1182 | an address out of range changes nothing, any other is one write cycle |
| Flash.Programmer.AwaitReady | lib/nacapi.c:1237-1239 | polling ends with the status of the finished operation |
| Flash.Programmer.GrabBuffer | lib/nacapi.c:1292-1296 | the request is repeated until the chip grants its buffer |
| Flash.Programmer.FillBuffer | lib/nacapi.c:1298-1305 | the buffer holds the swapped words at consecutive addresses, ready to confirm |
| Flash.Programmer.BufferProgram | lib/nacapi.c:1279-1328 | exit 1 for a bad count; else the n+1 words are programmed, or exit 2 and nothing if the block is locked |
| Flash.Programmer.BlockProgram | lib/nacapi.c:1330-1363 | exit 1 for an empty request; else all words of the block, none crossing a 32-word window, or nothing if it is locked |
| Flash.Programmer.BankProgram | lib/nacapi.c:1365-1400 | every word up to the first locked block is programmed once at its address, its bits mirrored, and no other word has changed; success if and only if no block in the way is locked |
| Flash.Programmer.WordProgram | lib/nacapi.c:1230-1256 | a bit of the word stays set if and only if the data sets it, no other word changes; or exit 2 and nothing if the block is locked |
| Flash.Programmer.BlockUnlock | lib/nacapi.c:1403-1419 | the block is unlocked, and its lock bit says so |
| Flash.Programmer.BlockErase | lib/nacapi.c:1428-1460 | every word of the block is all ones and no other word changed, or exit 3 if it is locked |
| Flash.Programmer.SetLogicNum | lib/nacapi.c:1026-1048 | whatever was stored and whatever errors were pending, the number is stored in its four fields, the rest of its block is erased and other blocks are untouched |
| Flash.Programmer.ReadLogicNum | lib/nacapi.c:1075-1100 | returns the stored number and changes none |

## Left out

- Kernel and PCI plumbing, interrupts, ioctl, mmap and character devices; I2C, MDIO, MAC and PHY access; statistics, printing, timers and sleeps.
- The older copies `lib/nac_stream.c.orig` and `lib/nac_stream.c.pre`.
- `nac_get_next_record`, `nac_parse_name`, `nac_write_flowtable`, `nac_proc_init`: string or layout code, or claims that do not hold of the code.
- MD5, file names and the file system: a finished file is a byte sequence in a list.
- The byte totals of `run_rx` and its scan of the receive window: records arrive as values, one after another, which is what `RxRing.Run` delivers.
- Mixing `nac_tx_stream_copy_bytes` with get and commit on one stream: the two keep different margins, so each is verified on its own.
- The slave-mode branch of `duck_intr` and its start-up formulas; health and error statistics of the host branch.
- The `orig == NULL` case of `nac_tx_stream_copy_bytes`, which sends from the receive buffer.
- The loop of `nac_mem_alloc_ptable` that looks for the largest block order: the block size is a parameter. The reserved bits of the pages are not modelled.
- The 32-bit wrap of `(i-cstart)*psize` and of sizes of 2 GB or more in `nac_mem_findcontig`: unbounded integers stand for them.
- The mailbox handshake with the card in `flash_write` and `flash_read`; bank-wise read-while-write and VPP failures of the flash chip.
- Locking around the lease table.
- `set_hardware_num` and `read_hardware_num`: the same code on another block.
- TxCard.Card.Work: the record pointer stops at the place the limit stands for, whichever way either is reported.
- TxCopyRing.TxStream.Drain: after whole laps, a card that reports the closing place either way, or first as the end, may end the loop or not, as it chooses.
- TxCommitRing.TxStream.GetStreamSpace: asks for at most the extra window, as the comment at lines 1532-1533 of `lib/nac_stream.c` does; the code does not check it.
- TxCommitRing.TxStream.CommitBytes: asks for at most as many bytes as were reserved; the code does not check it, and a larger commit hands over bytes that nobody has made room for.
- RxRing.RxStream.constructor: asks that the ring size is a multiple of 128; the mapped base is taken to be 128-aligned, so that aligning an address aligns the offset.
- RxRing.Run: the bound on what stays unread is not claimed of a card that reports the closing place now one way and now the other; such a card can hide a full lap for as long as it likes.
- Segments.BuildRecords: asks for a packet buffer below 4 GB, where the 32-bit arithmetic of the code is exact.
- MemLife.Lifetime: asks that the blocks taken do not overflow the high table. It says which area the first card gets only if the low table did not fill up; when it did, a first failed search moves the cursor to the last run, and the smaller sizes are searched for only there (`Contig.AfterFailure`, `MemPool.Pool.Carve`).
- HostClock.Run: what it says of a crystal is for times exact to one step of 2^-32 seconds. The driver reads the host's time in microseconds and after some latency; `Crystal.SampleWithin` is the bound on one sample for that, and runs with it are not followed further.
- Crystal.UnbrokenRun: says nothing of a crystal of exactly 99000001 or 101000000 Hz, where the rounding of each sample decides.
- Flash.Programmer.BufferProgram: asks that the words stay in one aligned 32-word window and that the chip is idle without errors; the callers meet the first, and clear the status register before programming.
- Flash.Programmer.BankProgram: asks that the words end inside the chip; beyond it `flash_write` would skip them and `flash_read` has no result.
