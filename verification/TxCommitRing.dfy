/** Transmitting with `nac_tx_get_stream_space` and `nac_tx_stream_commit_bytes` in strict
    alternation: the host reserves space, writes records straight into the doubly mapped
    buffer and commits as many bytes, while the card drains the ring. Offsets range over
    `[0, size]`. */
module TxCommitRing {
  import opened StreamTypes
  import opened RingQueue
  import opened TxCard

  const MARGIN: nat := 2048

  /** The space the host sees between the two registers, in its 32-bit arithmetic. */
  function SpaceSeen(top: int, bottom: int, size: nat): int {
    var diff := ToInt32(top - bottom);
    if diff <= 0 then diff + size else diff
  }

  /** The host never sees more space than there is, and sees all of it except when the
      limit is reported at the end of the buffer and the record pointer at its start. */
  lemma SpaceSeenIsSafe(phyaddr: nat, rec: nat, lim: nat, unread: nat, size: nat)
    requires MARGIN < size < 0x7fff_f000 && rec <= size && lim <= size && unread < size
    requires Alias(lim, size) == Slot(Alias(rec, size), unread, size)
    ensures 0 <= SpaceSeen(phyaddr + rec, phyaddr + lim, size) <= size - unread
    ensures SpaceSeen(phyaddr + rec, phyaddr + lim, size) == size - unread <==> !(rec == 0 && lim == size)
    ensures rec == 0 && lim == size ==> unread == 0 && SpaceSeen(phyaddr + rec, phyaddr + lim, size) == 0
  {
    ToInt32InRange(rec - lim);
  }

  class TxStream {
    const streamNum: nat
    const size: nat
    const extraWindow: nat
    const card: Card
    var isOpen: bool
    var attached: bool
    var offset: nat
    var freeSpace: int
    var lastBusTop: int
    var lastBusBottom: int

    /** Space handed out and not yet committed. */
    ghost var reserved: nat

    /** The host's offset is the limit, and the end of the bytes accepted. It leaves the base
        for good with the first commit, because it wraps only past the end. */
    ghost predicate Agrees()
      reads this`offset, card, card.buf
    {
      && MARGIN < size < 0x7fff_f000 && extraWindow <= size
      && card.size == size && card.Queue()
      && offset <= size && card.lim == offset
      && offset == EndOffset(|card.accepted|, size)
    }

    ghost predicate Valid()
      reads this, card, card.buf
    {
      && Agrees()
      && 0 <= freeSpace
      && freeSpace + |card.pending| + reserved <= size
      && |card.pending| + reserved <= size - MARGIN
      && reserved <= extraWindow
    }

    /** After attach and start. */
    constructor (streamNum: nat, extraWindow: nat, card: Card)
      requires MARGIN < card.size < 0x7fff_f000 && extraWindow <= card.size
      requires card.Queue() && card.accepted == [] && card.pending == [] && card.lim == 0
      ensures Valid() && isOpen && attached && reserved == 0
      ensures this.streamNum == streamNum && this.extraWindow == extraWindow && this.card == card
    {
      this.streamNum, this.extraWindow, this.card, size := streamNum, extraWindow, card, card.size;
      isOpen, attached := true, true;
      offset, freeSpace, lastBusTop, lastBusBottom := 0, 0, 0, 0;
      reserved := 0;
    }

    /** A stream that can transmit: streams 8 to 15 do. */
    predicate Ready()
      reads this`isOpen, this`attached
    {
      isOpen && attached && 8 <= streamNum < 16
    }

    /** The ring is empty, but the host has committed up to the end of the buffer and the
        card reports that place as the start, and will go on to. */
    ghost predicate Stuck()
      reads this`offset, card
    {
      !card.closing.AsEither? && card.rec == 0 && offset == size && card.pending == []
    }

    /** The closing place cannot be mistaken: the card reports it as the host writes it, or
        the host's offset is elsewhere. A caller knows the offset from what the commit
        returned. */
    predicate SeesAll()
      reads this`offset
    {
      card.closing.AsEnd? || offset < size
    }

    /** Reading the record pointer against the limit: a count that is safe, and exact unless
        the closing place is mistaken. */
    method ReadSpace() returns (free: int)
      requires Agrees() && lastBusBottom == card.LimitPtr()
      modifies this`lastBusTop
      ensures 0 <= free <= size - |card.pending|
      ensures SeesAll() || card.pending != [] ==> free == size - |card.pending|
      ensures Stuck() ==> free == 0
    {
      card.PointersMeet();
      SpaceSeenIsSafe(card.phyaddr, card.rec, offset, |card.pending|, size);
      lastBusTop := card.RecordPtr();
      free := SpaceSeen(lastBusTop, lastBusBottom, size);
    }

    /** One turn of the waiting loop. */
    method PollSpace()
      requires Valid() && reserved == 0 && lastBusBottom == card.LimitPtr()
      modifies this`lastBusTop, this`freeSpace, card
      ensures Valid() && card.Drained()
      ensures lastBusBottom == card.LimitPtr()
      ensures SeesAll() || old(card.pending) != [] ==> freeSpace == size - |old(card.pending)|
      ensures card.neverRests && old(card.pending) != [] ==> |card.pending| < |old(card.pending)|
      ensures old(Stuck()) ==> Stuck() && freeSpace == 0
    {
      freeSpace := ReadSpace();
      card.Work();
    }

    /** `nac_tx_get_stream_space`: wait until the space and the margin are free, take the
        space off the cached count, return the linear offset to write at. Callers reserve
        no more than the second mapping can show. A card that never rests makes room for any
        request beside the margin, if the closing place cannot be mistaken, and one turn is
        enough if the room is there; a stuck ring grants exactly what the cached count still holds, however long it is polled. */
    method GetStreamSpace(bytes: nat, polls: nat) returns (r: Outcome)
      requires Valid() && reserved == 0
      requires bytes <= extraWindow
      modifies this`lastBusTop, this`lastBusBottom, this`freeSpace, this`reserved, card
      ensures Valid() && card.Drained()
      ensures r.Failed? <==> !isOpen || !attached || bytes == 0 || !(8 <= streamNum < 16)
      ensures r.Failed? ==>
                r.errno == if !isOpen then EBADF else if !attached || bytes == 0 then EINVAL else ENOTTY
      ensures r.Failed? ==> freeSpace == old(freeSpace)
      ensures r.Done? ==> r.value == offset
      ensures reserved == if r.Done? then bytes else 0
      ensures bytes > size - MARGIN ==> !r.Done?
      ensures bytes <= size - MARGIN && polls >= size && card.neverRests && SeesAll() ==> !r.Polling?
      ensures r.Polling? ==> bytes + MARGIN > old(freeSpace)
      ensures r.Polling? && polls >= 1 && SeesAll() ==> bytes + MARGIN + |old(card.pending)| > size
      ensures old(Stuck()) && !r.Failed? ==>
                r == if old(freeSpace) >= bytes + MARGIN then Done(offset) else Polling
      ensures r.Done? && old(card.pending) == [] && SeesAll() ==>
                freeSpace == (if old(freeSpace) >= bytes + MARGIN then old(freeSpace) else size) - bytes
    {
      hide EndOffset, Fifo;
      if !isOpen {
        return Failed(EBADF);
      }
      if !attached {
        return Failed(EINVAL);
      }
      if bytes == 0 {
        return Failed(EINVAL);
      }
      if streamNum < NUM_STREAM || streamNum > NUM_STREAM * 2 - 1 {
        return Failed(ENOTTY);
      }
      card.Work();
      lastBusBottom := card.LimitPtr();
      card.Work();
      var left: nat := polls;
      while freeSpace < bytes + MARGIN
        invariant Valid() && card.Drained()
        invariant reserved == 0 && lastBusBottom == card.LimitPtr()
        invariant polls >= size && card.neverRests && SeesAll() ==>
                    left > |card.pending| || freeSpace == size
        invariant left == polls ==> freeSpace == old(freeSpace)
        invariant SeesAll() && left < polls ==> freeSpace >= size - |old(card.pending)|
        invariant bytes + MARGIN <= old(freeSpace) ==> left == polls
        invariant old(card.pending) == [] && SeesAll() ==>
                    freeSpace == old(freeSpace) || (freeSpace == size && old(freeSpace) < bytes + MARGIN)
        invariant old(Stuck()) && old(freeSpace) >= bytes + MARGIN ==> freeSpace == old(freeSpace)
        invariant old(Stuck()) && old(freeSpace) < bytes + MARGIN ==> Stuck() && freeSpace < bytes + MARGIN
        decreases left
      {
        if left == 0 {
          return Polling;
        }
        PollSpace();
        left := left - 1;
      }
      freeSpace := freeSpace - bytes;
      reserved := bytes;
      r := Done(offset);
    }

    /** The user program filling its whole reservation through the linear mapping, with the
        card at work: every address lies in the two mappings, and no unread byte is hit. */
    method Fill(data: seq<Byte>)
      requires Valid() && reserved == |data|
      modifies card, card.buf
      ensures Valid() && card.Drained()
      ensures Holds(card.mem, card.Lim(), data)
    {
      hide EndOffset, Fifo;
      var i := 0;
      while i < |data|
        invariant 0 <= i <= |data|
        invariant Valid() && card.Drained()
        invariant Holds(card.mem, card.Lim(), data[..i])
      {
        var address := offset + i;
        assert address < size + extraWindow;
        LinearIsWrapped(offset, i, size);
        card.Write(Alias(address, size), data[i], data[..i]);
        assert data[..i] + [data[i]] == data[..i + 1];
        i := i + 1;
        card.Work();
      }
      assert data[..i] == data;
    }

    /** `nac_tx_stream_commit_bytes`, no more bytes than were reserved: advance the offset,
        wrapping only past the end, and hand the limit to the card. */
    method CommitBytes(bytes: nat, ghost data: seq<Byte>) returns (r: Outcome)
      requires Valid() && |data| == bytes <= reserved
      requires Holds(card.mem, card.Lim(), data)
      modifies this`offset, this`lastBusBottom, this`reserved, card
      ensures Valid() && card.wire == old(card.wire)
      ensures r.Failed? <==> !isOpen || !attached || !(8 <= streamNum < 16)
      ensures r.Failed? ==> r.errno == if !isOpen then EBADF else if !attached then EINVAL else ENOTTY
      ensures r.Failed? || r == Done(offset)
      ensures reserved == if r.Done? then 0 else old(reserved)
      ensures card.accepted == if r.Done? then old(card.accepted) + data else old(card.accepted)
      ensures offset == if r.Failed? then old(offset)
                        else if old(offset) + bytes > size then old(offset) + bytes - size
                        else old(offset) + bytes
    {
      hide EndOffset, Fifo;
      if !isOpen {
        return Failed(EBADF);
      }
      if !attached {
        return Failed(EINVAL);
      }
      if bytes > size {
        return Failed(EINVAL);
      }
      if streamNum < NUM_STREAM || streamNum > NUM_STREAM * 2 - 1 {
        return Failed(ENOTTY);
      }
      EndOffsetMoves(|card.accepted|, bytes, size);
      offset := offset + bytes;
      if offset > size {
        offset := offset - size;
      }
      lastBusBottom := card.phyaddr + offset;
      card.SetLimit(lastBusBottom, data);
      reserved := 0;
      r := Done(offset);
    }

    /** One round: reserve, write every byte, commit as many. */
    method Send(data: seq<Byte>, polls: nat) returns (r: Outcome)
      requires Valid() && reserved == 0 && |data| <= extraWindow
      modifies this`offset, this`lastBusTop, this`lastBusBottom, this`freeSpace, this`reserved
      modifies card, card.buf
      ensures Valid() && reserved == 0
      ensures r.Failed? <==> !Ready() || data == []
      ensures |data| > size - MARGIN ==> !r.Done?
      ensures card.accepted == if r.Done? then old(card.accepted) + data else old(card.accepted)
      ensures offset == if !r.Done? then old(offset)
                        else if old(offset) + |data| > size then old(offset) + |data| - size
                        else old(offset) + |data|
      ensures |data| <= size - MARGIN && polls >= size && card.neverRests && old(SeesAll()) ==> !r.Polling?
      ensures r.Done? && old(card.pending) == [] && old(SeesAll()) ==>
                freeSpace == (if old(freeSpace) >= |data| + MARGIN then old(freeSpace) else size) - |data|
    {
      hide EndOffset, Fifo;
      r := GetStreamSpace(|data|, polls);
      if !r.Done? {
        return;
      }
      Fill(data);
      r := CommitBytes(|data|, data);
      assert r.Done?;
      card.Work();
    }

    /** The card sending all it has. */
    method Catchup()
      requires Valid()
      modifies card`rec, card`wire, card`pending
      ensures Valid() && card.Drained() && card.pending == []
    {
      hide EndOffset, Fifo;
      card.PointersMeet();
      while card.Rec() != card.Lim()
        invariant Valid() && card.Drained()
        invariant card.Rec() == card.Lim() <==> card.pending == []
        decreases |card.pending|
      {
        card.TakeByte();
        card.PointersMeet();
      }
    }

    /** Round after round, until a record is not accepted. */
    method SendAll(records: seq<seq<Byte>>, polls: nat) returns (sent: nat)
      requires Valid() && reserved == 0
      requires forall i :: 0 <= i < |records| ==> |records[i]| <= extraWindow
      modifies this`offset, this`lastBusTop, this`lastBusBottom, this`freeSpace, this`reserved
      modifies card, card.buf
      ensures Valid() && reserved == 0 && sent <= |records|
      ensures card.accepted == old(card.accepted) + Concat(records[..sent])
      ensures !Ready() ==> sent == 0
      ensures forall k :: 0 <= k < sent ==> 0 < |records[k]| <= size - MARGIN
      ensures sent < |records| ==>
                || !Ready() || records[sent] == []
                || |records[sent]| > size - MARGIN || polls < size
                || !card.neverRests || !SeesAll()
    {
      hide EndOffset, Fifo;
      sent := 0;
      assert records[..0] == [];
      while sent < |records|
        invariant sent <= |records| && Valid() && reserved == 0
        invariant card.accepted == old(card.accepted) + Concat(records[..sent])
        invariant !Ready() ==> sent == 0
        invariant forall k :: 0 <= k < sent ==> 0 < |records[k]| <= size - MARGIN
      {
        var r := Send(records[sent], polls);
        if !r.Done? {
          return;
        }
        ConcatOneMore(old(card.accepted), records, sent);
        sent := sent + 1;
      }
    }
  }

  /** A whole run of alternating rounds on a fresh ring: any records, any pace of the card,
      whichever way it reports the closing place. The card has always sent a prefix of the
      committed records. With a card that never rests every record that fits beside the
      margin gets through, unless the committed bytes have just filled whole laps and the
      card does not report the end of the buffer as its end. */
  method Run(streamNum: nat, size: nat, extraWindow: nat, phyaddr: nat, closing: Closing,
             neverRests: bool, records: seq<seq<Byte>>, polls: nat)
    returns (sent: nat, wire: seq<Byte>)
    requires MARGIN < size < 0x7fff_f000 && extraWindow <= size
    requires phyaddr + size < 0x1_0000_0000
    requires forall i :: 0 <= i < |records| ==> |records[i]| <= extraWindow
    ensures sent <= |records|
    ensures wire <= Concat(records[..sent])
    ensures |Concat(records[..sent])| - |wire| <= size - MARGIN
    ensures !(8 <= streamNum < 16) ==> sent == 0 && wire == []
    ensures forall k :: 0 <= k < sent ==> 0 < |records[k]| <= size - MARGIN
    ensures sent < |records| ==>
              || records[sent] == [] || |records[sent]| > size - MARGIN || polls < size
              || !(8 <= streamNum < 16)
              || !neverRests
              || (!closing.AsEnd? && 0 < |Concat(records[..sent])| && |Concat(records[..sent])| % size == 0)
  {
    var card := new Card(size, phyaddr, closing, neverRests);
    var stream := new TxStream(streamNum, extraWindow, card);
    sent := stream.SendAll(records, polls);
    wire := card.wire;
    assert [] + Concat(records[..sent]) == Concat(records[..sent]);
    card.PointersMeet();
    EndIsWholeLaps(|card.accepted|, size);
  }

  /** Two records that fill the ring exactly, each sent before the next request, and a card
      that reports the closing place, now or always, as the start: from then on a request is granted exactly
      if the cached count covers it. One that fits the empty ring, but not the count, is
      polled for in vain however often. */
  method FilledExactly(streamNum: nat, size: nat, extraWindow: nat, phyaddr: nat, closing: Closing,
                       first: seq<Byte>, second: seq<Byte>, bytes: nat, polls: nat)
    returns (r: Outcome)
    requires MARGIN < size < 0x7fff_f000 && extraWindow <= size && phyaddr + size < 0x1_0000_0000
    requires 8 <= streamNum < 16 && (closing.AsStart? || closing.AsEndFirst?)
    requires 0 < |first| <= size - MARGIN && 0 < |second| <= size - MARGIN && |first| + |second| == size
    requires |first| <= extraWindow && |second| <= extraWindow && 0 < bytes <= extraWindow
    ensures r == if bytes + MARGIN <= |first| then Done(size) else Polling
  {
    hide EndOffset, Fifo;
    var card := new Card(size, phyaddr, closing, true);
    var stream := new TxStream(streamNum, extraWindow, card);
    r := stream.Send(first, size);
    stream.Catchup();
    r := stream.Send(second, size);
    stream.Catchup();
    card.PointersMeet();
    if card.rec == size {
      card.ReportStart();
    }
    r := stream.GetStreamSpace(bytes, polls);
  }
}
