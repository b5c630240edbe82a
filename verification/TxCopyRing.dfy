/** Transmitting with `nac_tx_stream_copy_bytes` alone: the host waits for space, copies a
    buffer into the ring and moves the limit, while the card drains the ring. */
module TxCopyRing {
  import opened StreamTypes
  import opened RingQueue
  import opened TxCard

  /** The space between the pointers less the safety window, in the host's 32-bit
      arithmetic. As long as unread bytes keep the safety window, this is the real space,
      however the card reports the closing place. */
  method SpaceLeft(top: int, bottom: int, size: nat, ghost phyaddr: nat, ghost unread: nat) returns (free: int)
    requires SAFETY_WINDOW <= size <= 0x8000_0000 - SAFETY_WINDOW
    requires phyaddr <= top <= phyaddr + size && phyaddr <= bottom < phyaddr + size
    requires unread <= size - SAFETY_WINDOW
    requires bottom - phyaddr == Slot(Alias(top - phyaddr, size), unread, size)
    ensures free == size - SAFETY_WINDOW - unread
  {
    ToInt32InRange(top - (bottom + SAFETY_WINDOW));
    free := ToInt32(top - (bottom + SAFETY_WINDOW));
    if free < 0 {
      free := free + size;
    }
  }

  class TxStream {
    const streamNum: nat
    const size: nat
    const card: Card
    var isOpen: bool
    var attached: bool
    var offset: nat
    var freeSpace: int
    var lastBusTop: int
    var lastBusBottom: int

    /** The host's offset is the limit, and the unread bytes are never closer than the
        safety window to a full lap. */
    ghost predicate Agrees()
      reads this`offset, card, card.buf
    {
      && SAFETY_WINDOW <= size <= 0x8000_0000 - SAFETY_WINDOW
      && card.size == size && card.Queue()
      && offset < size && card.lim == offset && offset == Place(|card.accepted|, size)
      && |card.pending| <= size - SAFETY_WINDOW
    }

    ghost predicate Valid()
      reads this, card, card.buf
    {
      && Agrees()
      && 0 <= freeSpace
      && freeSpace + |card.pending| <= size - SAFETY_WINDOW
    }

    /** After attach and start. */
    constructor (streamNum: nat, card: Card)
      requires SAFETY_WINDOW <= card.size <= 0x8000_0000 - SAFETY_WINDOW
      requires card.Queue() && card.accepted == [] && card.pending == [] && card.lim == 0
      ensures Valid() && isOpen && attached
      ensures this.streamNum == streamNum && this.card == card
    {
      this.streamNum, this.card, size := streamNum, card, card.size;
      isOpen, attached := true, true;
      offset, freeSpace, lastBusTop, lastBusBottom := 0, 0, 0, 0;
    }

    /** One turn of the waiting loop: read both pointers, work out the space, sleep. */
    method PollSpace()
      requires Valid()
      modifies this`lastBusTop, this`lastBusBottom, this`freeSpace, card
      ensures Valid() && card.Drained()
      ensures freeSpace == size - SAFETY_WINDOW - |old(card.pending)|
      ensures card.neverRests && old(card.pending) != [] ==> |card.pending| < |old(card.pending)|
    {
      lastBusTop := card.RecordPtr();
      ghost var unread := |card.pending|;
      card.Work();
      lastBusBottom := card.LimitPtr();
      freeSpace := SpaceLeft(lastBusTop, lastBusBottom, size, card.phyaddr, unread);
      card.Work();
    }

    /** One `memcpy` into the ring, byte by byte, with the card at work in between. What
        was already copied past the limit and all unread bytes survive it. */
    method Memcpy(start: nat, data: seq<Byte>, ghost done: seq<Byte>)
      requires Agrees()
      requires start + |data| <= size
      requires data != [] ==> start == Slot(offset, |done|, size)
      requires |card.pending| + |done| + |data| < size
      requires Holds(card.mem, offset, done)
      modifies card, card.buf
      ensures Agrees() && card.Drained()
      ensures Holds(card.mem, offset, done + data)
    {
      hide Fifo, Holds;
      var k := 0;
      assert done + data[..0] == done;
      while k < |data|
        invariant 0 <= k <= |data|
        invariant Agrees() && card.Drained()
        invariant Holds(card.mem, offset, done + data[..k])
      {
        card.Write(start + k, data[k], done + data[..k]);
        assert done + data[..k] + [data[k]] == done + data[..k + 1];
        k := k + 1;
        card.Work();
      }
      assert data[..k] == data;
    }

    /** The copy itself, in one piece or in two when it passes the end of the buffer. */
    method CopyIn(orig: seq<Byte>)
      requires Agrees()
      requires |orig| + |card.pending| <= size - SAFETY_WINDOW
      modifies card, card.buf
      ensures Agrees() && card.Drained()
      ensures Holds(card.mem, offset, orig)
    {
      var remaining := size - offset;
      assert [] + orig == orig;
      if remaining >= |orig| {
        Memcpy(offset, orig, []);
      } else {
        assert [] + orig[..remaining] == orig[..remaining];
        Memcpy(offset, orig[..remaining], []);
        Memcpy(0, orig[remaining..], orig[..remaining]);
        assert orig[..remaining] + orig[remaining..] == orig;
      }
    }

    /** Moving the offset, kept inside the buffer, and handing the new limit to the card. */
    method Publish(orig: seq<Byte>)
      requires Agrees()
      requires 0 <= freeSpace && freeSpace + |orig| + |card.pending| <= size - SAFETY_WINDOW
      requires Holds(card.mem, offset, orig)
      modifies this`offset, this`lastBusBottom, card
      ensures Valid()
      ensures card.wire == old(card.wire) && card.accepted == old(card.accepted) + orig
    {
      PlaceMoves(|card.accepted|, |orig|, size);
      hide Place;
      offset := offset + |orig|;
      if offset >= size {
        offset := offset - size;
      }
      lastBusBottom := card.phyaddr + offset;
      card.SetLimit(lastBusBottom, orig);
    }

    /** `nac_tx_stream_copy_bytes`: wait for space, copy, move the limit. Within `polls`
        turns a card that never rests makes room for anything that leaves the safety
        window free, and one turn is enough if the room is there; a longer buffer is not
        refused but waited for in vain. Only streams 8 to 15 transmit. */
    method CopyBytes(orig: seq<Byte>, polls: nat) returns (r: Outcome)
      requires Valid()
      modifies this`offset, this`freeSpace, this`lastBusTop, this`lastBusBottom, card, card.buf
      ensures Valid()
      ensures r.Failed? <==> !isOpen || !attached || |orig| > size || !(8 <= streamNum < 16)
      ensures r.Failed? ==>
                r.errno == if !isOpen then EBADF else if !attached || |orig| > size then EINVAL else ENOTTY
      ensures r.Failed? ==> freeSpace == old(freeSpace)
      ensures r.Done? ==> r.value == |orig|
      ensures card.accepted == if r.Done? then old(card.accepted) + orig else old(card.accepted)
      ensures !r.Done? ==> offset == old(offset)
      ensures |orig| > size - SAFETY_WINDOW ==> !r.Done?
      ensures |orig| <= size - SAFETY_WINDOW && polls >= size && card.neverRests ==> !r.Polling?
      ensures r.Polling? ==> |orig| > old(freeSpace)
      ensures r.Polling? && polls >= 1 ==> |orig| + |old(card.pending)| > size - SAFETY_WINDOW
    {
      hide Place, Fifo, Holds;
      if !isOpen {
        return Failed(EBADF);
      }
      if !attached {
        return Failed(EINVAL);
      }
      if |orig| > size {
        return Failed(EINVAL);
      }
      if streamNum < NUM_STREAM || streamNum > NUM_STREAM * 2 - 1 {
        return Failed(ENOTTY);
      }
      card.Work();
      var left: nat := polls;
      while freeSpace < |orig|
        invariant Valid() && card.Drained()
        invariant polls >= size && card.neverRests ==>
                    left > |card.pending| || freeSpace == size - SAFETY_WINDOW
        invariant left == polls ==> freeSpace == old(freeSpace)
        invariant left == polls || freeSpace >= size - SAFETY_WINDOW - |old(card.pending)|
        invariant |orig| <= old(freeSpace) ==> left == polls
        decreases left
      {
        if left == 0 {
          return Polling;
        }
        PollSpace();
        left := left - 1;
      }
      freeSpace := freeSpace - |orig|;
      CopyIn(orig);
      Publish(orig);
      r := Done(|orig|);
    }

    /** A stream that can transmit. */
    predicate Ready()
      reads this`isOpen, this`attached
    {
      isOpen && attached && 8 <= streamNum < 16
    }

    /** Buffer after buffer, until one is not accepted. */
    method CopyAll(bufs: seq<seq<Byte>>, polls: nat) returns (copied: nat)
      requires Valid()
      modifies this`offset, this`freeSpace, this`lastBusTop, this`lastBusBottom, card, card.buf
      ensures Valid() && copied <= |bufs|
      ensures card.accepted == old(card.accepted) + Concat(bufs[..copied])
      ensures !Ready() ==> copied == 0
      ensures forall k :: 0 <= k < copied ==> |bufs[k]| <= size - SAFETY_WINDOW
      ensures copied < |bufs| ==>
                !Ready() || |bufs[copied]| > size - SAFETY_WINDOW || polls < size || !card.neverRests
    {
      hide Place, Fifo, Holds;
      copied := 0;
      assert bufs[..0] == [];
      while copied < |bufs|
        invariant copied <= |bufs| && Valid()
        invariant card.accepted == old(card.accepted) + Concat(bufs[..copied])
        invariant !Ready() ==> copied == 0
        invariant forall k :: 0 <= k < copied ==> |bufs[k]| <= size - SAFETY_WINDOW
      {
        var r := CopyBytes(bufs[copied], polls);
        if !r.Done? {
          return;
        }
        ConcatOneMore(old(card.accepted), bufs, copied);
        copied := copied + 1;
      }
    }

    /** The ring holds whole laps of accepted bytes, so the host has written the closing place
        as the start, while the card reports it as the end: the registers never agree. */
    ghost predicate NeverMeets()
      reads this`offset, card
    {
      card.closing.AsEnd? && offset == 0 && card.accepted != []
    }

    /** The record register cannot read as the start of a buffer that has been filled. */
    lemma FilledOnce()
      requires Agrees() && NeverMeets()
      ensures card.rec > 0
    {
      card.PointersMeet();
    }

    /** The waiting loop of `nac_tx_stop_stream`: watch the record pointer until it meets
        the limit read at the start. It ends for a card that never rests, except when whole
        laps have been copied and the card does not report the closing place as the start;
        if it reports it as the end, the loop does not end however long it polls. */
    method Drain(polls: nat) returns (stopped: bool)
      requires Valid()
      modifies card
      ensures Valid() && card.Drained()
      ensures stopped ==> card.wire == card.accepted
      ensures card.closing.AsStart? || offset > 0 || card.accepted == [] ==>
                (polls >= size && card.neverRests) || old(card.pending) == [] ==> stopped
      ensures NeverMeets() ==> !stopped
    {
      var left: nat := polls;
      card.Work();
      card.PointersMeet();
      if NeverMeets() {
        FilledOnce();
      }
      var rcd := card.RecordPtr();
      card.Work();
      var limit := card.LimitPtr();
      card.PointersMeet();
      while rcd != limit
        invariant Valid() && card.Drained()
        invariant limit == card.LimitPtr()
        invariant rcd == limit ==> card.wire == card.accepted
        invariant polls >= size && card.neverRests && (card.closing.AsStart? || offset > 0 || card.accepted == []) ==>
                    left > |card.pending| || rcd == limit
        invariant old(card.pending) == [] && (card.closing.AsStart? || offset > 0 || card.accepted == []) ==> rcd == limit
        invariant NeverMeets() ==> rcd != limit
        decreases left
      {
        if left == 0 {
          return false;
        }
        card.Work();
        if NeverMeets() {
          FilledOnce();
        }
        rcd := card.RecordPtr();
        card.PointersMeet();
        left := left - 1;
      }
      stopped := true;
    }
  }

  /** A whole run on a fresh ring: any buffers, any pace of the card. What the card has sent
      is always a prefix of the copied buffers in order, and all of them once the stop loop
      ends. A card that never rests gets every buffer through that leaves the safety window
      free; a receive stream copies nothing. The stop loop ends if the copied bytes are not whole laps or the card reports the
      closing place as the start; after whole laps, with a card that reports it as the end,
      it never does. */
  method Run(streamNum: nat, size: nat, phyaddr: nat, closing: Closing, neverRests: bool,
             bufs: seq<seq<Byte>>, polls: nat)
    returns (copied: nat, stopped: bool, wire: seq<Byte>)
    requires SAFETY_WINDOW <= size <= 0x8000_0000 - SAFETY_WINDOW
    requires phyaddr + size < 0x1_0000_0000
    ensures copied <= |bufs|
    ensures wire <= Concat(bufs[..copied])
    ensures |Concat(bufs[..copied])| - |wire| <= size - SAFETY_WINDOW
    ensures stopped ==> wire == Concat(bufs[..copied])
    ensures !(8 <= streamNum < 16) ==> copied == 0 && wire == []
    ensures forall k :: 0 <= k < copied ==> |bufs[k]| <= size - SAFETY_WINDOW
    ensures copied < |bufs| ==>
              || |bufs[copied]| > size - SAFETY_WINDOW || polls < size || !neverRests
              || !(8 <= streamNum < 16)
    ensures
      var total := |Concat(bufs[..copied])|;
      && (polls >= size && neverRests && (closing.AsStart? || total == 0 || total % size != 0) ==> stopped)
      && (closing.AsEnd? && total > 0 && total % size == 0 ==> !stopped)
  {
    var card := new Card(size, phyaddr, closing, neverRests);
    var stream := new TxStream(streamNum, card);
    copied := stream.CopyAll(bufs, polls);
    assert [] + Concat(bufs[..copied]) == Concat(bufs[..copied]);
    stopped := stream.Drain(polls);
    wire := card.wire;
    card.PointersMeet();
    PlaceIsMod(|card.accepted|, size);
  }
}
