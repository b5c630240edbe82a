/** The card side of a transmit ring: the buffer it reads, its two pointer registers and
    the bytes it has put on the wire. The host writes the buffer and the limit pointer;
    the card, at its own pace, reads and moves the record pointer. */
module TxCard {
  import opened StreamTypes
  import opened RingQueue

  /** How the card reports the place where the ring closes, which is both the end and the
      start of the buffer: as one of them, first as the end and later as the start, or as
      either from one read to the next. */
  datatype Closing = AsStart | AsEnd | AsEndFirst | AsEither

  /** The slot an offset in `[0, size]` stands for. The host maps the buffer twice in a
      row, so this is also where the byte at linear offset `v` below `2*size` lives. */
  function Alias(v: nat, size: nat): nat {
    if v >= size then v - size else v
  }

  /** Writing on past the end of the first mapping is writing from the start of the ring. */
  lemma LinearIsWrapped(offset: nat, i: nat, size: nat)
    requires offset <= size && i < size
    ensures Alias(offset + i, size) == Slot(Alias(offset, size), i, size)
  {
  }

  class Card {
    const size: nat
    const phyaddr: nat
    const buf: array<Byte>
    const closing: Closing
    /** At any instant the card may take any number of bytes, none included. This says that
        it does not use the freedom to rest. */
    const neverRests: bool

    /** The record and limit registers, less the bus address of the buffer. */
    var rec: nat
    var lim: nat
    var wire: seq<Byte>

    // the contents of the buffer, the queue in it, and everything ever queued
    ghost var mem: seq<Byte>
    ghost var pending: seq<Byte>
    ghost var accepted: seq<Byte>

    /** The slots they stand for. */
    function Rec(): nat
      reads this`rec
    {
      Alias(rec, size)
    }

    function Lim(): nat
      reads this`lim
    {
      Alias(lim, size)
    }

    ghost predicate Queue()
      reads this, buf
    {
      && mem == buf[..] && |mem| == size
      && 0 < size < 0x8000_0000 && phyaddr + size < 0x1_0000_0000
      && rec <= size && lim <= size
      && Fifo(mem, Rec(), Lim(), pending, wire, accepted)
      && (rec == size ==> !closing.AsStart?)
      && (rec == 0 && closing.AsEnd? ==> wire == [])
      && (wire == [] ==> rec == 0)
    }

    /** What the registers read as on the bus. */
    function RecordPtr(): nat
      reads this`rec
    {
      phyaddr + rec
    }

    function LimitPtr(): nat
      reads this`lim
    {
      phyaddr + lim
    }

    /** After start: an empty ring with both pointers at its base. */
    constructor (size: nat, phyaddr: nat, closing: Closing, neverRests: bool)
      requires 0 < size < 0x8000_0000 && phyaddr + size < 0x1_0000_0000
      ensures Queue() && fresh(buf)
      ensures pending == [] && wire == [] && accepted == []
      ensures lim == 0
      ensures this.size == size && this.phyaddr == phyaddr
      ensures this.closing == closing && this.neverRests == neverRests
    {
      this.size, this.phyaddr, this.closing, this.neverRests := size, phyaddr, closing, neverRests;
      buf := new Byte[size];
      rec, lim, wire := 0, 0, [];
      pending, accepted := [], [];
      new;
      mem := buf[..];
    }

    /** What the card does to the queue: it gets shorter while what was accepted stays, so
        bytes have moved to the wire. */
    twostate predicate Drained()
      reads this
    {
      && |pending| <= |old(pending)|
      && accepted == old(accepted)
    }

    twostate lemma DrainedToWire()
      requires old(Queue()) && Queue() && Drained()
      ensures old(wire) <= wire
    {
      assert old(accepted) == old(wire) + old(pending);
      assert accepted == wire + pending;
      assert forall i :: 0 <= i < |old(wire)| ==> old(wire)[i] == accepted[i] == wire[i];
    }

    /** Equal registers mean that everything accepted has been sent. */
    lemma PointersMeet()
      requires Queue()
      ensures Rec() == Lim() <==> pending == []
      ensures rec == lim ==> wire == accepted
      ensures wire == accepted <==> pending == []
      ensures |accepted| == |wire| + |pending|
    {
      FifoEmpty(mem, Rec(), Lim(), pending, wire, accepted);
    }

    /** The card sends the byte under the record pointer and advances. */
    method TakeByte()
      requires Queue() && Rec() != Lim()
      modifies this`rec, this`wire, this`pending
      ensures Queue()
      ensures |pending| == |old(pending)| - 1 && accepted == old(accepted)
    {
      var slot := Rec();
      FifoTake(mem, slot, Lim(), pending, wire, accepted);
      wire := wire + [buf[slot]];
      rec := if slot + 1 == size && closing.AsStart? then 0 else slot + 1;
      pending := pending[1..];
    }

    /** A card that reported the closing place as the end now reports it as the start, */
    method ReportStart()
      requires Queue() && (closing.AsEndFirst? || closing.AsEither?) && rec == size
      modifies this`rec
      ensures Queue() && rec == 0
    {
      rec := 0;
    }

    /** or the other way round. */
    method ReportEnd()
      requires Queue() && closing.AsEither? && rec == 0 && wire != []
      modifies this`rec
      ensures Queue() && rec == size
    {
      rec := size;
    }

    /** The card at work for one instant: it takes bytes while it is ready for more and not
        at the limit, and reports the closing place as it pleases. */
    method Work()
      requires Queue()
      modifies this`rec, this`wire, this`pending
      ensures Queue() && Drained()
      ensures neverRests && old(pending) != [] ==> |pending| < |old(pending)|
      ensures old(pending) == [] && old(rec) == 0 && !closing.AsEither? ==> rec == 0
    {
      var n: nat :| neverRests ==> n >= 1;
      var m := 0;
      PointersMeet();
      while m < n && Rec() != Lim()
        invariant Queue() && Drained()
        invariant |pending| == |old(pending)| - m
        invariant Rec() == Lim() <==> pending == []
        invariant old(pending) == [] ==> rec == old(rec)
      {
        TakeByte();
        m := m + 1;
        PointersMeet();
      }
      if (closing.AsEndFirst? || closing.AsEither?) && rec == size {
        if * {
          ReportStart();
        }
      } else if closing.AsEither? && rec == 0 && wire != [] {
        if * {
          ReportEnd();
        }
      }
    }

    /** One byte written to the buffer. */
    method Store(slot: nat, b: Byte)
      requires mem == buf[..] && slot < |mem|
      modifies this`mem, buf
      ensures mem == old(mem)[slot := b] && mem == buf[..]
    {
      buf[slot] := b;
      mem := mem[slot := b];
    }

    /** The host writing a byte into the free part of the buffer, `ahead` places past the
        limit, where it has already written `done`. */
    method Write(at: nat, b: Byte, ghost done: seq<Byte>)
      requires Queue() && |pending| + |done| < size
      requires at == Slot(Lim(), |done|, size)
      requires Holds(mem, Lim(), done)
      modifies this`mem, buf
      ensures Queue()
      ensures Holds(mem, Lim(), done + [b])
    {
      FifoWriteFree(mem, Rec(), Lim(), pending, wire, accepted, |done|, b);
      WriteNext(mem, Lim(), done, b);
      Store(at, b);
    }

    /** The host writing the limit register: what lies up to it joins the queue. */
    method SetLimit(address: nat, ghost data: seq<Byte>)
      requires Queue() && |pending| + |data| < size
      requires Holds(mem, Lim(), data)
      requires phyaddr <= address <= phyaddr + size
      requires Alias(address - phyaddr, size) == Slot(Lim(), |data|, size)
      modifies this`lim, this`pending, this`accepted
      ensures Queue() && lim == address - phyaddr
      ensures pending == old(pending) + data && accepted == old(accepted) + data
    {
      FifoAppend(mem, Rec(), Lim(), pending, wire, accepted, data);
      lim, pending, accepted := address - phyaddr, pending + data, accepted + data;
    }
  }
}
