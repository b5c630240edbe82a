/** Receiving with `nac_advance_stream`: the card writes the ring and moves the record
    pointer, the host reads behind it through a double mapping and moves the limit. */
module RxRing {
  import opened StreamTypes
  import opened RingQueue
  import opened TxCard
  import opened Words

  // ---- positions ----

  /** The limit offset the host writes for a reader at aligned offset `a`: the safety
      window behind it, or the end of the buffer if that would fall at or before its start. */
  function WrSafe(a: int, size: nat): int {
    if a - SAFETY_WINDOW <= 0 then size else a - SAFETY_WINDOW
  }

  /** How far a write of the limit register moves the limit: forward in ring order, less
      than a lap. */
  function Forward(from: int, to: int, size: nat): int {
    if to >= from then to - from else to - from + size
  }

  /** Bytes the host takes to be available between its aligned bottom and the record
      pointer. */
  function Available(offset: int, bottomAlign: int, size: nat): int {
    if offset >= bottomAlign then offset - bottomAlign else size - bottomAlign + offset
  }

  /** A register offset in `[0, size]` that shows the absolute position `pos`, seen from a
      lap that starts at `base`. */
  predicate Shows(offset: int, pos: int, base: int, size: nat) {
    0 <= offset <= size && (pos == base + offset || pos == base + offset + size)
  }

  function AlignDown(x: nat): nat {
    x - x % 128
  }

  lemma AlignedBelow(floor: nat, base: nat, bottom: nat)
    requires base % 128 == 0 && floor % 128 == 0 && floor <= base + bottom
    ensures 0 <= AlignDown(bottom) <= bottom < AlignDown(bottom) + 128
    ensures AlignDown(bottom) % 128 == 0
    ensures floor == base + AlignDown(bottom) || floor + 128 <= base + AlignDown(bottom)
  {
  }

  lemma AlignInLap(base: nat, x: nat)
    requires base % 128 == 0
    ensures AlignDown(base + x) == base + AlignDown(x) && AlignDown(x) <= x
  {
  }

  lemma SameAligned(x: nat, y: nat)
    requires x <= y < AlignDown(x) + 128
    ensures AlignDown(y) == AlignDown(x)
  {
  }

  /** The limit that fits a reader whose aligned position was `floor`: a lap ahead less the
      safety window, or a full lap for a reader at the very start of its lap. */
  predicate LimitFits(limit: nat, floor: nat, base: nat, size: nat) {
    limit == floor + size - 128 || (limit == floor + size && floor <= base)
  }

  /** The limit written for a reader at `base + bottom` is ahead of the old one by less
      than a lap, so the card moves its limit to exactly the intended place. */
  lemma LimitMovesForward(base: nat, bottom: nat, floor: nat, limit: nat, shown: int, size: nat)
    requires size % 128 == 0 && base % 128 == 0 && floor % 128 == 0 && size >= 256
    requires bottom <= size && floor <= base + bottom < limit < base + 2 * size
    requires LimitFits(limit, floor, base, size)
    requires Shows(shown, limit, base, size) && shown > 0
    ensures
      var a := AlignDown(bottom);
      var to := WrSafe(a, size);
      var moved := limit + Forward(shown, to, size);
      && 0 < to <= size
      && floor <= base + a
      && limit <= moved < base + 2 * size
      && moved <= base + bottom + size
      && Shows(to, moved, base, size)
      && LimitFits(moved, base + a, base, size)
      && (base + a) % 128 == 0
  {
    AlignedBelow(floor, base, bottom);
  }

  // ---- the ring seen by the card ----

  /** The reader is in its lap, the card at most a lap ahead of the reader. */
  predicate Counts(base: nat, done: nat, received: nat, limit: nat, size: nat) {
    && base <= done <= received <= limit <= done + size && done < limit < base + 2 * size
    && (base > 0 ==> done > base)
  }

  /** Bytes `done` to `received` of the feed are unread and lie in the ring, in the lap at
      `base` and the next; behind them the card may write up to `limit`, never back onto an
      unread byte. Positions count from the start of the feed. */
  ghost predicate Window<T>(mem: seq<T>, feed: seq<T>, rec: int, lim: int,
                            base: nat, done: nat, received: nat, limit: nat) {
    && Counts(base, done, received, limit, |mem|)
    && received <= |feed|
    && Shows(rec, received, base, |mem|)
    && Shows(lim, limit, base, |mem|) && lim > 0
    && Holds(mem, Alias(done - base, |mem|), feed[done..received])
  }

  lemma WindowReceive<T>(mem: seq<T>, feed: seq<T>, rec: int, lim: int,
                         base: nat, done: nat, received: nat, limit: nat, rec': int)
    requires Window(mem, feed, rec, lim, base, done, received, limit)
    requires received < limit && received < |feed|
    requires rec' == Alias(rec, |mem|) + 1 || (rec' == 0 && Alias(rec, |mem|) + 1 == |mem|)
    ensures 0 <= Alias(rec, |mem|) < |mem|
    ensures Window(mem[Alias(rec, |mem|) := feed[received]], feed, rec', lim, base, done, received + 1, limit)
  {
    WriteNext(mem, Alias(done - base, |mem|), feed[done..received], feed[received]);
    assert feed[done..received + 1] == feed[done..received] + [feed[received]];
  }

  lemma WindowRelease<T>(mem: seq<T>, feed: seq<T>, rec: int, lim: int,
                         base: nat, done: nat, received: nat, limit: nat, done': nat)
    requires Window(mem, feed, rec, lim, base, done, received, limit)
    requires done <= done' <= received && done' < limit
    ensures Window(mem, feed, rec, lim, base, done', received, limit)
  {
    HoldsDrop(mem, Alias(done - base, |mem|), feed[done..received], done' - done);
    hide Holds;
    assert feed[done..received][done' - done..] == feed[done'..received];
  }

  lemma WindowNextLap<T>(mem: seq<T>, feed: seq<T>, rec: int, lim: int,
                         base: nat, done: nat, received: nat, limit: nat)
    requires Window(mem, feed, rec, lim, base, done, received, limit)
    requires done > base + |mem|
    ensures Window(mem, feed, rec, lim, base + |mem|, done, received, limit)
  {
  }

  lemma SliceSnoc<T>(s: seq<T>, lo: nat, hi: nat)
    requires lo <= hi < |s|
    ensures s[lo..hi + 1] == s[lo..hi] + [s[hi]]
  {
  }

  lemma SliceJoin<T>(s: seq<T>, lo: nat, hi: nat)
    requires lo <= hi <= |s|
    ensures s[..lo] + s[lo..hi] == s[..hi]
  {
  }

  /** The byte the host finds `i` places past its bottom is the one the card received. */
  lemma WindowRead<T>(mem: seq<T>, feed: seq<T>, rec: int, lim: int,
                      base: nat, done: nat, received: nat, limit: nat, i: nat)
    requires Window(mem, feed, rec, lim, base, done, received, limit)
    requires done + i < received && done - base + i < 2 * |mem|
    ensures 0 <= Alias(done - base + i, |mem|) < |mem|
    ensures mem[Alias(done - base + i, |mem|)] == feed[done + i]
  {
    HoldsAt(mem, Alias(done - base, |mem|), feed[done..received], i);
  }

  class Card {
    const size: nat
    const phyaddr: nat
    const buf: array<Byte>
    /** Everything that will arrive at the card, in order. */
    const feed: seq<Byte>
    const closing: Closing
    const neverRests: bool
    /** The record and limit registers, less the bus address of the buffer. */
    var rec: nat
    var lim: nat
    /** How many bytes the card has stored, and up to how many it may. */
    var received: nat
    var limit: nat

    // the contents of the buffer, how many bytes the reader is done with, and where the
    // reader's current lap starts
    ghost var mem: seq<Byte>
    ghost var done: nat
    ghost var base: nat

    ghost predicate Inv()
      reads this, buf
    {
      && mem == buf[..] && |mem| == size
      && 256 <= size < 0x8000_0000 && phyaddr + size < 0x1_0000_0000
      && Counts(base, done, received, limit, size) && received <= |feed|
      && Window(mem, feed, rec, lim, base, done, received, limit)
      && (closing.AsStart? ==> rec < size)
      && (closing.AsEnd? && rec == 0 ==> received == 0)
    }

    /** After start: nothing received, and the whole buffer open to the card. */
    constructor (size: nat, phyaddr: nat, closing: Closing, neverRests: bool, feed: seq<Byte>)
      requires 256 <= size < 0x8000_0000 && phyaddr + size < 0x1_0000_0000
      ensures Inv() && fresh(buf)
      ensures done == received == base == 0 && limit == size
      ensures this.size == size && this.phyaddr == phyaddr && this.feed == feed
      ensures this.closing == closing && this.neverRests == neverRests
    {
      this.size, this.phyaddr, this.closing, this.neverRests := size, phyaddr, closing, neverRests;
      this.feed := feed;
      buf := new Byte[size];
      rec, lim, received, limit := 0, size, 0, size;
      done, base := 0, 0;
      new;
      mem := buf[..];
    }

    /** One byte written to the buffer. */
    method Store(slot: nat, b: Byte)
      requires mem == buf[..] && slot < |mem|
      modifies this`mem, buf
      ensures mem == old(mem)[slot := b] && mem == buf[..]
    {
      buf[slot] := b;
      mem := mem[slot := b];
    }

    /** The card stores the next byte of the feed. It never reaches a byte still unread. */
    method Receive()
      requires Inv() && received < limit && received < |feed|
      modifies this`rec, this`received, this`mem, buf
      ensures Inv() && received == old(received) + 1
    {
      var slot := Alias(rec, size);
      var next := if slot + 1 == size && closing.AsStart? then 0 else slot + 1;
      WindowReceive(mem, feed, rec, lim, base, done, received, limit, next);
      Store(slot, feed[received]);
      rec, received := next, received + 1;
    }

    /** The card at work for one instant: it stores as many bytes as have arrived and there
        is room for, and reports the closing place as it pleases. */
    method Work()
      requires Inv()
      modifies this`rec, this`received, this`mem, buf
      ensures Inv() && received >= old(received)
      ensures neverRests && old(received) < limit && old(received) < |feed| ==> received > old(received)
      ensures old(received) == limit ==> received == old(received)
      ensures old(received) == limit && old(rec) == 0 && !closing.AsEither? ==> rec == 0
    {
      var n: nat :| neverRests ==> n >= 1;
      var m := 0;
      while m < n && received < limit && received < |feed|
        invariant Inv() && received == old(received) + m
        invariant old(received) == limit ==> rec == old(rec)
      {
        Receive();
        m := m + 1;
      }
      if (closing.AsEndFirst? || closing.AsEither?) && rec == size {
        if * {
          rec := 0;
        }
      } else if closing.AsEither? && rec == 0 && received > 0 {
        if * {
          rec := size;
        }
      }
    }

    /** The card storing the first `n` bytes of the feed. */
    method ReceiveFirst(n: nat)
      requires Inv() && received == 0 && n <= limit && n <= |feed|
      modifies this`rec, this`received, this`mem, buf
      ensures Inv() && received == n
    {
      while received < n
        invariant Inv() && received <= n
      {
        Receive();
      }
    }

    /** The host writing the limit register moves the limit forward in ring order. */
    method SetLimit(address: nat)
      requires Inv() && phyaddr < address <= phyaddr + size
      requires
        var moved := limit + Forward(lim, address - phyaddr, size);
        && moved <= done + size && moved < base + 2 * size
        && Shows(address - phyaddr, moved, base, size)
      modifies this`lim, this`limit
      ensures Inv()
      ensures limit == old(limit + Forward(lim, address - phyaddr, size))
    {
      limit := limit + Forward(lim, address - phyaddr, size);
      lim := address - phyaddr;
    }

    /** The reader is done with the bytes up to `done'`. */
    ghost method Release(done': nat)
      requires Inv() && done <= done' <= received && done' < limit
      modifies this`done
      ensures Inv() && done == done'
    {
      WindowRelease(mem, feed, rec, lim, base, done, received, limit, done');
      done := done';
    }

    /** The reader counts from the next lap on. */
    ghost method NextLap()
      requires Inv() && done > base + size
      modifies this`base
      ensures Inv() && base == old(base) + size
    {
      WindowNextLap(mem, feed, rec, lim, base, done, received, limit);
      base := base + size;
    }
  }

  // ---- the host's side ----

  /** How the host turns a record register offset into a position past its aligned
      bottom: a register behind the bottom has wrapped. */
  function Unwrapped(offset: int, bottomAlign: int, size: nat): int {
    if offset < bottomAlign then offset + size else offset
  }

  /** The host never takes a byte for received that is not; it sees every received byte
      unless a full lap has arrived for a reader at the start of its lap and the card
      reports the closing place as the start. */
  lemma UnwrappedIsSafe(rec: nat, received: nat, limit: nat, base: nat, bottom: nat, size: nat)
    requires size > 0 && bottom <= size && Shows(rec, received, base, size)
    requires base + bottom <= received <= limit <= base + AlignDown(bottom) + size
    requires limit == base + AlignDown(bottom) + size ==> AlignDown(bottom) == 0
    ensures
      var at := Unwrapped(rec, AlignDown(bottom), size);
      && AlignDown(bottom) <= at <= received - base
      && (at == received - base <==> !(rec == 0 && AlignDown(bottom) == 0 && received == base + size))
  {
  }

  predicate LapStart(base: nat, size: nat) {
    size > 0 && base % size == 0
  }

  lemma NextLapStart(base: nat, size: nat)
    requires LapStart(base, size)
    ensures LapStart(base + size, size)
  {
    OffsetMoves(base, size, size);
  }

  lemma LimitStillFits(limit: nat, floor: nat, base: nat, size: nat)
    requires LimitFits(limit, floor, base, size) && base % 128 == 0 && size % 128 == 0
    ensures LimitFits(limit, floor, base + size, size) && (base + size) % 128 == 0
  {
  }

  class RxStream {
    const card: Card
    const size: nat
    const extraWindow: nat
    const mindata: nat
    var isOpen: bool
    var attached: bool
    /** The caller's bottom pointer as an offset into the mapping; none before the first
        call. */
    var bottom: nat
    var hasBottom: bool

    /** The aligned reader position at the last write of the limit, and the position up to
        which the caller may read. */
    ghost var floor: nat
    ghost var readable: nat

    ghost predicate Reader()
      reads this, card, card.buf
    {
      && card.Inv() && card.size == size && extraWindow <= size
      && size % 128 == 0 && card.base % 128 == 0 && floor % 128 == 0
      && LapStart(card.base, size)
      && card.done == card.base + bottom
      && (!hasBottom ==> bottom == 0 && readable == 0)
      && floor <= card.done
      && readable <= card.received && readable < card.limit
      && readable <= card.base + size + extraWindow
    }

    ghost predicate Valid()
      reads this, card, card.buf
    {
      && Reader()
      && LimitFits(card.limit, floor, card.base, size)
    }

    constructor (card: Card, extraWindow: nat, mindata: nat)
      requires card.Inv() && card.done == 0 && card.base == 0 && card.limit == card.size
      requires card.size % 128 == 0 && extraWindow <= card.size
      ensures Valid() && isOpen && attached && bottom == floor == 0
      ensures this.card == card && this.extraWindow == extraWindow && this.mindata == mindata
    {
      this.card, size, this.extraWindow, this.mindata := card, card.size, extraWindow, mindata;
      isOpen, attached := true, true;
      bottom, hasBottom := 0, false;
      floor, readable := 0, 0;
      DivModUnique(0, card.size, 0, 0);
    }

    /** First lines of `nac_advance_stream`: start at the base, and wrap a bottom pointer
        that has run past the end of the first mapping. */
    method NormaliseBottom()
      requires Valid()
      modifies this`bottom, this`hasBottom, this`readable, card`base
      ensures Valid() && hasBottom && bottom <= size
      ensures old(bottom) <= size ==> bottom == old(bottom) && card.base == old(card.base)
    {
      hide Window, LapStart;
      if !hasBottom {
        bottom, hasBottom := 0, true;
      }
      if bottom > size {
        NextLapStart(card.base, size);
        LimitStillFits(card.limit, floor, card.base, size);
        card.NextLap();
        bottom := bottom - size;
      }
      readable := card.done;
    }

    /** A full lap is waiting for a reader at the start of its lap, and the card reports the
        closing place as the start, or may do so: the one state in which received bytes go
        unseen. The card is at its limit then. */
    ghost predicate Jammed()
      reads this`bottom, card
    {
      && (card.rec == 0 || card.closing.AsEither?)
      && bottom < 128 && bottom <= size
      && card.received == card.limit == card.base + size
    }

    /** Writing the limit for the current bottom: the register moves forward in ring order,
        to where it must be. */
    method MoveLimit(bottomAlign: nat)
      requires Valid() && bottom <= size && bottomAlign == AlignDown(bottom)
      modifies this`floor, card`lim, card`limit
      ensures Valid() && floor == card.base + bottomAlign
      ensures card.limit >= old(card.limit)
      ensures old(Jammed()) ==> card.limit == old(card.limit)
    {
      hide Holds, LapStart;
      var to := WrSafe(bottomAlign, size);
      LimitMovesForward(card.base, bottom, floor, card.limit, card.lim, size);
      card.SetLimit(card.phyaddr + to);
      floor := card.base + bottomAlign;
    }

    /** Reading the record register gives a position that the card has really passed. */
    method ReadRecord(bottomAlign: nat) returns (offset: nat)
      requires Valid() && bottom <= size && bottomAlign == AlignDown(bottom) && floor <= card.base + bottomAlign
      ensures offset <= size
      ensures bottomAlign <= Unwrapped(offset, bottomAlign, size) <= card.received - card.base
      ensures (offset == 0 && Jammed()) || Unwrapped(offset, bottomAlign, size) == card.received - card.base
      ensures Jammed() && !card.closing.AsEither? ==> offset == 0
    {
      UnwrappedIsSafe(card.rec, card.received, card.limit, card.base, bottom, size);
      offset := card.rec;
    }

    /** The last lines of `nac_advance_stream`: unwrap the position, cut it at the end of
        the mapping, and keep the safety window back if that much has arrived. */
    function TopOf(offset: int, bottomAlign: int): int {
      var at := Unwrapped(offset, bottomAlign, size);
      var cut := if at > size + extraWindow then size + extraWindow else at;
      if cut - bottomAlign >= SAFETY_WINDOW then cut - SAFETY_WINDOW else cut
    }

    /** At most the safety window before the position seen, or before the end of the mapping,
        is kept back; as much is, if it is there, and nothing otherwise. */
    predicate KeptBack(top: int, at: int, bottomAlign: int) {
      && (top + SAFETY_WINDOW >= at || top + SAFETY_WINDOW >= size + extraWindow)
      && (top < bottomAlign + SAFETY_WINDOW || top + SAFETY_WINDOW <= at)
      && (at < bottomAlign + SAFETY_WINDOW || size + extraWindow < bottomAlign + SAFETY_WINDOW ==>
            top == at || top == size + extraWindow)
      && (bottomAlign + SAFETY_WINDOW <= at && bottomAlign + SAFETY_WINDOW <= size + extraWindow ==>
            top + SAFETY_WINDOW <= at && top + SAFETY_WINDOW <= size + extraWindow)
    }

    lemma TopIsReadable(offset: int, bottomAlign: nat)
      requires Valid() && floor == card.base + bottomAlign && bottomAlign <= size && bottomAlign == AlignDown(bottom)
      requires bottomAlign <= Unwrapped(offset, bottomAlign, size) <= card.received - card.base
      ensures
        var top := TopOf(offset, bottomAlign);
        && bottomAlign <= top <= size + extraWindow
        && card.base + top <= card.received
        && card.base + top < card.limit
        && KeptBack(top, Unwrapped(offset, bottomAlign, size), bottomAlign)
        && (offset == 0 && Jammed() ==> top == 0)
    {
    }

    /** The top of an advance, when `before` bytes had arrived at its start. It is at least the
        aligned bottom and inside the two mappings. At most the safety window of what had
        arrived is hidden, unless the ring is jammed; it is kept back if that much had arrived,
        and nothing is if less has. The card has gone on if it never rests and there was room. */
    ghost predicate Offers(top: int, before: nat)
      reads this, card
    {
      && hasBottom && bottom <= size && floor == card.base + AlignDown(bottom)
      && AlignDown(bottom) <= top <= size + extraWindow && readable == card.base + top
      && (|| top + SAFETY_WINDOW >= before - card.base
          || top + SAFETY_WINDOW >= size + extraWindow
          || (Jammed() && top == 0))
      && (AlignDown(bottom) + SAFETY_WINDOW <= before - card.base
          && AlignDown(bottom) + SAFETY_WINDOW <= size + extraWindow ==>
            top + SAFETY_WINDOW <= card.received - card.base && top + SAFETY_WINDOW <= size + extraWindow)
      && (top < AlignDown(bottom) + SAFETY_WINDOW || top + SAFETY_WINDOW <= card.received - card.base)
      && (|| AlignDown(bottom) + SAFETY_WINDOW <= card.received - card.base
          || top >= before - card.base || top == size + extraWindow || Jammed())
      && (card.neverRests && before < card.limit && before < |card.feed| ==> card.received > before)
    }

    /** With nothing new and nothing offered the reader has come to its end. */
    lemma Stops(top: int, before: nat)
      requires Valid() && Offers(top, before) && card.neverRests && card.received == before && top <= bottom
      ensures size >= 384 && extraWindow > SAFETY_WINDOW ==> |card.feed| - card.done <= SAFETY_WINDOW || Jammed()
      ensures |card.feed| < 128 ==> card.done == |card.feed|
    {
      AlignedBelow(floor, card.base, bottom);
    }

    /** Reading no further than the top leaves a safety window behind the aligned position, if
        the feed has one there; and it leaves one of what has arrived, if one had arrived
        behind the bottom. */
    lemma Leaves(top: int, before: nat, to: nat)
      requires Valid() && Offers(top, before) && before <= card.received
      requires to == bottom || bottom <= to <= top
      ensures AlignDown(card.done) + 128 <= |card.feed| ==> AlignDown(card.base + to) + 128 <= |card.feed|
      ensures bottom + SAFETY_WINDOW <= before - card.base && bottom + SAFETY_WINDOW <= size + extraWindow ==>
                to + SAFETY_WINDOW <= card.received - card.base && to + SAFETY_WINDOW <= size + extraWindow
    {
      AlignInLap(card.base, bottom);
      AlignInLap(card.base, to);
      hide AlignDown, Window, LapStart, Shows, Jammed;
      if to < AlignDown(bottom) + 128 {
        SameAligned(bottom, to);
      }
    }

    /** What a round makes of the top of an advance if the reader goes on to `to`. */
    lemma ReadsTo(top: int, before: nat, to: nat)
      requires Valid() && Offers(top, before) && before <= card.received
      requires to == bottom || bottom <= to <= top
      ensures card.done == card.base + bottom && card.done <= card.received <= |card.feed|
      ensures floor == card.base + AlignDown(bottom) && readable == card.base + top
      ensures AlignDown(card.done) + 128 <= |card.feed| ==> AlignDown(card.base + to) + 128 <= |card.feed|
      ensures bottom + SAFETY_WINDOW <= before - card.base && bottom + SAFETY_WINDOW <= size + extraWindow ==>
                to + SAFETY_WINDOW <= card.received - card.base && to + SAFETY_WINDOW <= size + extraWindow
      ensures card.neverRests && card.received == before && top <= bottom ==>
                && (size >= 384 && extraWindow > SAFETY_WINDOW ==> |card.feed| - card.done <= SAFETY_WINDOW || Jammed())
                && (|card.feed| < 128 ==> card.done == |card.feed|)
    {
      Leaves(top, before, to);
      hide AlignDown, Jammed;
      if card.neverRests && card.received == before && top <= bottom {
        Stops(top, before);
      }
    }

    /** The card has stored all that it may or all that there is. */
    ghost predicate NoMore()
      reads card
    {
      card.received == card.limit || card.received == |card.feed|
    }

    /** Polling the record register until `mindata` bytes are there or the timer, here
        `polls` turns, runs out. */
    method WaitForData(first: nat, bottomAlign: nat, polls: nat, ghost before: nat) returns (offset: nat)
      requires Valid() && bottom <= size && bottomAlign == AlignDown(bottom) && floor == card.base + bottomAlign
      requires bottomAlign <= Unwrapped(first, bottomAlign, size) <= card.received - card.base
      requires before <= card.received
      requires (first == 0 && Jammed()) || Unwrapped(first, bottomAlign, size) >= before - card.base
      modifies card`rec, card`received, card`mem, card.buf
      ensures Valid() && card.received >= old(card.received)
      ensures bottomAlign <= Unwrapped(offset, bottomAlign, size) <= card.received - card.base
      ensures (offset == 0 && Jammed()) || Unwrapped(offset, bottomAlign, size) >= before - card.base
      ensures old(Jammed()) ==> Jammed()
      ensures old(Jammed()) && first == 0 && !card.closing.AsEither? ==> offset == 0
      ensures Unwrapped(first, bottomAlign, size) - bottomAlign >= mindata || polls == 0 ==> offset == first
      ensures Unwrapped(offset, bottomAlign, size) - bottomAlign >= mindata
              || !card.neverRests || polls < size || NoMore()
    {
      hide Window, LapStart;
      offset := first;
      var left: nat := polls;
      while left > 0 && Available(offset, bottomAlign, size) < mindata
        invariant Valid() && card.received >= old(card.received)
        invariant bottomAlign <= Unwrapped(offset, bottomAlign, size) <= card.received - card.base
        invariant (offset == 0 && Jammed()) || Unwrapped(offset, bottomAlign, size) >= before - card.base
        invariant left < polls ==> Unwrapped(first, bottomAlign, size) - bottomAlign < mindata
        invariant left == polls ==> offset == first
        invariant old(Jammed()) ==> Jammed()
        invariant old(Jammed()) && first == 0 && !card.closing.AsEither? ==> offset == 0
        invariant card.neverRests ==> card.received + left >= old(card.received) + polls || NoMore()
        decreases left
      {
        card.Work();
        offset := ReadRecord(bottomAlign);
        left := left - 1;
      }
    }

    /** The card at work does not disturb the reader, nor a jam. */
    method LetWork()
      requires Valid()
      modifies card`rec, card`received, card`mem, card.buf
      ensures Valid() && card.received >= old(card.received)
      ensures old(Jammed()) ==> Jammed()
    {
      hide Window, LapStart;
      card.Work();
    }

    /** Moving the limit with the card at work before and after. */
    method MoveLimitAtWork(bottomAlign: nat)
      requires Valid() && bottom <= size && bottomAlign == AlignDown(bottom)
      modifies this`floor, card`lim, card`limit, card`rec, card`received, card`mem, card.buf
      ensures Valid() && floor == card.base + bottomAlign
      ensures card.limit >= old(card.limit) && card.received >= old(card.received)
      ensures card.neverRests && old(card.received) < card.limit && old(card.received) < |card.feed| ==>
                card.received > old(card.received)
      ensures old(Jammed()) ==> Jammed()
    {
      hide Window, LapStart;
      card.Work();
      MoveLimit(bottomAlign);
      card.Work();
    }

    /** Normalising the bottom, reading the record register, then moving the limit behind
        the bottom, with the card at work. */
    method FreeRing() returns (bottomAlign: nat, offset: nat)
      requires Valid()
      modifies this`bottom, this`hasBottom, this`floor, this`readable, card, card.buf
      ensures Valid() && card.done == old(card.done) && card.limit >= old(card.limit)
      ensures card.received >= old(card.received)
      ensures hasBottom && bottom <= size
      ensures bottomAlign == AlignDown(bottom) && floor == card.base + bottomAlign
      ensures bottomAlign <= Unwrapped(offset, bottomAlign, size) <= card.received - card.base
      ensures (offset == 0 && Jammed()) || Unwrapped(offset, bottomAlign, size) >= old(card.received) - card.base
      ensures card.neverRests && old(card.received) < card.limit && old(card.received) < |card.feed| ==>
                card.received > old(card.received)
      ensures old(bottom) <= size ==> bottom == old(bottom) && card.base == old(card.base)
      ensures old(Jammed()) ==> Jammed()
      ensures old(Jammed()) && !card.closing.AsEither? ==> offset == 0
    {
      hide Window, LapStart;
      NormaliseBottom();
      bottomAlign := AlignDown(bottom);
      AlignedBelow(floor, card.base, bottom);
      offset := ReadRecord(bottomAlign);
      MoveLimitAtWork(bottomAlign);
    }

    /** `nac_advance_stream`: free the ring behind the caller's bottom, wait, and return how
        far the caller may read. The top is at least the aligned bottom, never past what
        the card has received and inside the two mappings. It hides at most the safety window
        of what had arrived before the call, unless the ring is jammed, and then it stays so
        and the reader is offered nothing. The safety window is kept back whenever as much
        had arrived, and nothing while less has. */
    method AdvanceStream(polls: nat) returns (r: Outcome)
      requires Valid()
      modifies this`bottom, this`hasBottom, this`floor, this`readable, card, card.buf
      ensures Valid() && card.done == old(card.done) && card.limit >= old(card.limit)
      ensures card.received >= old(card.received)
      ensures !r.Polling? && (r.Failed? <==> !isOpen || !attached)
      ensures r.Failed? ==> r.errno == if !isOpen then EBADF else EINVAL
      ensures r.Failed? ==> bottom == old(bottom) && floor == old(floor) && card.limit == old(card.limit)
      ensures r.Done? ==> Offers(r.value, old(card.received))
      ensures r.Done? ==>
                || r.value + SAFETY_WINDOW >= AlignDown(bottom) + mindata
                || r.value + SAFETY_WINDOW >= size + extraWindow
                || !card.neverRests || polls < size || NoMore()
      ensures r.Done? && old(bottom) <= size ==> bottom == old(bottom) && card.base == old(card.base)
      ensures old(Jammed()) && r.Done? ==> Jammed()
      ensures old(Jammed()) && r.Done? && !card.closing.AsEither? ==> r.value == 0
    {
      hide Window, LapStart, LimitFits, Counts, Shows, AlignDown, Unwrapped, TopOf, Jammed;
      if !isOpen {
        return Failed(EBADF);
      }
      if !attached {
        return Failed(EINVAL);
      }
      ghost var before := card.received;
      LetWork();
      var bottomAlign, first := FreeRing();
      var offset := WaitForData(first, bottomAlign, polls, before);
      TopIsReadable(offset, bottomAlign);
      var top := TopOf(offset, bottomAlign);
      readable := card.base + top;
      r := Done(top);
    }

    /** The caller reading one byte through the linear mapping. */
    method ReadByte(i: nat) returns (b: Byte)
      requires Valid() && card.done + i < readable
      ensures b == card.feed[card.done + i]
    {
      hide LapStart;
      var address := bottom + i;
      assert address < size + extraWindow;
      WindowRead(card.mem, card.feed, card.rec, card.lim, card.base, card.done, card.received, card.limit, i);
      b := card.buf[Alias(address, size)];
    }

    /** The caller reading `c` bytes from its bottom through the linear mapping and moving
        the bottom past them, with the card at work: it gets exactly the next bytes of
        the feed. */
    method Consume(c: nat) returns (data: seq<Byte>)
      requires Valid() && card.done + c <= readable
      modifies this`bottom, card`rec, card`received, card`mem, card`done, card.buf
      ensures Valid() && card.done == old(card.done) + c && bottom == old(bottom) + c
      ensures card.received >= old(card.received)
      ensures data == card.feed[old(card.done)..card.done]
    {
      hide Window, LapStart, Shows;
      data := [];
      LetWork();
      while |data| < c
        invariant Valid() && |data| <= c && card.done == old(card.done) && card.received >= old(card.received)
        invariant data == card.feed[card.done..card.done + |data|]
      {
        var b := ReadByte(|data|);
        SliceSnoc(card.feed, card.done, card.done + |data|);
        data := data + [b];
        LetWork();
      }
      card.Release(card.done + c);
      bottom := bottom + c;
    }

    /** One round of a receiver: an advance, then reading as much of what it offers as is
        wanted. With a card that never rests a round that wants anything reads a byte or sees
        one arrive, until at most the safety window of the feed is unread or the ring jams. */
    method Round(want: nat, polls: nat) returns (data: seq<Byte>)
      requires Valid() && isOpen && attached
      modifies this`bottom, this`hasBottom, this`floor, this`readable, card, card.buf
      ensures Valid() && card.done >= old(card.done) && card.received >= old(card.received)
      ensures data == card.feed[old(card.done)..card.done]
      ensures card.neverRests && size >= 384 && extraWindow > SAFETY_WINDOW && want >= 1 ==>
                || card.done + card.received > old(card.done + card.received)
                || |card.feed| - card.done <= SAFETY_WINDOW
                || Jammed()
      ensures card.neverRests && want >= 1 && |card.feed| < 128 ==>
                card.done + card.received > old(card.done + card.received) || card.done == |card.feed|
      ensures AlignDown(old(card.done)) + 128 <= |card.feed| ==> AlignDown(card.done) + 128 <= |card.feed|
      ensures old(Jammed()) && !card.closing.AsEither? ==> Jammed() && card.done == old(card.done)
      ensures old(bottom) <= size && old(bottom) + SAFETY_WINDOW <= old(card.received - card.base)
              && old(bottom) + SAFETY_WINDOW <= size + extraWindow ==>
                && card.base == old(card.base) && floor == card.base + AlignDown(old(bottom))
                && bottom + SAFETY_WINDOW <= card.received - card.base
                && bottom + SAFETY_WINDOW <= size + extraWindow
    {
      hide Valid, Offers, Jammed, AlignDown;
      data := [];
      var r := AdvanceStream(polls);
      var c := if r.value <= bottom then 0 else if want <= r.value - bottom then want else r.value - bottom;
      ReadsTo(r.value, old(card.received), bottom + c);
      if r.value > bottom {
        data := Consume(c);
      }
    }
  }

  /** A whole run on a fresh ring: any feed, any pace of the card, any way of reporting the
      closing place, any sequence of advance calls, each followed by reading as much of
      what it offered as the caller wants. The bytes read are the feed, in order. With a card
      that never rests, a ring of at least three safety windows and an extra window beyond
      one, a reader that keeps asking leaves at most a safety window of the feed unread; or
      else it is jammed at the start of a lap, by a full lap whose end the card reports as
      its start. A feed shorter than a safety window is read to its end by whoever keeps
      asking, in any ring; a longer one never is, by anybody. */
  method Run(size: nat, phyaddr: nat, extraWindow: nat, mindata: nat, closing: Closing,
             neverRests: bool, feed: seq<Byte>, wants: seq<nat>, polls: nat)
    returns (data: seq<Byte>)
    requires size % 128 == 0 && 256 <= size < 0x8000_0000 && phyaddr + size < 0x1_0000_0000
    requires extraWindow <= size
    ensures data <= feed
    ensures |feed| >= 128 ==> AlignDown(|data|) + 128 <= |feed|
    ensures (|feed| < 128 && neverRests && |wants| >= 2 * |feed|
             && forall i :: 0 <= i < |wants| ==> wants[i] >= 1) ==> data == feed
    ensures neverRests && !closing.AsEither? && size >= 384 && extraWindow > SAFETY_WINDOW
            && |wants| >= 2 * |feed| && (forall i :: 0 <= i < |wants| ==> wants[i] >= 1) ==>
              || |feed| - |data| <= SAFETY_WINDOW
              || (!closing.AsEnd? && |data| % size < 128 && |feed| >= |data| - |data| % size + size)
  {
    hide Window;
    var card := new Card(size, phyaddr, closing, neverRests, feed);
    var stream := new RxStream(card, extraWindow, mindata);
    ghost var asking := neverRests && forall i :: 0 <= i < |wants| ==> wants[i] >= 1;
    ghost var keen := asking && !closing.AsEither? && size >= 384 && extraWindow > SAFETY_WINDOW;
    data := [];
    for i := 0 to |wants|
      invariant stream.Valid() && stream.card == card && card.feed == feed
      invariant fresh(stream) && fresh(card) && fresh(card.buf)
      invariant stream.isOpen && stream.attached
      invariant card.done <= |feed| && data == feed[..card.done]
      invariant |feed| >= 128 ==> AlignDown(card.done) + 128 <= |feed|
      invariant |feed| < 128 && asking ==> card.done + card.received >= i || card.done == |feed|
      invariant keen ==> card.done + card.received >= i || |feed| - card.done <= SAFETY_WINDOW || stream.Jammed()
    {
      ghost var before := card.done;
      var more := stream.Round(wants[i], polls);
      SliceJoin(feed, before, card.done);
      data := data + more;
    }
    if stream.Jammed() {
      OffsetMoves(card.base, stream.bottom, size);
    }
  }

  /** A receiver that finds the first safety window of bytes waiting keeps one back for good.
      In a ring of two safety windows, or with an extra window of at most one, that ends the
      run inside the first lap, whatever the card does and however much is wanted. */
  method HeldBack(size: nat, phyaddr: nat, extraWindow: nat, mindata: nat, closing: Closing,
                  neverRests: bool, feed: seq<Byte>, wants: seq<nat>, polls: nat)
    returns (data: seq<Byte>)
    requires size % 128 == 0 && 256 <= size < 0x8000_0000 && phyaddr + size < 0x1_0000_0000
    requires extraWindow <= size && |feed| >= SAFETY_WINDOW
    requires size == 256 || extraWindow <= SAFETY_WINDOW
    ensures data <= feed
    ensures size == 256 ==> |data| <= SAFETY_WINDOW
    ensures extraWindow <= SAFETY_WINDOW ==> |data| + SAFETY_WINDOW <= size + extraWindow
  {
    var card := new Card(size, phyaddr, closing, neverRests, feed);
    var stream := new RxStream(card, extraWindow, mindata);
    card.ReceiveFirst(SAFETY_WINDOW);
    hide Window;
    data := [];
    for i := 0 to |wants|
      invariant stream.Valid() && stream.card == card && card.feed == feed
      invariant fresh(stream) && fresh(card) && fresh(card.buf)
      invariant stream.isOpen && stream.attached
      invariant card.done <= |feed| && data == feed[..card.done]
      invariant card.base == 0 && stream.bottom + SAFETY_WINDOW <= card.received
      invariant stream.bottom + SAFETY_WINDOW <= size + extraWindow
      invariant size == 256 ==> stream.bottom <= SAFETY_WINDOW && stream.floor <= SAFETY_WINDOW
    {
      ghost var before := card.done;
      var more := stream.Round(wants[i], polls);
      SliceJoin(feed, before, card.done);
      data := data + more;
    }
  }

  /** A card that reports the closing place as the start and fills the whole ring before the
      first advance: however often the host advances, it is never offered a byte. */
  method FilledFirst(size: nat, phyaddr: nat, extraWindow: nat, mindata: nat, feed: seq<Byte>, polls: seq<nat>)
    returns (tops: seq<nat>)
    requires size % 128 == 0 && 256 <= size < 0x8000_0000 && phyaddr + size < 0x1_0000_0000
    requires extraWindow <= size && |feed| >= size
    ensures |tops| == |polls| && forall i :: 0 <= i < |tops| ==> tops[i] == 0
  {
    var card := new Card(size, phyaddr, AsStart, true, feed);
    var stream := new RxStream(card, extraWindow, mindata);
    card.ReceiveFirst(size);
    assert stream.Jammed();
    hide Window;
    tops := [];
    while |tops| < |polls|
      invariant |tops| <= |polls| && stream.Valid() && stream.isOpen && stream.attached && stream.Jammed()
      invariant fresh(stream) && fresh(card) && fresh(card.buf) && stream.card == card
      invariant forall i :: 0 <= i < |tops| ==> tops[i] == 0
    {
      var r := stream.AdvanceStream(polls[|tops|]);
      tops := tops + [r.value];
    }
  }
}
