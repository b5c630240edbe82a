/** A ring of memory read as a queue: the bytes from a start slot onward, wrapping at
    the end of the memory. */
module RingQueue {
  import opened Words

  /** The ring slot `i` places after `start`. */
  function Slot(start: nat, i: nat, size: nat): nat {
    if start + i >= size then start + i - size else start + i
  }

  /** The memory shows `data` from slot `start` onward, wrapping at its end. */
  ghost predicate Holds<T>(mem: seq<T>, start: nat, data: seq<T>)
    decreases |data|
  {
    && start < |mem| && |data| <= |mem|
    && (data == [] || (mem[start] == data[0] && Holds(mem, Slot(start, 1, |mem|), data[1..])))
  }

  lemma {:induction false} HoldsAt<T>(mem: seq<T>, start: nat, data: seq<T>, i: nat)
    requires Holds(mem, start, data) && i < |data|
    ensures Slot(start, i, |mem|) < |mem|
    ensures mem[Slot(start, i, |mem|)] == data[i]
    decreases |data|
  {
    if i > 0 {
      HoldsAt(mem, Slot(start, 1, |mem|), data[1..], i - 1);
    }
  }

  lemma {:induction false} HoldsIf<T>(mem: seq<T>, start: nat, data: seq<T>)
    requires start < |mem| && |data| <= |mem|
    requires forall i :: 0 <= i < |data| ==> mem[Slot(start, i, |mem|)] == data[i]
    ensures Holds(mem, start, data)
    decreases |data|
  {
    if data != [] {
      assert mem[Slot(start, 0, |mem|)] == data[0];
      var next := Slot(start, 1, |mem|);
      forall i | 0 <= i < |data| - 1
        ensures mem[Slot(next, i, |mem|)] == data[1..][i]
      {
        assert mem[Slot(start, i + 1, |mem|)] == data[i + 1];
      }
      HoldsIf(mem, next, data[1..]);
    }
  }

  /** What is shown from `c` places further on is the data without its first `c` items. */
  lemma {:induction false} HoldsDrop<T>(mem: seq<T>, start: nat, data: seq<T>, c: nat)
    requires Holds(mem, start, data) && c <= |data| && c < |mem|
    ensures Slot(start, c, |mem|) < |mem|
    ensures Holds(mem, Slot(start, c, |mem|), data[c..])
    decreases c
  {
    if c == 0 {
      assert data[0..] == data;
    } else {
      HoldsDrop(mem, Slot(start, 1, |mem|), data[1..], c - 1);
      assert data[1..][c - 1..] == data[c..];
    }
  }

  /** Two stretches that meet make one. */
  lemma HoldsConcat<T>(mem: seq<T>, start: nat, data: seq<T>, more: seq<T>)
    requires Holds(mem, start, data)
    requires |data| + |more| <= |mem| && |data| < |mem|
    requires Holds(mem, Slot(start, |data|, |mem|), more)
    ensures Holds(mem, start, data + more)
  {
    var mid := Slot(start, |data|, |mem|);
    forall i | 0 <= i < |data| + |more|
      ensures mem[Slot(start, i, |mem|)] == (data + more)[i]
    {
      if i < |data| {
        HoldsAt(mem, start, data, i);
      } else {
        HoldsAt(mem, mid, more, i - |data|);
      }
    }
    HoldsIf(mem, start, data + more);
  }

  /** A write `k` places on, past the end of a stretch, leaves it alone. */
  lemma WritePast<T>(mem: seq<T>, start: nat, data: seq<T>, k: nat, x: T)
    requires Holds(mem, start, data)
    requires |data| <= k < |mem|
    ensures Slot(start, k, |mem|) < |mem|
    ensures Holds(mem[Slot(start, k, |mem|) := x], start, data)
  {
    var mem' := mem[Slot(start, k, |mem|) := x];
    forall i | 0 <= i < |data|
      ensures mem'[Slot(start, i, |mem'|)] == data[i]
    {
      HoldsAt(mem, start, data, i);
      assert Slot(start, i, |mem|) != Slot(start, k, |mem|);
    }
    HoldsIf(mem', start, data);
  }

  /** A write just past the end of a stretch extends it. */
  lemma WriteNext<T>(mem: seq<T>, start: nat, data: seq<T>, x: T)
    requires Holds(mem, start, data) && |data| < |mem|
    ensures Slot(start, |data|, |mem|) < |mem|
    ensures Holds(mem[Slot(start, |data|, |mem|) := x], start, data + [x])
  {
    WritePast(mem, start, data, |data|, x);
    var end := Slot(start, |data|, |mem|);
    var mem' := mem[end := x];
    assert Holds(mem', end, [x]);
    HoldsConcat(mem', start, data, [x]);
  }

  // ---- a ring that hands bytes on in order ----

  /** The memory between slots `rec` and `lim` is the queue of the bytes accepted but not
      yet sent; it is never a full lap. */
  ghost predicate Fifo<T>(mem: seq<T>, rec: nat, lim: nat, pending: seq<T>, sent: seq<T>, accepted: seq<T>) {
    && lim < |mem|
    && |pending| < |mem|
    && Holds(mem, rec, pending)
    && lim == Slot(rec, |pending|, |mem|)
    && accepted == sent + pending
  }

  /** Equal positions mean an empty queue, and that everything has been sent. */
  lemma FifoEmpty<T>(mem: seq<T>, rec: nat, lim: nat, pending: seq<T>, sent: seq<T>, accepted: seq<T>)
    requires Fifo(mem, rec, lim, pending, sent, accepted)
    ensures rec == lim <==> pending == []
    ensures rec == lim <==> sent == accepted
    ensures |accepted| == |sent| + |pending|
  {
  }

  /** Sending the byte under the record position keeps the order. */
  lemma FifoTake<T>(mem: seq<T>, rec: nat, lim: nat, pending: seq<T>, sent: seq<T>, accepted: seq<T>)
    requires Fifo(mem, rec, lim, pending, sent, accepted)
    requires rec != lim
    ensures pending != []
    ensures Fifo(mem, Slot(rec, 1, |mem|), lim, pending[1..], sent + [mem[rec]], accepted)
  {
    assert pending == [pending[0]] + pending[1..];
  }

  /** A write `ahead` places past the limit, short of a full lap, keeps the queue. */
  lemma FifoWriteFree<T>(mem: seq<T>, rec: nat, lim: nat, pending: seq<T>, sent: seq<T>, accepted: seq<T>,
                         ahead: nat, x: T)
    requires Fifo(mem, rec, lim, pending, sent, accepted)
    requires |pending| + ahead < |mem|
    ensures Slot(lim, ahead, |mem|) < |mem|
    ensures Fifo(mem[Slot(lim, ahead, |mem|) := x], rec, lim, pending, sent, accepted)
  {
    assert Slot(lim, ahead, |mem|) == Slot(rec, |pending| + ahead, |mem|);
    WritePast(mem, rec, pending, |pending| + ahead, x);
  }

  lemma Associates<T>(a: seq<T>, b: seq<T>, c: seq<T>)
    ensures a + (b + c) == (a + b) + c
  {
  }

  /** Moving the limit over bytes already written queues them. */
  lemma FifoAppend<T>(mem: seq<T>, rec: nat, lim: nat, pending: seq<T>, sent: seq<T>, accepted: seq<T>,
                      data: seq<T>)
    requires Fifo(mem, rec, lim, pending, sent, accepted)
    requires Holds(mem, lim, data) && |pending| + |data| < |mem|
    ensures Fifo(mem, rec, Slot(lim, |data|, |mem|), pending + data, sent, accepted + data)
  {
    HoldsConcat(mem, rec, pending, data);
    Associates(sent, pending, data);
    assert Slot(rec, |pending| + |data|, |mem|) == Slot(lim, |data|, |mem|);
  }

  // ---- offsets and whole laps ----

  /** Adding bytes to a total moves their end in the ring as an offset is moved that wraps at
      the end of the buffer. */
  lemma OffsetMoves(total: nat, bytes: nat, size: nat)
    requires 0 < size && bytes <= size
    ensures (total + bytes) % size ==
              if total % size + bytes >= size then total % size + bytes - size else total % size + bytes
  {
    var q, r := total / size, total % size;
    DivShrinks(total, size);
    if r + bytes >= size {
      DivModUnique(total + bytes, size, q + 1, r + bytes - size);
    } else {
      DivModUnique(total + bytes, size, q, r + bytes);
    }
  }

  /** Where `total` bytes end in a ring, as an offset that wraps at the end of the buffer. */
  function Place(total: nat, size: nat): (r: nat)
    requires 0 < size
    ensures r < size && (total < size ==> r == total)
    decreases total
  {
    if total < size then total else Place(total - size, size)
  }

  lemma {:induction false} PlaceIsMod(total: nat, size: nat)
    requires 0 < size
    ensures Place(total, size) == total % size
    decreases total
  {
    if total < size {
      DivModUnique(total, size, 0, total);
    } else {
      PlaceIsMod(total - size, size);
      OffsetMoves(total - size, size, size);
    }
  }

  lemma {:induction false} PlaceMoves(total: nat, bytes: nat, size: nat)
    requires 0 < size && bytes <= size
    ensures Place(total + bytes, size) ==
              if Place(total, size) + bytes >= size then Place(total, size) + bytes - size else Place(total, size) + bytes
    decreases total
  {
    if total >= size {
      PlaceMoves(total - size, bytes, size);
    }
  }

  /** The same for an offset that wraps only past the end: once anything is written it lies
      in `[1, size]`. */
  function EndOffset(total: nat, size: nat): (r: nat)
    requires 0 < size
    ensures r <= size && (r == 0 <==> total == 0)
    decreases total
  {
    if total <= size then total else EndOffset(total - size, size)
  }

  lemma {:induction false} EndOffsetMoves(total: nat, bytes: nat, size: nat)
    requires 0 < size && bytes <= size
    ensures EndOffset(total + bytes, size) ==
              if EndOffset(total, size) + bytes > size then EndOffset(total, size) + bytes - size
              else EndOffset(total, size) + bytes
    decreases total
  {
    if total > size {
      EndOffsetMoves(total - size, bytes, size);
    }
  }

  /** It is at the very end exactly after whole laps. */
  lemma {:induction false} EndIsWholeLaps(total: nat, size: nat)
    requires 0 < size
    ensures EndOffset(total, size) == size <==> total > 0 && total % size == 0
    decreases total
  {
    if total < size {
      DivModUnique(total, size, 0, total);
    } else if total == size {
      DivModUnique(total, size, 1, 0);
    } else {
      EndIsWholeLaps(total - size, size);
      OffsetMoves(total - size, size, size);
    }
  }

  // ---- the queue of a whole run ----

  function Concat<T>(parts: seq<seq<T>>): seq<T> {
    if parts == [] then [] else parts[0] + Concat(parts[1..])
  }

  lemma {:induction false} ConcatSnoc<T>(parts: seq<seq<T>>, last: seq<T>)
    ensures Concat(parts + [last]) == Concat(parts) + last
  {
    if parts == [] {
      assert parts + [last] == [last];
      assert [last][1..] == [];
      assert Concat([last]) == last + Concat<T>([]);
    } else {
      assert (parts + [last])[1..] == parts[1..] + [last];
      ConcatSnoc(parts[1..], last);
      assert parts[0] + (Concat(parts[1..]) + last) == (parts[0] + Concat(parts[1..])) + last;
    }
  }

  /** The first `k + 1` parts are the first `k` and one more. */
  lemma ConcatStep<T>(parts: seq<seq<T>>, k: nat)
    requires k < |parts|
    ensures Concat(parts[..k + 1]) == Concat(parts[..k]) + parts[k]
  {
    ConcatSnoc(parts[..k], parts[k]);
    assert parts[..k] + [parts[k]] == parts[..k + 1];
  }

  /** Appending the parts one by one appends their concatenation. */
  lemma ConcatOneMore<T>(before: seq<T>, parts: seq<seq<T>>, k: nat)
    requires k < |parts|
    ensures (before + Concat(parts[..k])) + parts[k] == before + Concat(parts[..k + 1])
  {
    ConcatStep(parts, k);
    Associates(before, Concat(parts[..k]), parts[k]);
  }
}
