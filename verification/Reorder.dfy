/** How `run_rx` and `find_nextpacketinlist` put the records of a file back in order with
    ten holding slots. */
module Reorder {
  import opened Segments

  const SLOTS: nat := 10

  /** A holding slot; sequence number zero means free. */
  datatype Node = Node(seqnum: nat, pos: seq<Byte>)

  // ---- what the arrivals alone determine ----

  /** Only numbers of the file's records have arrived; all of them have. */
  ghost predicate OfFile(arrived: set<nat>, file: seq<Byte>) {
    forall k :: k in arrived ==> 1 <= k <= TxCount(|file|)
  }

  ghost predicate Complete(arrived: set<nat>, file: seq<Byte>) {
    forall k :: 1 <= k <= TxCount(|file|) ==> k in arrived
  }

  /** The receiver waits for the least number that has not arrived. */
  ghost predicate Awaits(arrived: set<nat>, e: nat) {
    e >= 1 && e !in arrived && forall k :: 1 <= k < e ==> k in arrived
  }

  /** The arrived numbers that cannot be delivered yet. */
  ghost function Held(arrived: set<nat>, e: nat): set<nat> {
    set k | k in arrived && k > e
  }

  /** There is a place for record `k`: it is the awaited one, or a slot is free. */
  ghost predicate Fits(arrived: set<nat>, k: nat) {
    forall e :: Awaits(arrived, e) ==> k == e || |Held(arrived, e)| < SLOTS
  }

  lemma AwaitsOne(arrived: set<nat>, e: nat, e': nat)
    requires Awaits(arrived, e) && Awaits(arrived, e')
    ensures e == e'
  {
    assert e < e' ==> e in arrived;
    assert e' < e ==> e' in arrived;
  }

  function Arrived(order: seq<nat>, i: nat): set<nat>
    requires i <= |order|
  {
    set j | 0 <= j < i :: order[j]
  }

  /** No arrival finds ten records held and another awaited. */
  ghost predicate AllFit(order: seq<nat>) {
    forall i :: 0 <= i < |order| ==> Fits(Arrived(order, i), order[i])
  }

  /** Each record of the file comes at most once. */
  ghost predicate Arrivals(order: seq<nat>, file: seq<Byte>) {
    && (forall i :: 0 <= i < |order| ==> 1 <= order[i] <= TxCount(|file|))
    && forall i, j :: 0 <= i < j < |order| ==> order[i] != order[j]
  }

  // ---- the slots ----

  /** The numbers in the slots. */
  ghost function Numbered(slots: seq<Node>): set<nat> {
    set i | 0 <= i < |slots| && slots[i].seqnum != 0 :: slots[i].seqnum
  }

  ghost predicate AllDifferent(slots: seq<Node>) {
    forall i, j :: 0 <= i < j < |slots| && slots[i].seqnum != 0 ==> slots[i].seqnum != slots[j].seqnum
  }

  /** Slots with different numbers hold as many as are taken. */
  lemma {:induction false} NumberedCount(slots: seq<Node>)
    requires AllDifferent(slots)
    ensures |Numbered(slots)| <= |slots|
    ensures |Numbered(slots)| == |slots| <==> forall i :: 0 <= i < |slots| ==> slots[i].seqnum != 0
  {
    if slots == [] {
      assert Numbered(slots) == {};
    } else {
      var last, rest := slots[|slots| - 1], slots[..|slots| - 1];
      NumberedCount(rest);
      if last.seqnum == 0 {
        assert Numbered(slots) == Numbered(rest);
      } else {
        assert Numbered(slots) == Numbered(rest) + {last.seqnum};
        assert last.seqnum !in Numbered(rest);
      }
      assert forall i :: 0 <= i < |rest| ==> slots[i] == rest[i];
    }
  }

  /** The slots hold the records of exactly the arrived numbers from `e` on, each once. */
  ghost predicate SlotsHold(slots: seq<Node>, file: seq<Byte>, arrived: set<nat>, e: nat) {
    && AllDifferent(slots)
    && Numbered(slots) == (set k | k in arrived && k >= e)
    && forall i :: 0 <= i < |slots| && slots[i].seqnum != 0 ==> IsRecord(slots[i].pos, file, slots[i].seqnum)
  }

  lemma InSlots(slots: seq<Node>, k: nat)
    ensures k in Numbered(slots) <==> exists i :: 0 <= i < |slots| && slots[i].seqnum == k != 0
  {
  }

  /** A taken slot holds the record of an arrived number; an arrived number has a slot. */
  lemma SlotMeaning(slots: seq<Node>, file: seq<Byte>, arrived: set<nat>, e: nat, k: nat)
    requires SlotsHold(slots, file, arrived, e) && k >= e && k > 0
    ensures k in arrived <==> exists i :: 0 <= i < |slots| && slots[i].seqnum == k
    ensures forall i :: 0 <= i < |slots| && slots[i].seqnum == k ==> IsRecord(slots[i].pos, file, k)
  {
    InSlots(slots, k);
  }

  /** The awaited record came in directly. */
  lemma SlotsPass(slots: seq<Node>, file: seq<Byte>, arrived: set<nat>, e: nat)
    requires SlotsHold(slots, file, arrived, e) && e !in arrived
    ensures SlotsHold(slots, file, arrived + {e}, e + 1)
  {
  }

  /** The awaited record was found in a slot. */
  lemma SlotsRelease(slots: seq<Node>, file: seq<Byte>, arrived: set<nat>, e: nat, i: nat)
    requires SlotsHold(slots, file, arrived, e) && i < |slots| && slots[i].seqnum == e != 0
    ensures SlotsHold(slots[i := slots[i].(seqnum := 0)], file, arrived, e + 1)
  {
    var after := slots[i := slots[i].(seqnum := 0)];
    forall k
      ensures k in Numbered(after) <==> k in Numbered(slots) && k != e
    {
      InSlots(after, k);
      InSlots(slots, k);
      if j :| 0 <= j < |slots| && slots[j].seqnum == k != 0 && k != e {
        assert after[j].seqnum == k;
      }
    }
  }

  /** A record from further on goes into a free slot. */
  lemma SlotsStore(slots: seq<Node>, file: seq<Byte>, arrived: set<nat>, e: nat, i: nat, k: nat, r: seq<Byte>)
    requires SlotsHold(slots, file, arrived, e) && i < |slots| && slots[i].seqnum == 0
    requires k >= e && k !in arrived && IsRecord(r, file, k)
    ensures SlotsHold(slots[i := Node(k, r)], file, arrived + {k}, e)
  {
    var after := slots[i := Node(k, r)];
    InSlots(slots, k);
    forall x
      ensures x in Numbered(after) <==> x in Numbered(slots) || x == k
    {
      InSlots(after, x);
      InSlots(slots, x);
      if j :| 0 <= j < |slots| && slots[j].seqnum == x != 0 {
        assert after[j].seqnum == x;
      }
      assert after[i].seqnum == k;
    }
  }

  /** Beyond the last number nothing can be held. */
  lemma SlotsEmpty(slots: seq<Node>, file: seq<Byte>, arrived: set<nat>, e: nat)
    requires SlotsHold(slots, file, arrived, e) && OfFile(arrived, file) && e > TxCount(|file|)
    ensures forall i :: 0 <= i < |slots| ==> slots[i].seqnum == 0
  {
    forall i | 0 <= i < |slots|
      ensures slots[i].seqnum == 0
    {
      if slots[i].seqnum != 0 {
        InSlots(slots, slots[i].seqnum);
        assert false;
      }
    }
  }

  /** The next arrival is new, so the file was not complete before it; a file of one
      record has no second arrival. */
  lemma ArrivedStep(order: seq<nat>, i: nat, file: seq<Byte>)
    requires Arrivals(order, file) && i < |order|
    ensures Arrived(order, i + 1) == Arrived(order, i) + {order[i]}
    ensures order[i] !in Arrived(order, i)
    ensures !Complete(Arrived(order, i), file)
    ensures TxCount(|file|) == 1 ==> i == 0
  {
    assert order[i] !in Arrived(order, i);
    assert i > 0 ==> order[0] != order[i];
  }

  class Receiver {
    const slots: array<Node>
    var verifySeq: nat
    /** What has been written to the open file, and the files closed so far. */
    var current: seq<Byte>
    var finished: seq<seq<Byte>>

    ghost predicate NoneHeld()
      reads slots
    {
      slots.Length == SLOTS && forall i :: 0 <= i < SLOTS ==> slots[i].seqnum == 0
    }

    /** Between files. */
    ghost predicate Idle()
      reads this, slots
    {
      NoneHeld() && verifySeq == 1
    }

    constructor ()
      ensures Idle() && finished == [] && fresh(slots)
    {
      slots := new Node[SLOTS](_ => Node(0, []));
      verifySeq, current, finished := 1, [], [];
    }

    ghost predicate Written(file: seq<Byte>)
      reads this`verifySeq, this`current
    {
      && 1 <= verifySeq <= TxCount(|file|)
      && (verifySeq > 1 ==> current == Upto(file, verifySeq - 1))
    }

    /** Everything below the awaited number has been written, and the arrived records from
        it on are in the slots. */
    ghost predicate Holding(file: seq<Byte>, arrived: set<nat>)
      reads this, slots
    {
      && slots.Length == SLOTS
      && Written(file)
      && OfFile(arrived, file)
      && (forall k :: 1 <= k < verifySeq ==> k in arrived)
      && SlotsHold(slots[..], file, arrived, verifySeq)
    }

    /** In the middle of a file, waiting for a record that has not arrived: the slots hold
        exactly the arrived, undelivered numbers. */
    ghost predicate InProgress(file: seq<Byte>, arrived: set<nat>)
      reads this, slots
    {
      Holding(file, arrived) && verifySeq !in arrived
    }

    lemma StartsFile(file: seq<Byte>)
      requires Idle()
      ensures InProgress(file, {})
    {
      assert Numbered(slots[..]) == {};
    }

    /** The write of an in-order record: the first one opens the file, a short one closes
        it, any other is appended. A file of one record is opened and never closed. */
    method Write(r: seq<Byte>, ghost file: seq<Byte>)
      requires Written(file) && IsRecord(r, file, verifySeq)
      modifies this`verifySeq, this`current, this`finished
      ensures old(verifySeq) == TxCount(|file|) > 1 ==>
                verifySeq == 1 && finished == old(finished) + [file]
      ensures !(old(verifySeq) == TxCount(|file|) > 1) ==>
                verifySeq == old(verifySeq) + 1 && finished == old(finished)
      ensures old(verifySeq) < TxCount(|file|) ==> Written(file)
    {
      LastIsShort(file, verifySeq);
      UptoStep(file, verifySeq);
      if verifySeq == 1 {
        current := r[48..48 + (WLen(r) - 32)];
        verifySeq := verifySeq + 1;
      } else if WLen(r) != RLen(r) - 16 {
        current := current + r[48..48 + (WLen(r) - 32)];
        finished := finished + [current];
        verifySeq := 1;
      } else {
        current := current + r[48..48 + (WLen(r) - 32)];
        verifySeq := verifySeq + 1;
      }
    }

    /** The same write from a slot. The first record is taken to be full. */
    method WriteHeld(i: nat, ghost file: seq<Byte>)
      requires slots.Length == SLOTS && i < SLOTS && TxCount(|file|) >= 2
      requires Written(file) && IsRecord(slots[i].pos, file, verifySeq)
      modifies this`verifySeq, this`current, this`finished, slots
      ensures slots[..] == old(slots[..])[i := old(slots[i]).(seqnum := 0)]
      ensures old(verifySeq) == TxCount(|file|) ==>
                verifySeq == 1 && finished == old(finished) + [file]
      ensures old(verifySeq) < TxCount(|file|) ==>
                verifySeq == old(verifySeq) + 1 && finished == old(finished) && Written(file)
    {
      var r := slots[i].pos;
      LastIsShort(file, verifySeq);
      UptoStep(file, verifySeq);
      if verifySeq == 1 {
        current := r[48..1600];
        slots[i] := slots[i].(seqnum := 0);
        verifySeq := verifySeq + 1;
      } else if WLen(r) != RLen(r) - 16 {
        current := current + r[48..48 + (WLen(r) - 32)];
        slots[i] := slots[i].(seqnum := 0);
        finished := finished + [current];
        verifySeq := 1;
      } else {
        current := current + r[48..48 + (WLen(r) - 32)];
        slots[i] := slots[i].(seqnum := 0);
        verifySeq := verifySeq + 1;
      }
    }

    /** The first slot with the given number, or ten. */
    method FindSlot(seqnum: nat) returns (loop: nat)
      requires slots.Length == SLOTS
      ensures loop <= SLOTS
      ensures loop < SLOTS ==> slots[loop].seqnum == seqnum
      ensures forall i :: 0 <= i < loop ==> slots[i].seqnum != seqnum
    {
      loop := 0;
      while loop < SLOTS
        invariant loop <= SLOTS
        invariant forall i :: 0 <= i < loop ==> slots[i].seqnum != seqnum
      {
        if slots[loop].seqnum == seqnum {
          break;
        }
        loop := loop + 1;
      }
    }

    /** The records of a file that can be told apart are being put together, or there is
        nothing in the slots to look for. */
    ghost predicate Searchable(file: seq<Byte>, arrived: set<nat>)
      reads this, slots
    {
      verifySeq > 0 && (NoneHeld() || (TxCount(|file|) >= 2 && Holding(file, arrived)))
    }

    /** One turn of `find_nextpacketinlist`: deliver the awaited record if a slot has it. */
    method DeliverHeld(ghost file: seq<Byte>, ghost arrived: set<nat>) returns (found: bool)
      requires Searchable(file, arrived)
      modifies this`verifySeq, this`current, this`finished, slots
      ensures !found ==> unchanged(this) && slots[..] == old(slots[..])
      ensures !found && old(Holding(file, arrived)) ==> InProgress(file, arrived)
      ensures found ==> !old(NoneHeld())
      ensures found && old(verifySeq) < TxCount(|file|) ==>
                Holding(file, arrived) && verifySeq == old(verifySeq) + 1 && finished == old(finished)
      ensures found && old(verifySeq) >= TxCount(|file|) ==>
                Idle() && finished == old(finished) + [file] && Complete(arrived, file)
    {
      hide SlotsHold, IsRecord;
      var loop := FindSlot(verifySeq);
      if Holding(file, arrived) {
        SlotMeaning(slots[..], file, arrived, verifySeq, verifySeq);
      }
      if loop == SLOTS {
        return false;
      }
      assert slots[..][loop] == slots[loop];
      SlotsRelease(slots[..], file, arrived, verifySeq, loop);
      ghost var e := verifySeq;
      WriteHeld(loop, file);
      if e == TxCount(|file|) {
        SlotsEmpty(slots[..], file, arrived, e + 1);
        assert forall i :: 0 <= i < SLOTS ==> slots[i] == slots[..][i];
      }
      found := true;
    }

    /** `find_nextpacketinlist`: deliver from the slots as long as the awaited record is
        there. Each turn frees a slot and raises the awaited number, so the loop ends: in
        the middle of the file, or between files when the last record has been delivered. */
    method FindNextInList(ghost file: seq<Byte>, ghost arrived: set<nat>)
      requires Searchable(file, arrived)
      modifies this`verifySeq, this`current, this`finished, slots
      ensures old(NoneHeld()) ==> unchanged(this) && NoneHeld()
      ensures old(Holding(file, arrived)) && TxCount(|file|) >= 2 ==>
                || (InProgress(file, arrived) && finished == old(finished))
                || (Idle() && finished == old(finished) + [file] && Complete(arrived, file))
    {
      var found := true;
      ghost var closed := false;
      while found
        invariant Searchable(file, arrived)
        invariant old(NoneHeld()) ==> NoneHeld() && !closed && unchanged(this)
        invariant closed ==> Idle() && finished == old(finished) + [file] && Complete(arrived, file)
        invariant !closed ==> finished == old(finished)
        invariant !closed && old(Holding(file, arrived)) && TxCount(|file|) >= 2 ==> Holding(file, arrived)
        invariant !closed && old(Holding(file, arrived)) && TxCount(|file|) >= 2 && !found ==> InProgress(file, arrived)
        decreases found, !closed, TxCount(|file|) + 1 - verifySeq
      {
        ghost var e := verifySeq;
        found := DeliverHeld(file, arrived);
        closed := closed || (found && e >= TxCount(|file|));
      }
    }

    /** A slot is free exactly when fewer than ten numbers are held. */
    lemma FreeSlot(file: seq<Byte>, arrived: set<nat>)
      requires InProgress(file, arrived)
      ensures Awaits(arrived, verifySeq)
      ensures |Held(arrived, verifySeq)| <= SLOTS
      ensures |Held(arrived, verifySeq)| < SLOTS <==> exists i :: 0 <= i < SLOTS && slots[i].seqnum == 0
    {
      NumberedCount(slots[..]);
      assert Held(arrived, verifySeq) == Numbered(slots[..]);
      assert forall i :: 0 <= i < SLOTS ==> slots[..][i] == slots[i];
    }

    /** The branch for the awaited record. */
    method InOrder(r: seq<Byte>, ghost file: seq<Byte>, ghost arrived: set<nat>)
      requires InProgress(file, arrived) && IsRecord(r, file, verifySeq)
      modifies this`verifySeq, this`current, this`finished, slots
      ensures
        var now := arrived + {old(verifySeq)};
        && (TxCount(|file|) >= 2 && !Complete(now, file) ==> InProgress(file, now) && finished == old(finished))
        && (TxCount(|file|) >= 2 && Complete(now, file) ==> Idle() && finished == old(finished) + [file])
        && (TxCount(|file|) == 1 ==> NoneHeld() && verifySeq == 2 && finished == old(finished))
    {
      hide SlotsHold, IsRecord;
      ghost var e, now := verifySeq, arrived + {verifySeq};
      SlotsPass(slots[..], file, arrived, e);
      Write(r, file);
      if e == TxCount(|file|) {
        SlotsEmpty(slots[..], file, now, e + 1);
        assert forall i :: 0 <= i < SLOTS ==> slots[i] == slots[..][i];
      }
      FindNextInList(file, now);
    }

    /** The branch for any other record: it goes into the first free slot. */
    method Stash(r: seq<Byte>) returns (ok: bool, ghost loop: nat)
      requires slots.Length == SLOTS && |r| >= 16
      modifies slots
      ensures ok ==> loop < SLOTS && old(slots[..])[loop].seqnum == 0
                     && (forall i :: 0 <= i < loop ==> old(slots[..])[i].seqnum != 0)
                     && slots[..] == old(slots[..])[loop := Node(SeqNum(r), r)]
      ensures !ok ==> slots[..] == old(slots[..]) && forall i :: 0 <= i < SLOTS ==> slots[i].seqnum != 0
    {
      var free := FindSlot(0);
      loop := free;
      if free == SLOTS {
        return false, loop;
      }
      slots[free] := Node(SeqNum(r), r);
      ok := true;
    }

    /** A record out of order is kept; with no slot left the receiver gives up. */
    method Keep(r: seq<Byte>, k: nat, ghost file: seq<Byte>, ghost arrived: set<nat>) returns (ok: bool)
      requires InProgress(file, arrived) && k !in arrived && k != verifySeq
      requires IsRecord(r, file, k)
      modifies slots
      ensures ok <==> |Held(arrived, verifySeq)| < SLOTS
      ensures ok ==> InProgress(file, arrived + {k})
      ensures !ok ==> slots[..] == old(slots[..])
    {
      FreeSlot(file, arrived);
      ghost var was, loop := slots[..], 0;
      ok, loop := Stash(r);
      if ok {
        SlotsStore(was, file, arrived, verifySeq, loop, k, r);
      }
      hide SlotsHold;
    }

    lemma FitsIff(arrived: set<nat>, e: nat, k: nat)
      requires Awaits(arrived, e)
      ensures Fits(arrived, k) <==> k == e || |Held(arrived, e)| < SLOTS
    {
      forall e' | Awaits(arrived, e')
        ensures e' == e
      {
        AwaitsOne(arrived, e, e');
      }
    }

    /** One record of the receive loop: write it if it is the awaited one and look for its
        successors, or keep it. */
    method HandleRecord(r: seq<Byte>, ghost file: seq<Byte>, ghost arrived: set<nat>, ghost k: nat)
      returns (ok: bool)
      requires InProgress(file, arrived) && k !in arrived && IsRecord(r, file, k)
      modifies this`verifySeq, this`current, this`finished, slots
      ensures ok <==> Fits(arrived, k)
      ensures ok && TxCount(|file|) >= 2 && !Complete(arrived + {k}, file) ==>
                InProgress(file, arrived + {k}) && finished == old(finished)
      ensures ok && TxCount(|file|) >= 2 && Complete(arrived + {k}, file) ==>
                Idle() && finished == old(finished) + [file]
      ensures TxCount(|file|) == 1 ==> NoneHeld() && verifySeq == 2 && finished == old(finished)
      ensures !ok ==> finished == old(finished)
    {
      FreeSlot(file, arrived);
      FitsIff(arrived, verifySeq, k);
      var seqnum := SeqNum(r);
      if seqnum == verifySeq {
        InOrder(r, file, arrived);
        ok := true;
      } else {
        ok := Keep(r, seqnum, file, arrived);
      }
    }

    /** The receive loop over the records of one file in their order of arrival. The
        receiver gives up exactly when a record has no place; with everything arrived, a
        file of two or more records has been put together and the receiver is ready for
        the next one. */
    method ReceiveFile(records: seq<seq<Byte>>, ghost file: seq<Byte>, ghost order: seq<nat>) returns (ok: bool)
      requires Idle() && Arrivals(order, file) && |records| == |order|
      requires forall i :: 0 <= i < |order| ==> IsRecord(records[i], file, order[i])
      modifies this`verifySeq, this`current, this`finished, slots
      ensures ok <==> AllFit(order)
      ensures ok && Complete(Arrived(order, |order|), file) && TxCount(|file|) >= 2 ==>
                Idle() && finished == old(finished) + [file]
      ensures !(ok && Complete(Arrived(order, |order|), file) && TxCount(|file|) >= 2) ==>
                finished == old(finished)
    {
      hide SlotsHold, IsRecord;
      StartsFile(file);
      assert Arrived(order, 0) == {};
      var i := 0;
      ok := true;
      while i < |records|
        invariant 0 <= i <= |records|
        invariant forall j :: 0 <= j < i ==> Fits(Arrived(order, j), order[j])
        invariant TxCount(|file|) >= 2 && !Complete(Arrived(order, i), file) ==>
                    InProgress(file, Arrived(order, i)) && finished == old(finished)
        invariant TxCount(|file|) >= 2 && Complete(Arrived(order, i), file) ==>
                    Idle() && finished == old(finished) + [file]
        invariant TxCount(|file|) == 1 ==> finished == old(finished)
        invariant TxCount(|file|) == 1 && i == 0 ==> InProgress(file, Arrived(order, 0))
      {
        ArrivedStep(order, i, file);
        ok := HandleRecord(records[i], file, Arrived(order, i), order[i]);
        if !ok {
          return;
        }
        i := i + 1;
      }
    }
  }

  // ---- a duplicate ----

  /** Empty slots hold the records of a file of which nothing has arrived. */
  lemma NothingHeld(slots: seq<Node>, file: seq<Byte>)
    requires forall i :: 0 <= i < |slots| ==> slots[i].seqnum == 0
    ensures SlotsHold(slots, file, {}, 1)
  {
    assert Numbered(slots) == {};
  }

  /** The arrivals when nothing but the first record has come. */
  ghost function OnlyFirst(): set<nat> {
    {1}
  }

  /** Slots that hold nothing but delivered records are empty. */
  lemma AllDelivered(slots: seq<Node>, file: seq<Byte>)
    requires SlotsHold(slots, file, OnlyFirst(), 2)
    ensures forall i :: 0 <= i < |slots| ==> slots[i].seqnum == 0
  {
    forall i | 0 <= i < |slots|
      ensures slots[i].seqnum == 0
    {
      InSlots(slots, slots[i].seqnum);
    }
  }

  /** The first part of one file with the last part of another. */
  function Mixed(f: seq<Byte>, g: seq<Byte>): seq<Byte>
    requires TxCount(|f|) == TxCount(|g|) == 2
  {
    Chunk(f, 1) + Chunk(g, 2)
  }

  /** The last record of the other file passes for the last one of the mixture. */
  lemma MixedRecord(f: seq<Byte>, g: seq<Byte>, r: seq<Byte>)
    requires TxCount(|f|) == TxCount(|g|) == 2 && IsRecord(r, g, 2)
    ensures TxCount(|Mixed(f, g)|) == 2 && IsRecord(r, Mixed(f, g), 2)
    ensures Upto(Mixed(f, g), 1) == Chunk(f, 1) == Upto(f, 1)
  {
    var h := Mixed(f, g);
    assert |h| == |g|;
    assert Chunk(h, 2) == Chunk(g, 2);
  }

  lemma OneOfTwo(file: seq<Byte>)
    requires TxCount(|file|) == 2
    ensures OnlyFirst() == {} + {1} && 1 in OnlyFirst()
    ensures OfFile(OnlyFirst(), file) && !Complete(OnlyFirst(), file)
  {
    assert 2 !in OnlyFirst();
  }

  /** A first record that comes out of order, with nothing in the slots. */
  method StashFirst(rx: Receiver, file: seq<Byte>, r: seq<Byte>)
    requires rx.NoneHeld() && IsRecord(r, file, 1)
    modifies rx.slots
    ensures rx.slots.Length == SLOTS && SlotsHold(rx.slots[..], file, OnlyFirst(), 1)
  {
    ghost var was, loop := rx.slots[..], 0;
    NothingHeld(was, file);
    var ok;
    ok, loop := rx.Stash(r);
    assert was[0].seqnum == 0;
    if ok {
      hide SlotsHold, IsRecord;
      SlotsStore(was, file, {}, 1, loop, 1, r);
    }
  }

  /** Closing a file while its first record, or the next file's, waits in a slot opens another
      one with that record. */
  method CloseAndReopen(rx: Receiver, closing: seq<Byte>, last: seq<Byte>, next: seq<Byte>)
    requires rx.verifySeq == 2 == TxCount(|closing|) && TxCount(|next|) == 2
    requires rx.current == Upto(closing, 1) && IsRecord(last, closing, 2)
    requires rx.slots.Length == SLOTS && SlotsHold(rx.slots[..], next, OnlyFirst(), 1)
    modifies rx, rx.slots
    ensures rx.InProgress(next, OnlyFirst()) && rx.verifySeq == 2
    ensures rx.finished == old(rx.finished) + [closing]
  {
    hide SlotsHold, IsRecord;
    OneOfTwo(next);
    rx.Write(last, closing);
    rx.FindNextInList(next, OnlyFirst());
  }

  /** The first record of a file, in order. */
  method FirstComes(rx: Receiver, f: seq<Byte>, f1: seq<Byte>)
    requires rx.Idle() && TxCount(|f|) == 2 && IsRecord(f1, f, 1)
    modifies rx, rx.slots
    ensures rx.InProgress(f, OnlyFirst()) && rx.finished == old(rx.finished)
  {
    hide SlotsHold, IsRecord;
    rx.StartsFile(f);
    OneOfTwo(f);
    rx.InOrder(f1, f, {});
  }

  /** After that nothing is held and the second one is awaited. */
  lemma SecondAwaited(rx: Receiver, f: seq<Byte>)
    requires TxCount(|f|) == 2 && rx.InProgress(f, OnlyFirst())
    ensures rx.NoneHeld() && rx.verifySeq == 2 && rx.current == Upto(f, 1)
  {
    hide SlotsHold, IsRecord;
    OneOfTwo(f);
    assert rx.verifySeq == 2;
    AllDelivered(rx.slots[..], f);
    assert forall i :: 0 <= i < SLOTS ==> rx.slots[i] == rx.slots[..][i];
  }

  /** The first record twice and then the second: the copy waits in a slot until the file is
      closed, and then opens another one. */
  method CopiedFirst(rx: Receiver, f: seq<Byte>, f1: seq<Byte>, f2: seq<Byte>)
    requires rx.Idle() && TxCount(|f|) == 2 && IsRecord(f1, f, 1) && IsRecord(f2, f, 2)
    modifies rx, rx.slots
    ensures rx.InProgress(f, OnlyFirst()) && rx.finished == old(rx.finished) + [f]
  {
    FirstComes(rx, f, f1);
    SecondAwaited(rx, f);
    hide SlotsHold, IsRecord;
    StashFirst(rx, f, f1);
    CloseAndReopen(rx, f, f2, f);
  }

  /** The two records of the next file: its last one closes the stale one, and its first one,
      left in a slot, opens another. */
  method ShiftedNext(rx: Receiver, f: seq<Byte>, g: seq<Byte>, g1: seq<Byte>, g2: seq<Byte>)
    requires TxCount(|f|) == TxCount(|g|) == 2 && rx.InProgress(f, OnlyFirst())
    requires IsRecord(g1, g, 1) && IsRecord(g2, g, 2)
    modifies rx, rx.slots
    ensures rx.InProgress(g, OnlyFirst()) && rx.finished == old(rx.finished) + [Mixed(f, g)]
  {
    SecondAwaited(rx, f);
    MixedRecord(f, g, g2);
    hide SlotsHold, IsRecord, Mixed;
    StashFirst(rx, g, g1);
    CloseAndReopen(rx, Mixed(f, g), g2, g);
  }

  /** Where each record of two-record files is the right one. */
  ghost predicate Pairs(files: seq<seq<Byte>>, firsts: seq<seq<Byte>>, seconds: seq<seq<Byte>>) {
    && |firsts| == |seconds| == |files|
    && forall i :: 0 <= i < |files| ==>
         TxCount(|files[i]|) == 2 && IsRecord(firsts[i], files[i], 1) && IsRecord(seconds[i], files[i], 2)
  }

  /** What a second copy of a delivered record does: files of two records each arrive in order,
      but the very first record arrives twice. The first file comes out right. Every later one
      comes out with the first part of the file before it, for good. */
  method Duplicated(files: seq<seq<Byte>>, firsts: seq<seq<Byte>>, seconds: seq<seq<Byte>>)
    returns (finished: seq<seq<Byte>>)
    requires files != [] && Pairs(files, firsts, seconds)
    ensures |finished| == |files| && finished[0] == files[0]
    ensures forall i :: 1 <= i < |files| ==> finished[i] == Mixed(files[i - 1], files[i])
  {
    hide IsRecord;
    var rx := new Receiver();
    CopiedFirst(rx, files[0], firsts[0], seconds[0]);
    var n := 1;
    while n < |files|
      invariant 1 <= n <= |files| && fresh(rx) && fresh(rx.slots)
      invariant rx.InProgress(files[n - 1], OnlyFirst()) && |rx.finished| == n && rx.finished[0] == files[0]
      invariant forall i :: 1 <= i < n ==> rx.finished[i] == Mixed(files[i - 1], files[i])
    {
      ShiftedNext(rx, files[n - 1], files[n], firsts[n], seconds[n]);
      n := n + 1;
    }
    finished := rx.finished;
  }

  /** The network handing over the records of a packet buffer in some order. */
  method Deliver(buffer: array<Byte>, ghost file: seq<Byte>, order: seq<nat>) returns (records: seq<seq<Byte>>)
    requires HasRecords(buffer[..], file, TxCount(|file|)) && Arrivals(order, file)
    ensures |records| == |order|
    ensures forall i :: 0 <= i < |order| ==> IsRecord(records[i], file, order[i])
  {
    records := [];
    while |records| < |order|
      invariant |records| <= |order|
      invariant forall i :: 0 <= i < |records| ==> IsRecord(records[i], file, order[i])
    {
      var k := order[|records|];
      assert buffer[1600 * (k - 1)..1600 * k] == buffer[..][1600 * (k - 1)..1600 * k];
      records := records + [buffer[1600 * (k - 1)..1600 * k]];
    }
  }

  /** Segmentation, any duplicate-free delivery, reassembly, file after file into one
      receiver. Unless a record finds no place, every file of at least one whole chip whose
      records have all arrived comes out byte for byte; a shorter one never comes out,
      because its only record counts as the first and not as the last. */
  method Transfer(files: seq<seq<Byte>>, orders: seq<seq<nat>>, name: seq<Byte>, md5: seq<Byte>)
    returns (done: nat, received: seq<seq<Byte>>)
    requires |orders| == |files| && |name| == 16 && |md5| == 16
    requires forall i :: 0 <= i < |files| ==>
               && 1600 * TxCount(|files[i]|) < 0x1_0000_0000
               && Arrivals(orders[i], files[i])
               && Complete(Arrived(orders[i], |orders[i]|), files[i])
    ensures done <= |files| && received == files[..done]
    ensures done < |files| ==> |files[done]| < CHIP || !AllFit(orders[done])
    ensures forall i :: 0 <= i < done ==> |files[i]| >= CHIP && AllFit(orders[i])
  {
    hide IsRecord;
    var receiver := new Receiver();
    done := 0;
    while done < |files|
      invariant done <= |files| && fresh(receiver) && fresh(receiver.slots)
      invariant receiver.Idle() && receiver.finished == files[..done]
      invariant forall i :: 0 <= i < done ==> |files[i]| >= CHIP && AllFit(orders[i])
    {
      var file, order := files[done], orders[done];
      var buffer := BuildRecords(file, name, md5);
      var records := Deliver(buffer, file, order);
      var ok := receiver.ReceiveFile(records, file, order);
      if !ok || |file| < CHIP {
        break;
      }
      done := done + 1;
    }
    received := receiver.finished;
  }
}
