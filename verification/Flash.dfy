/** The host side of flash programming: banks are cut into blocks and blocks into buffers of
    at most 32 words, each programmed by the chip's buffered command, and a serial number is
    kept in the first four words of a block of its own. */
module Flash {
  import opened Words
  import opened FlashChip
  import opened BitSwap

  const SERIAL: nat := 0x70_0000

  /** A C function that came back, or a program that ended with an exit code. */
  datatype Finish = Ok | Exit(code: int)

  /** How many of `n` words from `at` on come before the first locked block. */
  function Reach(c: Chip, at: nat, n: nat): (r: nat)
    requires at % 0x1_0000 == 0
    ensures r <= n
    decreases n
  {
    if n == 0 || !Unlocked(c, at) then 0
    else if n <= BLOCK then n
    else BLOCK + Reach(c, at + BLOCK, n - BLOCK)
  }

  /** Everything is reached exactly when no block in the way is locked. */
  lemma {:induction false} ReachesAll(c: Chip, at: nat, n: nat)
    requires at % 0x1_0000 == 0
    ensures Reach(c, at, n) == n <==> forall k :: at <= k < at + n ==> Unlocked(c, k)
    decreases n
  {
    if n == 0 {
    } else if !Unlocked(c, at) {
      assert at <= at < at + n;
    } else {
      assert forall k :: at <= k < at + BLOCK ==> Unlocked(c, k);
      if n > BLOCK {
        ReachesAll(c, at + BLOCK, n - BLOCK);
        if forall k :: at + BLOCK <= k < at + n ==> Unlocked(c, k) {
          assert forall k :: at <= k < at + n ==> Unlocked(c, k);
        }
      }
    }
  }

  /** The words reached are not locked, and what stops the run is a locked block. */
  lemma {:induction false} ReachStops(c: Chip, at: nat, n: nat)
    requires at % 0x1_0000 == 0
    ensures forall k :: at <= k < at + Reach(c, at, n) ==> Unlocked(c, k)
    ensures Reach(c, at, n) < n ==> Reach(c, at, n) % 0x1_0000 == 0 && !Unlocked(c, at + Reach(c, at, n))
    decreases n
  {
    if n > 0 && Unlocked(c, at) {
      assert forall k :: at <= k < at + BLOCK ==> Unlocked(c, k);
      if n > BLOCK {
        ReachStops(c, at + BLOCK, n - BLOCK);
      }
    }
  }

  lemma {:induction false} ReachSplit(c: Chip, at: nat, blocks: nat, n: nat)
    requires at % 0x1_0000 == 0
    requires Reach(c, at, blocks * 0x1_0000) == blocks * 0x1_0000
    ensures Reach(c, at, blocks * 0x1_0000 + n) == blocks * 0x1_0000 + Reach(c, at + blocks * 0x1_0000, n)
    decreases blocks
  {
    if blocks == 1 {
    } else if blocks > 1 {
      ReachSplit(c, at + BLOCK, blocks - 1, n);
    }
  }

  /** What a programming run leaves behind: the words in place, each address in the log
      once, and nothing else touched. */
  predicate Wrote(was: Chip, now: Chip, at: nat, words: seq<Cell>) {
    && now.mem == Overlay(was.mem, at, SwapAll(words))
    && now.log == was.log + Addresses(at, |words|)
    && now.unlocked == was.unlocked
  }

  /** Programming a run inside one block: the whole run, or nothing and the end of the
      program if the block is locked. */
  predicate AllOrNothing(was: Chip, now: Chip, done: Finish, at: nat, words: seq<Cell>) {
    if Unlocked(was, at) then done == Ok && Idle(now) && Wrote(was, now, at, words)
    else done == Exit(2) && Wrote(was, now, at, [])
  }

  lemma WroteNothing(c: Chip, at: nat)
    ensures Wrote(c, c, at, [])
  {
    assert Overlay(c.mem, at, SwapAll([])) == c.mem;
  }

  /** A run of words followed by the next slice of the same data is the longer run. */
  lemma WroteMore(a: Chip, b: Chip, c: Chip, at: nat, data: seq<Cell>, k: nat, n: nat)
    requires k + n <= |data|
    requires Wrote(a, b, at, data[..k]) && Wrote(b, c, at + k, data[k..][..n])
    ensures Wrote(a, c, at, data[..k + n])
  {
    var x, y := data[..k], data[k..][..n];
    assert data[..k + n] == x + y;
    SwapAllConcat(x, y);
    OverlayConcat(a.mem, at, SwapAll(x), SwapAll(y));
    assert (a.log + Addresses(at, |x|)) + Addresses(at + |x|, |y|)
        == a.log + (Addresses(at, |x|) + Addresses(at + |x|, |y|));
  }

  lemma WroteKeeps(a: Chip, b: Chip, at: nat, words: seq<Cell>, addr: nat)
    requires Wrote(a, b, at, words)
    ensures Unlocked(a, addr) == Unlocked(b, addr)
  {
  }

  /** After block `i`: one block further, or stopped in front of it for good. */
  lemma AfterBlock(a: Chip, b: Chip, c: Chip, done: Finish, base: nat, data: seq<Cell>, i: nat, n: nat, rest: nat)
    requires base % 0x1_0000 == 0 && 1 <= n <= BLOCK && 1 <= rest && i * 0x1_0000 + n <= |data|
    requires Reach(a, base, i * 0x1_0000) == i * 0x1_0000 && Wrote(a, b, base, data[..i * 0x1_0000])
    requires AllOrNothing(b, c, done, base + i * 0x1_0000, data[i * 0x1_0000..][..n])
    ensures done == Ok ==> Idle(c)
    ensures done == Ok ==> Wrote(a, c, base, data[..i * 0x1_0000 + n])
    ensures done == Ok ==> Reach(a, base, i * 0x1_0000 + n) == i * 0x1_0000 + n
    ensures done != Ok ==> done == Exit(2) && Wrote(a, c, base, data[..i * 0x1_0000])
    ensures done != Ok ==> Reach(a, base, i * 0x1_0000 + rest) == i * 0x1_0000
  {
    var k := i * 0x1_0000;
    WroteKeeps(a, b, base, data[..k], base + k);
    assert done == Ok <==> Unlocked(b, base + k);
    assert Wrote(b, c, base + k, if done == Ok then data[k..][..n] else []);
    hide Wrote, Unlocked, Idle;
    if done == Ok {
      WroteMore(a, b, c, base, data, k, n);
      ReachSplit(a, base, i, n);
    } else {
      assert data[k..][..0] == [];
      WroteMore(a, b, c, base, data, k, 0);
      ReachSplit(a, base, i, rest);
    }
  }

  // ---- what a written run means ----

  /** A stored bit is set exactly if it was set and the mirrored bit of the word is; on an
      erased word that is the mirrored word itself. */
  ghost predicate BurnedMirrored(was: Cell, word: Cell, now: Cell) {
    && (forall k :: 0 <= k < 16 ==> Bit(now, k) == Bit(was, k) * Bit(word, 15 - k))
    && (was == 0xffff ==> Mirrored(word, now))
  }

  /** The words of a run are stored like that from `at` on, and no other word has changed. */
  ghost predicate Stored(was: seq<Cell>, now: seq<Cell>, at: nat, words: seq<Cell>) {
    && |was| == |now| && at + |words| <= |was|
    && (forall i :: 0 <= i < |words| ==> BurnedMirrored(was[at + i], words[i], now[at + i]))
    && forall i :: 0 <= i < |was| && !(at <= i < at + |words|) ==> now[i] == was[i]
  }

  lemma BurnedIsMirrored(was: Cell, word: Cell)
    ensures BurnedMirrored(was, word, Burned(was, Swap(word)))
  {
    SwapMirrors(word);
    ErasedTakesAnything(Swap(word));
    hide Burned, Swap;
    forall k | 0 <= k < 16
      ensures Bit(Burned(was, Swap(word)), k) == Bit(was, k) * Bit(word, 15 - k)
    {
      BurnedBits(was, Swap(word), k);
    }
  }

  /** A programming run over any contents, told by its bits. */
  lemma WroteIsStored(a: Chip, b: Chip, at: nat, words: seq<Cell>)
    requires Wrote(a, b, at, words) && at + |words| <= |a.mem|
    ensures Stored(a.mem, b.mem, at, words)
  {
    hide Swap, Burned, BurnedMirrored;
    forall i | 0 <= i < |words|
      ensures BurnedMirrored(a.mem[at + i], words[i], b.mem[at + i])
    {
      BurnedIsMirrored(a.mem[at + i], words[i]);
    }
  }

  /** On erased flash every word of the file is stored bit-reversed at its own address, and
      reversing it again gives the file back; every other word is as it was. */
  lemma WroteOnErased(a: Chip, b: Chip, at: nat, words: seq<Cell>)
    requires Wrote(a, b, at, words) && at + |words| <= |a.mem|
    requires forall i :: at <= i < at + |words| ==> a.mem[i] == 0xffff
    ensures |b.mem| == |a.mem|
    ensures b.mem[at..at + |words|] == SwapAll(words) && SwapAll(b.mem[at..at + |words|]) == words
    ensures forall i :: 0 <= i < |words| ==> Mirrored(words[i], b.mem[at + i])
    ensures forall i :: 0 <= i < |a.mem| && !(at <= i < at + |words|) ==> b.mem[i] == a.mem[i]
  {
    hide Swap, Burned, Mirrored;
    forall i | 0 <= i < |words|
      ensures b.mem[at + i] == Swap(words[i]) && Swap(b.mem[at + i]) == words[i]
      ensures Mirrored(words[i], b.mem[at + i])
    {
      ErasedTakesAnything(Swap(words[i]));
      SwapInvolution(words[i]);
      SwapMirrors(words[i]);
    }
    var kept := b.mem[at..at + |words|];
    assert forall i :: 0 <= i < |words| ==> kept[i] == Swap(words[i]) && Swap(kept[i]) == words[i];
  }

  /** No word is programmed twice in a run, and a run that fits its bank stays in it. */
  lemma WroteOnce(a: Chip, b: Chip, bank: nat, words: seq<Cell>)
    requires Wrote(a, b, bank * 0x8_0000, words) && |words| <= 0x8_0000
    ensures |b.log| == |a.log| + |words| && b.log[..|a.log|] == a.log
    ensures forall j :: |a.log| <= j < |b.log| ==> b.log[j] == bank * 0x8_0000 + (j - |a.log|)
    ensures forall j :: |a.log| <= j < |b.log| ==> b.log[j] / 0x8_0000 == bank
  {
  }

  /** The serial number in the first words of its block, most significant word first. */
  function Serial(mem: seq<Cell>): nat
    requires |mem| == CHIP_WORDS
  {
    var a: nat, b: nat, c: nat, d: nat := mem[SERIAL], mem[SERIAL + 1], mem[SERIAL + 2], mem[SERIAL + 3];
    a * 0x1_0000_0000_0000 + b * 0x1_0000_0000 + c * 0x1_0000 + d
  }

  /** The number cut into sixteen-bit fields, from the top field at the lowest address down. */
  predicate InFields(mem: seq<Cell>, sn: nat) {
    && |mem| == CHIP_WORDS
    && mem[0x70_0000] as int == sn / 0x1_0000_0000_0000
    && mem[0x70_0001] as int == (sn / 0x1_0000_0000) % 0x1_0000
    && mem[0x70_0002] as int == (sn / 0x1_0000) % 0x1_0000
    && mem[0x70_0003] as int == sn % 0x1_0000
  }

  /** Programming the banks below the serial number leaves it alone. */
  lemma SerialSurvives(a: Chip, b: Chip, at: nat, words: seq<Cell>)
    requires |a.mem| == CHIP_WORDS && Wrote(a, b, at, words) && at + |words| <= SERIAL
    ensures |b.mem| == CHIP_WORDS && Serial(b.mem) == Serial(a.mem)
  {
  }

  lemma Double(f: nat, p: nat)
    ensures f * (2 * p) == 2 * (f * p)
  {
  }

  lemma Halves(x: nat, m: nat, p: nat)
    requires p >= 1
    ensures And(x, m * (2 * p)) == 2 * And(x / 2, m * p)
  {
    var y := m * (2 * p);
    assert y == 2 * (m * p);
    assert y / 2 == m * p && y % 2 == 0;
    if x == 0 || y == 0 {
      assert And(x / 2, y / 2) == 0;
    }
  }

  /** A field of a 64-bit word under its mask. */
  lemma {:induction false} AndField(x: nat, k: nat, w: nat)
    ensures And(x, (Pow2(w) - 1) * Pow2(k)) == ((x / Pow2(k)) % Pow2(w)) * Pow2(k)
    decreases k
  {
    if k == 0 {
      AndMask(x, w);
      assert x / 1 == x;
    } else {
      var m, p := Pow2(w) - 1, Pow2(k - 1);
      var q, n := Pow2(k), Pow2(w);
      assert q == 2 * p;
      AndField(x / 2, k - 1, w);
      hide *;
      HalveThenDivide(x, p);
      Halves(x, m, p);
      var f := (x / q) % n;
      assert f * q == 2 * (f * p) by {
        Double(f, p);
      }
    }
  }

  lemma Pow48()
    ensures Pow2(48) == 0x1_0000_0000_0000
  {
    Pow2Values();
    assert Pow2(48) == 0x1_0000 * Pow2(32) by {
      Pow2Add(16, 32);
    }
  }

  lemma FieldAt(x: nat, k: nat, p: nat)
    requires p == Pow2(k)
    ensures And(x, 0xffff * p) / p == (x / p) % 0x1_0000
  {
    Pow2Values();
    AndField(x, k, 16);
    hide *;
    var f := (x / p) % 0x1_0000;
    DivModUnique(f * p, p, f, 0);
  }

  /** The four words a serial number is cut into, by masks and shifts. */
  lemma SerialFields(sn: DWord)
    ensures And(sn, 0xffff_0000_0000_0000) / 0x1_0000_0000_0000 == sn / 0x1_0000_0000_0000
    ensures And(sn, 0x0000_ffff_0000_0000) / 0x1_0000_0000 == (sn / 0x1_0000_0000) % 0x1_0000
    ensures And(sn, 0x0000_0000_ffff_0000) / 0x1_0000 == (sn / 0x1_0000) % 0x1_0000
    ensures And(sn, 0x0000_0000_0000_ffff) == sn % 0x1_0000
  {
    Pow2Values();
    Pow48();
    hide And, Pow2;
    FieldAt(sn, 48, 0x1_0000_0000_0000);
    FieldAt(sn, 32, 0x1_0000_0000);
    FieldAt(sn, 16, 0x1_0000);
    AndMask(sn, 16);
  }

  /** The fields make up the number again. */
  lemma SerialSum(sn: DWord)
    ensures sn == (sn / 0x1_0000_0000_0000) * 0x1_0000_0000_0000 + ((sn / 0x1_0000_0000) % 0x1_0000) * 0x1_0000_0000
                  + ((sn / 0x1_0000) % 0x1_0000) * 0x1_0000 + sn % 0x1_0000
  {
    var h := sn / 0x1_0000;
    var g := h / 0x1_0000;
    assert sn / 0x1_0000_0000 == g;
    assert sn / 0x1_0000_0000_0000 == g / 0x1_0000;
  }

  lemma SerialStored(mem: seq<Cell>, sn: DWord)
    requires InFields(mem, sn)
    ensures Serial(mem) == sn
  {
    SerialSum(sn);
  }

  /** The words put together again, by shifts and ors. */
  lemma SerialOrs(a: nat, b: nat, c: nat, d: nat)
    requires a < 0x1_0000 && b < 0x1_0000 && c < 0x1_0000 && d < 0x1_0000
    ensures Or(Or(Or(a * 0x1_0000_0000_0000, b * 0x1_0000_0000), c * 0x1_0000), d)
         == a * 0x1_0000_0000_0000 + b * 0x1_0000_0000 + c * 0x1_0000 + d
  {
    Pow2Values();
    Pow48();
    hide Or, Pow2;
    OrIsAdd(a, 48, b * 0x1_0000_0000);
    OrIsAdd(a * 0x1_0000 + b, 32, c * 0x1_0000);
    OrIsAdd(a * 0x1_0000_0000 + b * 0x1_0000 + c, 16, d);
  }

  /** A data word goes to the buffer; the last one makes the chip wait for the confirmation. */
  lemma DataWord(c: Chip, addr: nat, data: Cell)
    requires c.busy == 0 && c.mode.BufferData? && SameWindow(c.mode.start, addr)
    ensures forall b: nat, h: nat :: Write(c, addr, data, b, h) == c.(mode :=
              if c.mode.left <= 1 then BufferConfirm(c.mode.start, c.mode.cells + [(addr, data)])
              else BufferData(c.mode.start, c.mode.left - 1, c.mode.cells + [(addr, data)]))
  {
  }

  /** The buffer after the first `i` words of the data. */
  function Filled(at: nat, data: seq<Cell>, i: nat): seq<(nat, Cell)>
    requires i <= |data|
  {
    Placed(at, SwapAll(data[..i]))
  }

  lemma FilledSnoc(at: nat, data: seq<Cell>, i: nat)
    requires i < |data|
    ensures Filled(at, data, i + 1) == Filled(at, data, i) + [(at + i, Swap(data[i]))]
    ensures Filled(at, data, 0) == []
  {
  }

  class Programmer {
    var chip: Chip

    constructor (c: Chip)
      ensures chip == c
    {
      chip := c;
    }

    method FlashWrite(addr: nat, data: Cell)
      modifies this
      ensures addr > 0x7FFFFF ==> chip == old(chip)
      ensures addr <= 0x7FFFFF ==>
                exists busyFor: nat, heldFor: nat :: chip == Write(old(chip), addr, data, busyFor, heldFor)
    {
      if addr > 0x7FFFFF {
        return;
      }
      var busyFor: nat, heldFor: nat := *, *;
      chip := Write(chip, addr, data, busyFor, heldFor);
    }

    method FlashRead(addr: nat) returns (data: Cell)
      requires addr <= 0x7FFFFF
      modifies this
      ensures data == Read(old(chip), addr) && chip == AfterRead(old(chip))
    {
      data := Read(chip, addr);
      chip := AfterRead(chip);
    }

    /** Reads the status register until it says ready. */
    method AwaitReady(addr: nat) returns (stat: Cell)
      requires addr <= 0x7FFFFF && chip.mode.ReadStatus?
      modifies this
      ensures chip == old(chip).(busy := 0) && stat == Status(chip)
    {
      stat := FlashRead(addr);
      while stat / 128 % 2 == 0
        invariant chip == old(chip).(busy := chip.busy)
        invariant stat == 0 || (stat == Status(chip) && chip.busy == 0)
        decreases if stat == 0 then chip.busy + 1 else 0
      {
        stat := FlashRead(addr);
      }
    }

    /** The exit that a finished programming operation leads to. */
    static method ProgramVerdict(stat: Cell) returns (done: Finish)
      ensures done == if stat / 8 % 2 == 1 then Exit(1) else if stat / 16 % 2 == 1 then Exit(2)
                      else if stat / 2 % 2 == 1 then Exit(3) else Ok
    {
      if stat / 8 % 2 == 1 {
        return Exit(1);
      }
      if stat / 16 % 2 == 1 {
        return Exit(2);
      }
      if stat / 2 % 2 == 1 {
        return Exit(3);
      }
      return Ok;
    }

    /** Asks for the write buffer until the chip grants it. */
    method GrabBuffer(startAddr: nat)
      requires Idle(chip) && startAddr <= 0x7FFFFF
      modifies this
      ensures chip == old(chip).(mode := BufferCount(startAddr), held := 0)
    {
      var stat: Cell := 0;
      while stat / 128 % 2 == 0
        invariant chip == old(chip).(mode := chip.mode, held := chip.held)
        invariant stat == 0 ==> Commands(chip.mode)
        invariant stat != 0 ==> chip.mode == BufferCount(startAddr) && chip.held == 0
        invariant stat == 0 || stat == 0x80
        decreases if stat == 0 then chip.held + 1 else 0
      {
        FlashWrite(startAddr, 0xE8);
        stat := FlashRead(startAddr);
      }
    }

    /** Hands `n + 1` words to the granted buffer. */
    method FillBuffer(startAddr: nat, n: nat, pdata: seq<Cell>)
      requires chip.mode == BufferCount(startAddr) && chip.busy == 0
      requires n <= 31 && n < |pdata|
      requires startAddr + n <= 0x7FFFFF && SameWindow(startAddr, startAddr + n)
      modifies this
      ensures chip == old(chip).(mode := BufferConfirm(startAddr, Filled(startAddr, pdata, n + 1)))
    {
      FlashWrite(startAddr, n);
      assert chip == old(chip).(mode := BufferData(startAddr, n + 1, []));
      FilledSnoc(startAddr, pdata, 0);
      hide Filled, Swap, Write;
      var i, addr := 0, startAddr;
      while i <= n
        invariant 0 <= i <= n + 1 && addr == startAddr + i
        invariant chip == old(chip).(mode :=
                    if i <= n then BufferData(startAddr, n + 1 - i, Filled(startAddr, pdata, i))
                    else BufferConfirm(startAddr, Filled(startAddr, pdata, n + 1)))
      {
        var word := SwapBits(pdata[i]);
        DataWord(chip, addr, word);
        FlashWrite(addr, word);
        FilledSnoc(startAddr, pdata, i);
        i, addr := i + 1, addr + 1;
      }
    }

    /** Programs `n + 1` words through the chip's buffer; or nothing, and the program ends,
        when the block is locked. */
    method BufferProgram(startAddr: nat, n: int, pdata: seq<Cell>) returns (done: Finish)
      requires Idle(chip)
      requires 0 <= n <= 31 ==> n < |pdata| && startAddr + n <= 0x7FFFFF && SameWindow(startAddr, startAddr + n)
      modifies this
      ensures !(0 <= n <= 31) ==> done == Exit(1) && chip == old(chip)
      ensures 0 <= n <= 31 ==> AllOrNothing(old(chip), chip, done, startAddr, pdata[..n + 1])
    {
      if n < 0 || n > 31 {
        return Exit(1);
      }
      GrabBuffer(startAddr);
      FillBuffer(startAddr, n, pdata);
      FlashWrite(startAddr, 0xD0);
      BurnPlaced(old(chip).mem, startAddr, SwapAll(pdata[..n + 1]));
      var stat := AwaitReady(startAddr);
      done := ProgramVerdict(stat);
      WroteNothing(old(chip), startAddr);
    }

    /** The buffers of a block: full ones, then a last one of `lastWords`. */
    method FillBlock(base: nat, needBuffer: nat, lastWords: nat, pdata: seq<Cell>) returns (done: Finish)
      requires Idle(chip) && base % 0x1_0000 == 0
      requires 1 <= needBuffer && 1 <= lastWords <= 32
      requires |pdata| == 32 * (needBuffer - 1) + lastWords <= BLOCK && base + |pdata| <= CHIP_WORDS
      modifies this
      ensures AllOrNothing(old(chip), chip, done, base, pdata)
    {
      hide Idle, Wrote;
      var i, startAddr := 0, base;
      WroteNothing(chip, base);
      assert pdata[..0] == [];
      while i < needBuffer - 1
        invariant 0 <= i <= needBuffer - 1 && startAddr == base + 32 * i
        invariant Idle(chip) && Wrote(old(chip), chip, base, pdata[..32 * i])
        invariant if i == 0 then chip == old(chip) else Unlocked(old(chip), base)
      {
        ghost var was := chip;
        WroteKeeps(old(chip), was, base, pdata[..32 * i], base);
        done := BufferProgram(startAddr, 31, pdata[32 * i..]);
        if done != Ok {
          assert i == 0;
          return;
        }
        WroteMore(old(chip), was, chip, base, pdata, 32 * i, 32);
        i, startAddr := i + 1, startAddr + 32;
      }
      ghost var was := chip;
      WroteKeeps(old(chip), was, base, pdata[..32 * i], base);
      done := BufferProgram(startAddr, lastWords - 1, pdata[32 * i..]);
      if done == Ok {
        WroteMore(old(chip), was, chip, base, pdata, 32 * i, lastWords);
        assert pdata[..32 * i + lastWords] == pdata;
      }
    }

    /** Programs up to a block's worth of words from the start of a block, 32 at a time. */
    method BlockProgram(bank: nat, block: nat, wSize: nat, pdata: seq<Cell>) returns (done: Finish)
      requires Idle(chip) && wSize <= |pdata| && wSize <= BLOCK
      requires bank * 0x8_0000 + block * 0x1_0000 + wSize <= CHIP_WORDS
      modifies this
      ensures wSize == 0 ==> done == Exit(1) && chip == old(chip)
      ensures wSize > 0 ==>
                AllOrNothing(old(chip), chip, done, bank * 0x8_0000 + block * 0x1_0000, pdata[..wSize])
    {
      if wSize == 0 {
        return Exit(1);
      }
      var startAddr := bank * 0x8_0000 + block * 0x1_0000;
      var needBuffer, lastWords := wSize / 32 + 1, wSize % 32;
      if wSize % 32 == 0 {
        needBuffer, lastWords := wSize / 32, 32;
      }
      assert startAddr % 0x1_0000 == 0;
      done := FillBlock(startAddr, needBuffer, lastWords, pdata[..wSize]);
    }

    /** Block `i` of a bank, after the blocks before it. */
    method NextBlock(bank: nat, i: nat, n: nat, pdata: seq<Cell>, ghost start: Chip) returns (done: Finish)
      requires Idle(chip) && 1 <= n <= BLOCK && i * 0x1_0000 + n <= |pdata|
      requires bank * 0x8_0000 + |pdata| <= CHIP_WORDS
      requires Wrote(start, chip, bank * 0x8_0000, pdata[..i * 0x1_0000])
      requires Reach(start, bank * 0x8_0000, i * 0x1_0000) == i * 0x1_0000
      modifies this
      ensures done == Ok ==> Idle(chip) && Wrote(start, chip, bank * 0x8_0000, pdata[..i * 0x1_0000 + n])
      ensures done == Ok ==> Reach(start, bank * 0x8_0000, i * 0x1_0000 + n) == i * 0x1_0000 + n
      ensures done != Ok ==> done == Exit(2) && Wrote(start, chip, bank * 0x8_0000, pdata[..i * 0x1_0000])
      ensures done != Ok ==> Reach(start, bank * 0x8_0000, |pdata|) == i * 0x1_0000
    {
      hide Idle, Wrote, Unlocked, Reach, AllOrNothing;
      ghost var was := chip;
      done := BlockProgram(bank, i, n, pdata[i * 0x1_0000..]);
      AfterBlock(start, was, chip, done, bank * 0x8_0000, pdata, i, n, |pdata| - i * 0x1_0000);
    }

    /** The blocks of a bank: full ones, then a last one of `lastWords`. */
    method FillBank(bank: nat, lastBlock: nat, lastWords: nat, pdata: seq<Cell>) returns (done: Finish)
      requires Idle(chip) && 1 <= lastWords <= BLOCK
      requires |pdata| == lastBlock * 0x1_0000 + lastWords && bank * 0x8_0000 + |pdata| <= CHIP_WORDS
      modifies this
      ensures done == if Reach(old(chip), bank * 0x8_0000, |pdata|) == |pdata| then Ok else Exit(2)
      ensures Wrote(old(chip), chip, bank * 0x8_0000, pdata[..Reach(old(chip), bank * 0x8_0000, |pdata|)])
      ensures done == Ok ==> Idle(chip)
    {
      assert Reach(chip, bank * 0x8_0000, 0) == 0;
      hide Idle, Wrote, Unlocked, Reach;
      var i := 0;
      WroteNothing(chip, bank * 0x8_0000);
      assert pdata[..0] == [];
      while i < lastBlock
        invariant 0 <= i <= lastBlock
        invariant Idle(chip) && Wrote(old(chip), chip, bank * 0x8_0000, pdata[..i * 0x1_0000])
        invariant Reach(old(chip), bank * 0x8_0000, i * 0x1_0000) == i * 0x1_0000
      {
        done := NextBlock(bank, i, BLOCK, pdata, old(chip));
        if done != Ok {
          return;
        }
        i := i + 1;
      }
      done := NextBlock(bank, lastBlock, lastWords, pdata, old(chip));
    }

    /** Programs a file's worth of words from the start of a bank, block by block. It stops
        in front of the first locked block, with every earlier word in place. */
    method BankProgram(bank: nat, wSize: nat, pdata: seq<Cell>) returns (done: Finish)
      requires Idle(chip) && wSize <= |pdata| && bank * 0x8_0000 + wSize <= CHIP_WORDS
      modifies this
      ensures wSize == 0 ==> done == Exit(1) && chip == old(chip)
      ensures wSize > 0 ==>
                && done == (if Reach(old(chip), bank * 0x8_0000, wSize) == wSize then Ok else Exit(2))
                && Wrote(old(chip), chip, bank * 0x8_0000, pdata[..Reach(old(chip), bank * 0x8_0000, wSize)])
                && (done == Ok ==> Idle(chip))
      ensures wSize > 0 ==>
                && (done == Ok <==> forall k :: bank * 0x8_0000 <= k < bank * 0x8_0000 + wSize ==> Unlocked(old(chip), k))
                && Stored(old(chip).mem, chip.mem, bank * 0x8_0000, pdata[..Reach(old(chip), bank * 0x8_0000, wSize)])
    {
      if wSize == 0 {
        return Exit(1);
      }
      var needBlock, lastWords := wSize / 0x1_0000 + 1, wSize % 0x1_0000;
      if wSize % 0x1_0000 == 0 {
        needBlock, lastWords := wSize / 0x1_0000, BLOCK;
      }
      done := FillBank(bank, needBlock - 1, lastWords, pdata[..wSize]);
      ReachesAll(old(chip), bank * 0x8_0000, wSize);
      hide *;
      assert pdata[..wSize][..Reach(old(chip), bank * 0x8_0000, wSize)]
          == pdata[..Reach(old(chip), bank * 0x8_0000, wSize)];
      WroteIsStored(old(chip), chip, bank * 0x8_0000, pdata[..Reach(old(chip), bank * 0x8_0000, wSize)]);
    }

    method SetConfigRegister(data: Cell)
      requires Commands(chip.mode) && chip.busy == 0
      modifies this
      ensures chip == old(chip).(mode := ReadArray)
    {
      FlashWrite(data, 0x60);
      FlashWrite(data, 0x03);
    }

    method ClearStatsRegs()
      requires Commands(chip.mode) && chip.busy == 0
      modifies this
      ensures chip == old(chip).(mode := ReadStatus, sr1 := false, sr4 := false, sr5 := false)
    {
      FlashWrite(0, 0x50);
    }

    method WordProgram(addr: nat, data: Cell) returns (done: Finish)
      requires Idle(chip) && addr <= 0x7FFFFF
      modifies this
      ensures Unlocked(old(chip), addr) ==>
                && done == Ok && Idle(chip) && chip.unlocked == old(chip).unlocked
                && chip.mem == old(chip).mem[addr := Burned(old(chip).mem[addr], data)]
                && (forall k: nat :: Bit(chip.mem[addr], k) == Bit(old(chip).mem[addr], k) * Bit(data, k))
                && chip.log == old(chip).log + [addr]
      ensures !Unlocked(old(chip), addr) ==>
                done == Exit(2) && chip.mem == old(chip).mem && chip.log == old(chip).log
    {
      FlashWrite(addr, 0x40);
      FlashWrite(addr, data);
      ghost var cells: seq<(nat, Cell)> := [(addr, data)];
      assert cells[..0] == [] && Burn(old(chip).mem, []) == old(chip).mem;
      assert Burn(old(chip).mem, cells) == old(chip).mem[addr := Burned(old(chip).mem[addr], data)];
      assert Places(cells) == [addr];
      var stat := AwaitReady(addr);
      done := ProgramVerdict(stat);
      forall k: nat
        ensures Bit(Burned(old(chip).mem[addr], data), k) == Bit(old(chip).mem[addr], k) * Bit(data, k)
      {
        BurnedBits(old(chip).mem[addr], data, k);
      }
    }

    /** Unlocks a block and asks the chip whether it is unlocked. */
    method BlockUnlock(bank: nat, block: nat) returns (done: Finish)
      requires Commands(chip.mode) && chip.busy == 0
      requires bank * 0x8_0000 + block * 0x1_0000 + 2 <= 0x7FFFFF
      modifies this
      ensures done == Ok
      ensures chip == old(chip).(mode := ReadId,
                                 unlocked := old(chip).unlocked + {(bank * 0x8_0000 + block * 0x1_0000) / 0x1_0000})
    {
      FlashWrite(bank * 0x8_0000, 0x60);
      FlashWrite(bank * 0x8_0000 + block * 0x1_0000, 0xD0);
      FlashWrite(bank * 0x8_0000, 0x90);
      var result16 := FlashRead(bank * 0x8_0000 + block * 0x1_0000 + 2);
      if result16 != 0 {
        return Exit(1);
      }
      return Ok;
    }

    /** Erases a block, or ends the program if it is locked. */
    method BlockErase(bank: nat, block: nat) returns (done: Finish)
      requires Idle(chip) && bank * 0x8_0000 + block * 0x1_0000 <= 0x7FFFFF
      modifies this
      ensures Unlocked(old(chip), bank * 0x8_0000 + block * 0x1_0000) ==>
                && done == Ok
                && chip == old(chip).(mode := ReadStatus,
                                      mem := EraseBlock(old(chip).mem, (bank * 0x8_0000 + block * 0x1_0000) / 0x1_0000))
                && (forall i :: 0 <= i < CHIP_WORDS ==>
                      var start := bank * 0x8_0000 + block * 0x1_0000;
                      chip.mem[i] == if start <= i < start + 0x1_0000 then 0xffff else old(chip).mem[i])
      ensures !Unlocked(old(chip), bank * 0x8_0000 + block * 0x1_0000) ==>
                done == Exit(3) && chip.mem == old(chip).mem && chip.log == old(chip).log
    {
      FlashWrite(bank * 0x8_0000, 0x20);
      FlashWrite(bank * 0x8_0000 + block * 0x1_0000, 0xD0);
      var stat := AwaitReady(bank * 0x8_0000);
      var sr3, sr4, sr5, sr1 := stat / 8 % 2 == 1, stat / 16 % 2 == 1, stat / 32 % 2 == 1, stat / 2 % 2 == 1;
      if sr3 {
        return Exit(1);
      }
      if sr4 && sr5 {
        return Exit(2);
      }
      if sr5 {
        return Exit(3);
      }
      if sr1 {
        return Exit(4);
      }
      return Ok;
    }

    /** The four words of a serial number onto erased words. */
    method StoreWords(sn: DWord) returns (done: Finish)
      requires Idle(chip) && Unlocked(chip, SERIAL)
      requires forall i :: SERIAL <= i < SERIAL + 4 ==> chip.mem[i] == 0xffff
      modifies this
      ensures done == Ok && Idle(chip) && InFields(chip.mem, sn)
      ensures chip.log == old(chip).log + Addresses(SERIAL, 4)
      ensures forall i :: 0 <= i < CHIP_WORDS && !(SERIAL <= i < SERIAL + 4) ==> chip.mem[i] == old(chip).mem[i]
    {
      SerialFields(sn);
      hide And, Pow2, Burned, Commands, Write, Burn;
      var temp: Cell := And(sn, 0xffff_0000_0000_0000) / 0x1_0000_0000_0000;
      ErasedTakesAnything(temp);
      done := WordProgram(SERIAL, temp);
      temp := And(sn, 0x0000_ffff_0000_0000) / 0x1_0000_0000;
      ErasedTakesAnything(temp);
      done := WordProgram(SERIAL + 1, temp);
      temp := And(sn, 0x0000_0000_ffff_0000) / 0x1_0000;
      ErasedTakesAnything(temp);
      done := WordProgram(SERIAL + 2, temp);
      temp := And(sn, 0x0000_0000_0000_ffff);
      ErasedTakesAnything(temp);
      done := WordProgram(SERIAL + 3, temp);
    }

    /** Stores a serial number: its block is unlocked and erased first, so whatever was
        there and whatever errors were pending, the number stored is the one given. */
    method SetLogicNum(sn: DWord) returns (done: Finish)
      requires |chip.mem| == CHIP_WORDS && Commands(chip.mode) && chip.busy == 0
      modifies this
      ensures done == Ok && Idle(chip) && InFields(chip.mem, sn) && Serial(chip.mem) == sn
      ensures chip.log == old(chip).log + Addresses(SERIAL, 4)
      ensures forall i :: 0 <= i < CHIP_WORDS && i / 0x1_0000 != SERIAL / 0x1_0000 ==>
                chip.mem[i] == old(chip).mem[i]
      ensures forall i :: SERIAL + 4 <= i < SERIAL + 0x1_0000 ==> chip.mem[i] == 0xffff
    {
      SetConfigRegister(0xBDDF);
      ClearStatsRegs();
      done := BlockUnlock(14, 0);
      done := BlockErase(14, 0);
      done := StoreWords(sn);
      SerialStored(chip.mem, sn);
    }

    /** Reads the serial number back. */
    method ReadLogicNum() returns (sn: nat)
      requires |chip.mem| == CHIP_WORDS && Commands(chip.mode) && chip.busy == 0
      modifies this
      ensures sn == Serial(old(chip).mem)
      ensures Idle(chip) && chip.mem == old(chip).mem && chip.log == old(chip).log
    {
      SetConfigRegister(0xBDDF);
      ClearStatsRegs();
      FlashWrite(SERIAL, 0xff);
      assert chip == old(chip).(mode := ReadArray, sr1 := false, sr4 := false, sr5 := false);
      hide Or, Pow2, Write;
      var temp := FlashRead(SERIAL);
      ghost var a := temp;
      sn := temp as nat * 0x1_0000_0000_0000;
      temp := FlashRead(SERIAL + 1);
      ghost var b := temp;
      sn := Or(sn, temp as nat * 0x1_0000_0000);
      temp := FlashRead(SERIAL + 2);
      ghost var c := temp;
      sn := Or(sn, temp as nat * 0x1_0000);
      temp := FlashRead(SERIAL + 3);
      sn := Or(sn, temp);
      SerialOrs(a, b, c, temp);
    }
  }
}
