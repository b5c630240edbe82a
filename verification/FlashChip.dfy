/** A NOR flash chip as its command interface shows it: erasing a block sets every bit,
    programming only clears bits, locked blocks refuse both, and a buffered program may not
    leave the aligned 32-word window of its start address. */
module FlashChip {
  import opened Words

  const CHIP_WORDS: nat := 0x80_0000
  const BLOCK: nat := 0x1_0000

  type Cell = x: nat | x <= 0xffff

  /** What the chip makes of the next write or read. */
  datatype Mode =
    | ReadArray
    | ReadStatus
    | ReadId
    | BufferWait
    | WordSetup
    | BufferCount(start: nat)
    | BufferData(start: nat, left: nat, cells: seq<(nat, Cell)>)
    | BufferConfirm(start: nat, cells: seq<(nat, Cell)>)
    | EraseSetup
    | LockSetup

  /** `busy`: how many more reads find the array busy. `held`: how many more requests find
      the write buffer taken. `sr1`, `sr4`, `sr5`: the error bits for a locked block, for
      programming and for erasing. `log`: the address of every word programmed, in order. */
  datatype Chip = Chip(mem: seq<Cell>, mode: Mode, busy: nat, held: nat,
                       sr1: bool, sr4: bool, sr5: bool, unlocked: set<nat>, log: seq<nat>)

  /** Modes in which a write is a fresh command. */
  predicate Commands(m: Mode) {
    m.ReadArray? || m.ReadStatus? || m.ReadId? || m.BufferWait?
  }

  /** Ready for a command, without an error. */
  predicate Idle(c: Chip) {
    |c.mem| == CHIP_WORDS && Commands(c.mode) && c.busy == 0 && !c.sr1 && !c.sr4 && !c.sr5
  }

  predicate SameWindow(a: nat, b: nat) {
    a / 32 == b / 32
  }

  predicate Unlocked(c: Chip, addr: nat) {
    addr / 0x1_0000 in c.unlocked
  }

  lemma {:induction false} AndBelow(a: nat, b: nat)
    ensures And(a, b) <= a
  {
    if a != 0 && b != 0 {
      AndBelow(a / 2, b / 2);
    }
  }

  /** Bits can only go from one to zero. */
  function Burned(was: Cell, data: Cell): Cell {
    AndBelow(data, was);
    And(data, was)
  }

  /** A programmed bit stays set exactly if it was set and the data sets it. */
  lemma BurnedBits(was: Cell, data: Cell, k: nat)
    ensures Bit(Burned(was, data), k) == Bit(was, k) * Bit(data, k)
  {
    AndBits(data, was, k);
  }

  function Burn(mem: seq<Cell>, cells: seq<(nat, Cell)>): (r: seq<Cell>)
    ensures |r| == |mem|
  {
    if cells == [] then mem
    else
      var m := Burn(mem, cells[..|cells| - 1]);
      var (addr, data) := cells[|cells| - 1];
      if addr < |m| then m[addr := Burned(m[addr], data)] else m
  }

  function Places(cells: seq<(nat, Cell)>): (r: seq<nat>)
    ensures |r| == |cells|
  {
    seq(|cells|, i requires 0 <= i < |cells| => cells[i].0)
  }

  function EraseBlock(mem: seq<Cell>, block: nat): (r: seq<Cell>)
    ensures |r| == |mem|
  {
    seq(|mem|, i requires 0 <= i < |mem| => if i / 0x1_0000 == block then 0xffff else mem[i])
  }

  function SequenceError(c: Chip): Chip {
    c.(mode := ReadStatus, sr4 := true, sr5 := true)
  }

  function ProgramCells(c: Chip, addr: nat, cells: seq<(nat, Cell)>, busyFor: nat): Chip {
    if Unlocked(c, addr) then
      c.(mode := ReadStatus, busy := busyFor, mem := Burn(c.mem, cells), log := c.log + Places(cells))
    else
      c.(mode := ReadStatus, busy := busyFor, sr1 := true, sr4 := true)
  }

  function FreshCommand(c: Chip, addr: nat, data: Cell): Chip {
    if data == 0x40 then c.(mode := WordSetup)
    else if data == 0xE8 then
      if c.held > 0 then c.(mode := BufferWait, held := c.held - 1) else c.(mode := BufferCount(addr))
    else if data == 0x20 then c.(mode := EraseSetup)
    else if data == 0x60 then c.(mode := LockSetup)
    else if data == 0x50 then c.(mode := ReadStatus, sr1 := false, sr4 := false, sr5 := false)
    else if data == 0x90 then c.(mode := ReadId)
    else if data == 0xFF then c.(mode := ReadArray)
    else if data == 0x70 then c.(mode := ReadStatus)
    else SequenceError(c)
  }

  /** A write cycle. An operation it starts takes `busyFor` polls, and a buffered one keeps
      the buffer for `heldFor` requests: the chip alone knows how long. */
  function Write(c: Chip, addr: nat, data: Cell, busyFor: nat, heldFor: nat): Chip {
    if c.busy > 0 then c
    else match c.mode
      case WordSetup => ProgramCells(c, addr, [(addr, data)], busyFor)
      case BufferCount(start) =>
        if data <= 31 then c.(mode := BufferData(start, data + 1, [])) else SequenceError(c)
      case BufferData(start, left, cells) =>
        if !SameWindow(start, addr) then SequenceError(c)
        else if left <= 1 then c.(mode := BufferConfirm(start, cells + [(addr, data)]))
        else c.(mode := BufferData(start, left - 1, cells + [(addr, data)]))
      case BufferConfirm(start, cells) =>
        if data == 0xD0 then ProgramCells(c.(held := heldFor), start, cells, busyFor)
        else SequenceError(c)
      case EraseSetup =>
        if data != 0xD0 then SequenceError(c)
        else if Unlocked(c, addr) then
          c.(mode := ReadStatus, busy := busyFor, mem := EraseBlock(c.mem, addr / 0x1_0000))
        else c.(mode := ReadStatus, busy := busyFor, sr1 := true, sr5 := true)
      case LockSetup =>
        if data == 0xD0 then c.(mode := ReadStatus, unlocked := c.unlocked + {addr / 0x1_0000})
        else if data == 0x01 then c.(mode := ReadStatus, unlocked := c.unlocked - {addr / 0x1_0000})
        else if data == 0x03 then c.(mode := ReadArray)
        else SequenceError(c)
      case _ => FreshCommand(c, addr, data)
  }

  function Status(c: Chip): Cell {
    if c.busy > 0 || c.mode.BufferWait? then 0
    else 0x80 + (if c.sr5 then 0x20 else 0) + (if c.sr4 then 0x10 else 0) + (if c.sr1 then 0x02 else 0)
  }

  /** A read cycle: the word at an address of the array, the lock bit of a block, or the
      status register. */
  function Read(c: Chip, addr: nat): Cell {
    if c.busy > 0 then Status(c)
    else if c.mode.ReadArray? then (if addr < |c.mem| then c.mem[addr] else 0)
    else if c.mode.ReadId? then (if addr % 0x1_0000 == 2 && !Unlocked(c, addr) then 1 else 0)
    else Status(c)
  }

  function AfterRead(c: Chip): Chip {
    if c.busy > 0 then c.(busy := c.busy - 1) else c
  }

  // ---- runs of words ----

  /** Memory after `words` were programmed from `at` on. */
  function Overlay(mem: seq<Cell>, at: nat, words: seq<Cell>): (r: seq<Cell>)
    ensures |r| == |mem|
  {
    seq(|mem|, i requires 0 <= i < |mem| =>
      if at <= i < at + |words| then Burned(mem[i], words[i - at]) else mem[i])
  }

  function Addresses(at: nat, n: nat): (r: seq<nat>)
    ensures |r| == n
  {
    seq(n, i requires 0 <= i < n => at + i)
  }

  function Placed(at: nat, words: seq<Cell>): (r: seq<(nat, Cell)>)
    ensures |r| == |words|
  {
    seq(|words|, i requires 0 <= i < |words| => (at + i, words[i]))
  }

  /** A buffer filled from its start address on programs exactly its run of words. */
  lemma {:induction false} BurnPlaced(mem: seq<Cell>, at: nat, words: seq<Cell>)
    requires at + |words| <= |mem|
    ensures Burn(mem, Placed(at, words)) == Overlay(mem, at, words)
    ensures Places(Placed(at, words)) == Addresses(at, |words|)
  {
    if words == [] {
      assert Overlay(mem, at, words) == mem;
    } else {
      var n := |words| - 1;
      BurnPlaced(mem, at, words[..n]);
      assert Placed(at, words)[..n] == Placed(at, words[..n]);
      assert Overlay(mem, at, words)
          == Overlay(mem, at, words[..n])[at + n := Burned(mem[at + n], words[n])];
    }
  }

  /** Programming one run after another is programming the longer run. */
  lemma OverlayConcat(mem: seq<Cell>, at: nat, a: seq<Cell>, b: seq<Cell>)
    ensures Overlay(Overlay(mem, at, a), at + |a|, b) == Overlay(mem, at, a + b)
    ensures Addresses(at, |a|) + Addresses(at + |a|, |b|) == Addresses(at, |a| + |b|)
  {
  }

  /** Erased words take any data. */
  lemma {:induction false} AndOnes(a: nat, k: nat)
    requires a < Pow2(k)
    ensures And(a, Pow2(k) - 1) == a
    decreases k
  {
    if k > 0 && a != 0 {
      var p := Pow2(k - 1);
      assert (2 * p - 1) / 2 == p - 1 && (2 * p - 1) % 2 == 1;
      AndOnes(a / 2, k - 1);
    }
  }

  lemma ErasedTakesAnything(data: Cell)
    ensures Burned(0xffff, data) == data
  {
    Pow2Values();
    AndOnes(data, 16);
  }
}
