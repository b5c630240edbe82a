/** How `run_tx` cuts a file into fixed-size records: a 16-byte header with big-endian
    fields, name and digest, and one 1552-byte chip of the file, the last one padded. */
module Segments {
  import StreamTypes

  type Byte = StreamTypes.Byte

  const RECORD: nat := 1600
  const CHIP: nat := 1552
  const PREFIX: nat := 48

  // ---- network byte order ----

  function Htons(x: nat): (b: seq<Byte>)
    requires x < 0x1_0000
    ensures |b| == 2
  {
    [x / 0x100, x % 0x100]
  }

  function Htonl(x: nat): (b: seq<Byte>)
    requires x < 0x1_0000_0000
    ensures |b| == 4
  {
    Htons(x / 0x1_0000) + Htons(x % 0x1_0000)
  }

  function Ntohs(b: seq<Byte>): nat
    requires |b| == 2
  {
    b[0] as nat * 0x100 + b[1]
  }

  function Ntohl(b: seq<Byte>): nat
    requires |b| == 4
  {
    Ntohs(b[..2]) * 0x1_0000 + Ntohs(b[2..])
  }

  lemma NetworkOrderRoundTrip(x: nat)
    ensures x < 0x1_0000 ==> Ntohs(Htons(x)) == x
    ensures x < 0x1_0000_0000 ==> Ntohl(Htonl(x)) == x
  {
    if x < 0x1_0000_0000 {
      assert Htonl(x)[..2] == Htons(x / 0x1_0000);
      assert Htonl(x)[2..] == Htons(x % 0x1_0000);
    }
  }

  // ---- the fields of a record ----

  function FileSize(r: seq<Byte>): nat
    requires |r| >= 16
  { Ntohl(r[0..4]) }

  function SeqNum(r: seq<Byte>): nat
    requires |r| >= 16
  { Ntohl(r[4..8]) }

  function RLen(r: seq<Byte>): nat
    requires |r| >= 16
  { Ntohs(r[10..12]) }

  function WLen(r: seq<Byte>): nat
    requires |r| >= 16
  { Ntohs(r[14..16]) }

  /** Number of records of a file: one more than the whole chips, so that the last record
      is short even when the size is a multiple of the chip. */
  function TxCount(size: nat): nat {
    size / CHIP + 1
  }

  /** The part of the file that record `k` carries. */
  function Chunk(file: seq<Byte>, k: nat): seq<Byte>
    requires 1 <= k <= TxCount(|file|)
  {
    assert |file| >= (k - 1) * 1552;
    if k < TxCount(|file|) then
      assert |file| >= k * 1552;
      file[(k - 1) * 1552..k * 1552]
    else file[(k - 1) * 1552..]
  }

  /** What the receiver can rely on in record `k` of a file. The type, flags and loss
      counter bytes of the header are never set. */
  ghost predicate IsRecord(r: seq<Byte>, file: seq<Byte>, k: nat) {
    && |r| == RECORD
    && 1 <= k <= TxCount(|file|)
    && FileSize(r) == |file|
    && SeqNum(r) == k
    && RLen(r) == RECORD
    && WLen(r) == 32 + |Chunk(file, k)|
    && r[PREFIX..PREFIX + |Chunk(file, k)|] == Chunk(file, k)
  }

  /** The bytes on the wire: the most significant one of each field comes first. */
  lemma HeaderOnWire(r: seq<Byte>, file: seq<Byte>, k: nat)
    requires IsRecord(r, file, k)
    ensures r[0] as int * 0x100_0000 + r[1] as int * 0x1_0000 + r[2] as int * 0x100 + r[3] as int == |file|
    ensures r[4] as int * 0x100_0000 + r[5] as int * 0x1_0000 + r[6] as int * 0x100 + r[7] as int == k
    ensures r[10] == 6 && r[11] == 64
    ensures r[14] as int * 0x100 + r[15] as int == 32 + |Chunk(file, k)|
  {
    assert r[0..4][..2] == [r[0], r[1]] && r[0..4][2..] == [r[2], r[3]];
    assert r[4..8][..2] == [r[4], r[5]] && r[4..8][2..] == [r[6], r[7]];
  }

  /** The wire length alone tells the last record: it is the only one not filled. */
  lemma LastIsShort(file: seq<Byte>, k: nat)
    requires 1 <= k <= TxCount(|file|)
    ensures |Chunk(file, k)| <= CHIP
    ensures 32 + |Chunk(file, k)| != RECORD - 16 <==> k == TxCount(|file|)
  {
  }

  /** The first `k` chunks together. */
  function Upto(file: seq<Byte>, k: nat): seq<Byte>
    requires k <= TxCount(|file|)
  {
    if k < TxCount(|file|) then
      assert k * 1552 <= |file|;
      file[..k * 1552]
    else file
  }

  /** Chunks in order make up the file. */
  lemma UptoStep(file: seq<Byte>, k: nat)
    requires 1 <= k <= TxCount(|file|)
    ensures Upto(file, k - 1) + Chunk(file, k) == Upto(file, k)
    ensures Upto(file, 0) == []
    ensures Upto(file, TxCount(|file|)) == file
  {
  }

  /** The file's name and digest follow the header. */
  predicate Labelled(r: seq<Byte>, name: seq<Byte>, md5: seq<Byte>) {
    |r| == RECORD && r[16..32] == name && r[32..48] == md5
  }

  // ---- building the records ----

  method Memcpy(dst: array<Byte>, at: nat, src: seq<Byte>)
    requires at + |src| <= dst.Length
    modifies dst
    ensures forall i :: 0 <= i < |src| ==> dst[at + i] == src[i]
    ensures forall i :: 0 <= i < at ==> dst[i] == old(dst[i])
    ensures forall i :: at + |src| <= i < dst.Length ==> dst[i] == old(dst[i])
  {
    for k := 0 to |src|
      invariant forall i :: 0 <= i < k ==> dst[at + i] == src[i]
      invariant forall i :: 0 <= i < at ==> dst[i] == old(dst[i])
      invariant forall i :: at + k <= i < dst.Length ==> dst[i] == old(dst[i])
    {
      dst[at + k] := src[k];
    }
  }

  /** A header: size, sequence number and the two lengths in network order; the other four
      bytes are whatever was on the stack. */
  function Header(size: nat, seqnum: nat, wlen: nat, junk: seq<Byte>): (h: seq<Byte>)
    requires size < 0x1_0000_0000 && seqnum < 0x1_0000_0000 && wlen < 0x1_0000
    requires |junk| == 4
    ensures |h| == 16
  {
    Htonl(size) + Htonl(seqnum) + junk[..2] + Htons(RECORD) + junk[2..] + Htons(wlen)
  }

  lemma HeaderFields(size: nat, seqnum: nat, wlen: nat, junk: seq<Byte>, rest: seq<Byte>)
    requires size < 0x1_0000_0000 && seqnum < 0x1_0000_0000 && wlen < 0x1_0000
    requires |junk| == 4
    ensures
      var r := Header(size, seqnum, wlen, junk) + rest;
      FileSize(r) == size && SeqNum(r) == seqnum && RLen(r) == RECORD && WLen(r) == wlen
  {
    var r := Header(size, seqnum, wlen, junk) + rest;
    assert r[0..4] == Htonl(size);
    assert r[4..8] == Htonl(seqnum);
    assert r[10..12] == Htons(RECORD);
    assert r[14..16] == Htons(wlen);
    NetworkOrderRoundTrip(size);
    NetworkOrderRoundTrip(seqnum);
    NetworkOrderRoundTrip(wlen);
    NetworkOrderRoundTrip(RECORD);
  }

  method FourCopies(buffer: array<Byte>, offset: nat, header: seq<Byte>, name: seq<Byte>, md5: seq<Byte>,
                    chunk: seq<Byte>)
    returns (ghost rest: seq<Byte>)
    requires |header| == |name| == |md5| == 16 && |chunk| <= 1552 && offset + 1600 <= buffer.Length
    modifies buffer
    ensures |rest| == 1552 - |chunk|
    ensures buffer[offset..offset + 1600] == header + name + md5 + chunk + rest
    ensures forall i :: 0 <= i < offset ==> buffer[i] == old(buffer[i])
    ensures forall i :: offset + 1600 <= i < buffer.Length ==> buffer[i] == old(buffer[i])
  {
    Memcpy(buffer, offset + 16, name);
    Memcpy(buffer, offset + 32, md5);
    Memcpy(buffer, offset, header);
    Memcpy(buffer, offset + 48, chunk);
    rest := buffer[offset + 48 + |chunk|..offset + 1600];
  }

  /** The parts of a record, one after another. */
  lemma RecordParts(file: seq<Byte>, k: nat, header: seq<Byte>, junk: seq<Byte>,
                    name: seq<Byte>, md5: seq<Byte>, rest: seq<Byte>)
    requires |file| < 0x1_0000_0000 && 1 <= k <= TxCount(|file|) && |Chunk(file, k)| <= CHIP
    requires |name| == 16 && |md5| == 16 && |junk| == 4 && |rest| == CHIP - |Chunk(file, k)|
    requires header == Header(|file|, k, 32 + |Chunk(file, k)|, junk)
    ensures
      var r := header + name + md5 + Chunk(file, k) + rest;
      IsRecord(r, file, k) && Labelled(r, name, md5)
  {
    var r := header + name + md5 + Chunk(file, k) + rest;
    assert r == header + (name + md5 + Chunk(file, k) + rest);
    HeaderFields(|file|, k, 32 + |Chunk(file, k)|, junk, name + md5 + Chunk(file, k) + rest);
    hide Header;
    assert r[16..32] == name && r[32..48] == md5;
    assert r[48..48 + |Chunk(file, k)|] == Chunk(file, k);
  }

  /** The four copies that fill record `seqnum` of the packet buffer. */
  method FillRecord(buffer: array<Byte>, file: seq<Byte>, name: seq<Byte>, md5: seq<Byte>,
                    seqnum: nat, junk: seq<Byte>)
    requires |file| < 0x1_0000_0000 && 1 <= seqnum <= TxCount(|file|)
    requires |name| == 16 && |md5| == 16 && |junk| == 4
    requires buffer.Length == 1600 * TxCount(|file|)
    modifies buffer
    ensures IsRecord(buffer[1600 * (seqnum - 1)..1600 * seqnum], file, seqnum)
    ensures Labelled(buffer[1600 * (seqnum - 1)..1600 * seqnum], name, md5)
    ensures forall i :: 0 <= i < 1600 * (seqnum - 1) ==> buffer[i] == old(buffer[i])
    ensures forall i :: 1600 * seqnum <= i < buffer.Length ==> buffer[i] == old(buffer[i])
  {
    var offset := 1600 * (seqnum - 1);
    LastIsShort(file, seqnum);
    hide IsRecord, Labelled;
    var chunk := Chunk(file, seqnum);
    var header := Header(|file|, seqnum, 32 + |chunk|, junk);
    ghost var rest := FourCopies(buffer, offset, header, name, md5, chunk);
    RecordParts(file, seqnum, header, junk, name, md5, rest);
  }

  /** Records 1 to `n` are in their places. */
  ghost predicate HasRecords(mem: seq<Byte>, file: seq<Byte>, n: nat) {
    && 1600 * n <= |mem|
    && forall k :: 1 <= k <= n ==> IsRecord(mem[1600 * (k - 1)..1600 * k], file, k)
  }

  ghost predicate AllLabelled(mem: seq<Byte>, name: seq<Byte>, md5: seq<Byte>, n: nat) {
    && 1600 * n <= |mem|
    && forall k :: 1 <= k <= n ==> Labelled(mem[1600 * (k - 1)..1600 * k], name, md5)
  }

  lemma SameRecord(was: seq<Byte>, mem: seq<Byte>, n: nat, k: nat)
    requires 1 <= k <= n && 1600 * n <= |was| && 1600 * n <= |mem| && mem[..1600 * n] == was[..1600 * n]
    ensures mem[1600 * (k - 1)..1600 * k] == was[1600 * (k - 1)..1600 * k]
  {
    assert mem[1600 * (k - 1)..1600 * k] == mem[..1600 * n][1600 * (k - 1)..1600 * k];
    assert was[1600 * (k - 1)..1600 * k] == was[..1600 * n][1600 * (k - 1)..1600 * k];
  }

  lemma OneMoreRecord(was: seq<Byte>, mem: seq<Byte>, file: seq<Byte>, name: seq<Byte>, md5: seq<Byte>, n: nat)
    requires HasRecords(was, file, n) && AllLabelled(was, name, md5, n) && 1600 * (n + 1) <= |mem|
    requires mem[..1600 * n] == was[..1600 * n]
    requires IsRecord(mem[1600 * n..1600 * (n + 1)], file, n + 1)
    requires Labelled(mem[1600 * n..1600 * (n + 1)], name, md5)
    ensures HasRecords(mem, file, n + 1) && AllLabelled(mem, name, md5, n + 1)
  {
    hide IsRecord, Labelled;
    forall k | 1 <= k <= n
      ensures IsRecord(mem[1600 * (k - 1)..1600 * k], file, k) && Labelled(mem[1600 * (k - 1)..1600 * k], name, md5)
    {
      SameRecord(was, mem, n, k);
    }
  }

  /** The packet loop of `run_tx`: one record per sequence number. The buffer arithmetic of
      the original is 32 bits wide. */
  method BuildRecords(file: seq<Byte>, name: seq<Byte>, md5: seq<Byte>) returns (buffer: array<Byte>)
    requires |name| == 16 && |md5| == 16
    requires 1600 * TxCount(|file|) < 0x1_0000_0000
    ensures fresh(buffer) && buffer.Length == 1600 * TxCount(|file|)
    ensures HasRecords(buffer[..], file, TxCount(|file|))
    ensures AllLabelled(buffer[..], name, md5, TxCount(|file|))
  {
    hide IsRecord, Labelled;
    buffer := new Byte[1600 * TxCount(|file|)](_ => 0);
    var seqnum := 1;
    while seqnum <= TxCount(|file|)
      invariant 1 <= seqnum <= TxCount(|file|) + 1
      invariant HasRecords(buffer[..], file, seqnum - 1)
      invariant AllLabelled(buffer[..], name, md5, seqnum - 1)
    {
      var a: Byte, b: Byte, c: Byte, d: Byte := *, *, *, *;
      ghost var was := buffer[..];
      FillRecord(buffer, file, name, md5, seqnum, [a, b, c, d]);
      OneMoreRecord(was, buffer[..], file, name, md5, seqnum - 1);
      seqnum := seqnum + 1;
    }
  }
}
