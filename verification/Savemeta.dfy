/**
 Saving and restoring metadata in savemeta.c: the writer, which trims zeros, the reader, which refills a buffer,
 and the ranges into which the pointers of an indirect block are put together.
 */
module Savemeta {
  import MetaPaths

  type Byte = b: nat | b < 256

  const RECORD_HEADER: nat := 10        // sizeof(struct saved_metablock)
  const BUFFER_SIZE: nat := 0x20_0000   // RESTORE_BUF_SIZE
  const TWO_16: nat := 0x1_0000

  // The n low bytes of x, most significant first.
  function BigEndian(x: nat, n: nat): (s: seq<Byte>)
    ensures |s| == n
  {
    if n == 0 then [] else BigEndian(x / 256, n - 1) + [x % 256]
  }

  function FromBigEndian(s: seq<Byte>): nat {
    if s == [] then 0 else FromBigEndian(s[..|s| - 1]) * 256 + s[|s| - 1]
  }

  ghost function Limit(n: nat): nat {
    if n == 0 then 1 else 256 * Limit(n - 1)
  }

  lemma {:induction false} BigEndianBack(x: nat, n: nat)
    ensures x < Limit(n) ==> FromBigEndian(BigEndian(x, n)) == x
  {
    if n > 0 {
      BigEndianBack(x / 256, n - 1);
      assert BigEndian(x, n)[..n - 1] == BigEndian(x / 256, n - 1);
    }
  }

  function ByteIn(x: nat, d: nat): Byte
    requires d > 0
  {
    x / d % 256
  }

  // The i-th byte from the front stands for 256^(n - 1 - i).
  lemma {:induction false} BigEndianAt(x: nat, n: nat, i: nat)
    requires i < n
    ensures Limit(n - 1 - i) > 0 && BigEndian(x, n)[i] == ByteIn(x, Limit(n - 1 - i)) == x / Limit(n - 1 - i) % 256
    decreases n
  {
    LimitPositive(n - 1 - i);
    if i < n - 1 {
      BigEndianAt(x / 256, n - 1, i);
      LimitPositive(n - 2 - i);
      DivideTwice(x, 256, Limit(n - 2 - i));
    }
  }

  lemma {:induction false} LimitPositive(n: nat)
    ensures Limit(n) > 0
  {
    if n > 0 {
      LimitPositive(n - 1);
    }
  }

  lemma DivideTwice(x: nat, a: nat, b: nat)
    requires a > 0 && b > 0
    ensures a * b > 0 && x / a / b == x / (a * b)
  {
    MetaPaths.ProductPositive(a, b);
    MetaPaths.QuotQuot(x, a, b, a * b);
    MetaPaths.DivIsQuot(x, a);
    MetaPaths.DivIsQuot(x / a, b);
    MetaPaths.DivIsQuot(x, a * b);
  }

  // The first byte counts most.
  lemma {:induction false} FirstCountsMost(b: Byte, s: seq<Byte>)
    ensures FromBigEndian([b] + s) == b * Limit(|s|) + FromBigEndian(s)
    decreases |s|
  {
    if s == [] {
      assert ([b] + s)[..0] == [];
      assert FromBigEndian([]) == 0;
    } else {
      var rest := s[..|s| - 1];
      assert ([b] + s)[..|s|] == [b] + rest;
      FirstCountsMost(b, rest);
    }
  }

  lemma Limits()
    ensures Limit(2) == TWO_16 && Limit(8) == 0x1_0000_0000_0000_0000
  {
    assert Limit(4) == 256 * 256 * Limit(2);
    assert Limit(6) == 256 * 256 * Limit(4);
  }

  lemma AllLimits()
    ensures Limit(0) == 1 && Limit(1) == 0x100 && Limit(2) == 0x1_0000 && Limit(3) == 0x100_0000
    ensures Limit(4) == 0x1_0000_0000 && Limit(5) == 0x100_0000_0000 && Limit(6) == 0x1_0000_0000_0000
    ensures Limit(7) == 0x100_0000_0000_0000
  {
    assert Limit(3) == 256 * Limit(2);
    assert Limit(4) == 256 * Limit(3);
    assert Limit(5) == 256 * Limit(4);
    assert Limit(6) == 256 * Limit(5);
    assert Limit(7) == 256 * Limit(6);
  }

  // An address and a length, byte by byte.
  lemma AddressBytes(addr: nat)
    ensures BigEndian(addr, 8) ==
      [ByteIn(addr, 0x100_0000_0000_0000), ByteIn(addr, 0x1_0000_0000_0000), ByteIn(addr, 0x100_0000_0000),
       ByteIn(addr, 0x1_0000_0000), ByteIn(addr, 0x100_0000), ByteIn(addr, 0x1_0000), ByteIn(addr, 0x100),
       ByteIn(addr, 1)]
  {
    hide BigEndian, Limit, ByteIn;
    AllLimits();
    forall i | 0 <= i < 8 ensures Limit(7 - i) > 0 && BigEndian(addr, 8)[i] == ByteIn(addr, Limit(7 - i)) {
      BigEndianAt(addr, 8, i);
    }
  }

  lemma LengthBytes(len: nat)
    ensures BigEndian(len % TWO_16, 2) == [ByteIn(len, 256), ByteIn(len, 1)]
  {
    hide BigEndian, Limit, ByteIn;
    AllLimits();
    LowBytes(len);
    BigEndianAt(len % TWO_16, 2, 0);
    BigEndianAt(len % TWO_16, 2, 1);
  }

  lemma LowBytes(len: nat)
    ensures ByteIn(len % TWO_16, 256) == ByteIn(len, 256) && ByteIn(len % TWO_16, 1) == ByteIn(len, 1)
  {
    var q, r := len / TWO_16, len % TWO_16;
    assert len == 256 * (q * 256 + r / 256) + r % 256;
    assert len / 256 == q * 256 + r / 256;
  }

  lemma AddressOfBytes(s: seq<Byte>)
    requires |s| == 8
    ensures FromBigEndian(s) ==
      s[0] as int * 0x100_0000_0000_0000 + s[1] as int * 0x1_0000_0000_0000 + s[2] as int * 0x100_0000_0000 +
      s[3] as int * 0x1_0000_0000 + s[4] as int * 0x100_0000 + s[5] as int * 0x1_0000 + s[6] as int * 0x100 + s[7]
  {
    hide FromBigEndian, Limit;
    AllLimits();
    forall i | 0 <= i < 8 ensures FromBigEndian(s[i..]) == s[i] * Limit(7 - i) + FromBigEndian(s[i + 1..]) {
      FirstCountsMost(s[i], s[i + 1..]);
      assert [s[i]] + s[i + 1..] == s[i..];
    }
    NoBytes();
    assert s[8..] == [] && s[0..] == s;
  }

  lemma LengthOfBytes(s: seq<Byte>)
    requires |s| == 2
    ensures FromBigEndian(s) == s[0] as int * 256 + s[1]
  {
    NoBytes();
    assert s[..1][..0] == [];
    assert s[..1] == [s[0]];
  }

  lemma NoBytes()
    ensures FromBigEndian([]) == 0
  {
  }

  // A block that is to be saved: its address and its significant bytes.
  datatype Save = Save(addr: nat, data: seq<Byte>)

  // The bytes without the zeros at their end.
  function Trim(s: seq<Byte>): (t: seq<Byte>)
    ensures |t| <= |s| && t == s[..|t|] && (forall i | |t| <= i < |s| :: s[i] == 0)
    ensures t == [] || t[|t| - 1] != 0
  {
    if s != [] && s[|s| - 1] == 0 then Trim(s[..|s| - 1]) else s
  }

  // A record of the saved stream; the length is cut to 16 bits.
  function Record(addr: nat, data: seq<Byte>): (r: seq<Byte>)
    ensures |r| == RECORD_HEADER + |data|
  {
    BigEndian(addr, 8) + BigEndian(|data| % TWO_16, 2) + data
  }

  // What the saved blocks look like in the stream: blocks without significant bytes are skipped.
  ghost function Stream(saves: seq<Save>): seq<Byte> {
    if saves == [] then []
    else Stream(saves[..|saves| - 1]) + Saved(saves[|saves| - 1])
  }

  ghost function Saved(s: Save): seq<Byte> {
    if Trim(s.data) == [] then [] else Record(s.addr, Trim(s.data))
  }

  class Writer {
    var out: seq<Byte>
    var blksSaved: nat

    constructor ()
      ensures out == [] && blksSaved == 0
    {
      out, blksSaved := [], 0;
    }

    // save_buf, without compression.
    method SaveBuf(buf: seq<Byte>, addr: nat, blklen0: nat, ghost saves: seq<Save>)
      requires blklen0 <= |buf| && out == Stream(saves)
      modifies this
      ensures out == Stream(saves + [Save(addr, buf[..blklen0])])
      // address and length, most significant byte first, and then the bytes themselves
      ensures
        var t := Trim(buf[..blklen0]);
        if t == [] then out == old(out)
        else
          out == old(out) + (
            [ByteIn(addr, 0x100_0000_0000_0000), ByteIn(addr, 0x1_0000_0000_0000), ByteIn(addr, 0x100_0000_0000),
             ByteIn(addr, 0x1_0000_0000), ByteIn(addr, 0x100_0000), ByteIn(addr, 0x1_0000), ByteIn(addr, 0x100),
             ByteIn(addr, 1), ByteIn(|t|, 256), ByteIn(|t|, 1)] + t)
    {
      hide Trim, Record, Stream, ByteIn;
      var blklen: nat := blklen0;
      StreamMore(saves, Save(addr, buf[..blklen0]));
      while blklen > 0 && buf[blklen - 1] == 0
        invariant blklen <= blklen0 && Trim(buf[..blklen]) == Trim(buf[..blklen0]) && out == old(out)
      {
        TrimOne(buf[..blklen]);
        assert buf[..blklen][..blklen - 1] == buf[..blklen - 1];
        blklen := blklen - 1;
      }
      TrimOne(buf[..blklen]);
      if blklen == 0 {
        assert buf[..blklen] == [];
        return;
      }
      RecordBytes(addr, buf[..blklen]);
      out := out + Record(addr, buf[..blklen]);
      blksSaved := blksSaved + 1;
    }
  }

  lemma StreamMore(saves: seq<Save>, s: Save)
    ensures Stream(saves + [s]) ==
      if Trim(s.data) == [] then Stream(saves) else Stream(saves) + Record(s.addr, Trim(s.data))
  {
    assert (saves + [s])[..|saves|] == saves;
  }

  lemma TrimOne(s: seq<Byte>)
    ensures Trim(s) == if s != [] && s[|s| - 1] == 0 then Trim(s[..|s| - 1]) else s
  {
  }

  // A record, byte by byte.
  lemma RecordBytes(addr: nat, data: seq<Byte>)
    ensures Record(addr, data) ==
      [ByteIn(addr, 0x100_0000_0000_0000), ByteIn(addr, 0x1_0000_0000_0000), ByteIn(addr, 0x100_0000_0000),
       ByteIn(addr, 0x1_0000_0000), ByteIn(addr, 0x100_0000), ByteIn(addr, 0x1_0000), ByteIn(addr, 0x100),
       ByteIn(addr, 1), ByteIn(|data|, 256), ByteIn(|data|, 1)] + data
  {
    hide BigEndian, ByteIn;
    AddressBytes(addr);
    LengthBytes(|data|);
  }

  // The header of a record gives back the address and the length, unless the length is the one that does not fit.
  lemma RecordHeader(addr: nat, data: seq<Byte>)
    requires addr < 0x1_0000_0000_0000_0000 && |data| <= TWO_16
    ensures FromBigEndian(Record(addr, data)[..8]) == addr
    ensures FromBigEndian(Record(addr, data)[8..10]) == |data| <==> |data| < TWO_16
    ensures Record(addr, data)[10..] == data
  {
    Limits();
    BigEndianBack(addr, 8);
    BigEndianBack(|data| % TWO_16, 2);
    assert Record(addr, data)[..8] == BigEndian(addr, 8);
    assert Record(addr, data)[8..10] == BigEndian(|data| % TWO_16, 2);
  }

  // The stream again, from record k on.
  ghost function StreamFrom(saves: seq<Save>, k: nat): seq<Byte>
    requires k <= |saves|
    decreases |saves| - k
  {
    if k == |saves| then [] else Saved(saves[k]) + StreamFrom(saves, k + 1)
  }

  lemma StreamSnoc(saves: seq<Save>, k: nat)
    requires k < |saves|
    ensures Stream(saves[..k + 1]) == Stream(saves[..k]) + Saved(saves[k])
  {
    assert saves[..k + 1][..k] == saves[..k];
  }

  lemma {:induction false} StreamSplit(saves: seq<Save>, k: nat)
    requires k <= |saves|
    ensures Stream(saves) == Stream(saves[..k]) + StreamFrom(saves, k)
    decreases |saves| - k
  {
    hide Stream, Saved;
    if k == |saves| {
      assert saves[..k] == saves;
      assert Stream(saves) + [] == Stream(saves);
    } else {
      StreamSplit(saves, k + 1);
      StreamSnoc(saves, k);
      var a, b, c := Stream(saves[..k]), Saved(saves[k]), StreamFrom(saves, k + 1);
      assert a + b + c == a + (b + c);
    }
  }

  // A device as the blocks written to it; all others hold zeros.
  type Device = map<nat, seq<Byte>>

  function Zeros(n: nat): (z: seq<Byte>)
    ensures |z| == n && forall i | 0 <= i < n :: z[i] == 0
  {
    seq(n, i => 0)
  }

  function Padded(data: seq<Byte>, bsize: nat): (p: seq<Byte>)
    requires |data| <= bsize
    ensures |p| == bsize && p[..|data|] == data && forall i | |data| <= i < bsize :: p[i] == 0
  {
    data + Zeros(bsize - |data|)
  }

  ghost function BlockOf(dev: Device, bsize: nat, b: nat): seq<Byte> {
    if b in dev then dev[b] else Zeros(bsize)
  }

  ghost predicate Restorable(s: Save, bsize: nat, fssize: nat) {
    && |Trim(s.data)| <= bsize && |Trim(s.data)| < TWO_16 && s.addr < 0x1_0000_0000_0000_0000
    && (fssize == 0 || s.addr < fssize)
  }

  ghost predicate Sized(saves: seq<Save>, bsize: nat) {
    forall i | 0 <= i < |saves| :: |Trim(saves[i].data)| <= bsize
  }

  // The records written in order, each padded to a whole block.
  ghost function Written(saves: seq<Save>, k: nat, bsize: nat, dev: Device): Device
    requires k <= |saves| && Sized(saves, bsize)
  {
    if k == 0 then dev
    else
      var before, s := Written(saves, k - 1, bsize, dev), saves[k - 1];
      if Trim(s.data) == [] then before else before[s.addr := Padded(Trim(s.data), bsize)]
  }

  // Trimmed zeros come back as zeros.
  lemma TrimPadded(data: seq<Byte>, bsize: nat)
    requires |data| <= bsize
    ensures Padded(Trim(data), bsize) == Padded(data, bsize)
  {
    var short := Trim(data);
    hide Trim;
    var a, b := Padded(short, bsize), Padded(data, bsize);
    forall i | 0 <= i < bsize ensures a[i] == b[i] {
      assert i < |short| ==> short[i] == data[i];
    }
  }

  lemma NothingPadded(bsize: nat)
    ensures Padded([], bsize) == Zeros(bsize)
  {
  }

  // When no block is saved twice, a restored device holds every saved block, and zeros elsewhere.
  lemma {:induction false} RestoredBlocks(saves: seq<Save>, k: nat, bsize: nat, b: nat)
    requires k <= |saves| && (forall i | 0 <= i < |saves| :: |saves[i].data| <= bsize)
    requires forall i, j | 0 <= i < j < |saves| :: saves[i].addr != saves[j].addr
    ensures forall i | 0 <= i < k && saves[i].addr == b ::
      BlockOf(Written(saves, k, bsize, map[]), bsize, b) == Padded(saves[i].data, bsize)
    ensures (forall i | 0 <= i < k :: saves[i].addr != b) ==> b !in Written(saves, k, bsize, map[])
  {
    hide Written, Trim, Padded, Zeros;
    if k == 0 {
      WrittenNone(saves, bsize, map[]);
    } else {
      RestoredBlocks(saves, k - 1, bsize, b);
      WrittenNext(saves, k - 1, bsize, map[]);
      TrimPadded(saves[k - 1].data, bsize);
      NothingPadded(bsize);
    }
  }

  class Restorer {
    const stream: seq<Byte>     // what the file holds
    const chunks: seq<nat>      // how many bytes the reads deliver at most, one after the other
    const bsize: nat
    const fssize: nat
    var pos: nat                // how much of the stream was read
    var readCount: nat
    var eof: bool
    var buf: seq<Byte>          // restore_buf
    var left: nat               // restore_left
    var off: nat                // restore_off
    var device: Device

    ghost predicate Valid()
      reads this`pos, this`buf, this`left, this`off, this`eof
    {
      && pos <= |stream| && |buf| == BUFFER_SIZE && off + left <= BUFFER_SIZE && (eof ==> pos == |stream|)
      && bsize <= BUFFER_SIZE
    }

    // What is still to come: the rest of the buffer, then the rest of the stream.
    ghost function Ahead(): seq<Byte>
      requires Valid()
      reads this`pos, this`buf, this`left, this`off, this`eof
    {
      buf[off..off + left] + stream[pos..]
    }

    constructor (stream: seq<Byte>, chunks: seq<nat>, bsize: nat, fssize: nat, device: Device)
      requires bsize <= BUFFER_SIZE
      ensures Valid() && Ahead() == stream && this.stream == stream && this.chunks == chunks
      ensures this.bsize == bsize && this.fssize == fssize && this.device == device && readCount == 0
      ensures left == 0 && !eof
    {
      this.stream, this.chunks, this.bsize, this.fssize, this.device := stream, chunks, bsize, fssize, device;
      pos, readCount, eof, left, off := 0, 0, false, 0, 0;
      buf := Zeros(BUFFER_SIZE);
    }

    // What the next read delivers when asked for len bytes.
    function Delivered(len: nat): nat
      requires pos <= |stream|
      reads this
    {
      var most := if readCount < |chunks| && chunks[readCount] < len then chunks[readCount] else len;
      if most < |stream| - pos then most else |stream| - pos
    }

    ghost predicate LargeChunks(n: nat) {
      forall i | 0 <= i < |chunks| :: chunks[i] >= n
    }

    lemma LargerChunks()
      requires Valid()
      ensures LargeChunks(BUFFER_SIZE) ==> LargeChunks(RECORD_HEADER) && LargeChunks(bsize)
    {
    }

    // mfd->read: the end of the file shows when fewer bytes arrive than were asked for.
    method Read(at: nat, len: nat) returns (ret: nat)
      requires Valid() && at + len <= BUFFER_SIZE
      modifies this`pos, this`readCount, this`eof, this`buf
      ensures ret == old(Delivered(len)) <= len && pos == old(pos) + ret && |buf| == BUFFER_SIZE
      ensures buf == old(buf)[..at] + stream[old(pos)..old(pos) + ret] + old(buf)[at + ret..]
      ensures eof <==> old(eof) || (ret < len && pos == |stream|)
    {
      ret := Delivered(len);
      buf := buf[..at] + stream[pos..pos + ret] + buf[at + ret..];
      pos, readCount := pos + ret, readCount + 1;
      if ret < len && pos == |stream| {
        eof := true;
      }
    }

    // restore_buf_next. It fails at the end of the stream, and when a read delivers fewer bytes than are missing.
    method RestoreBufNext(required: nat) returns (ok: bool, start: nat)
      requires Valid() && required <= BUFFER_SIZE
      modifies this`pos, this`readCount, this`eof, this`buf, this`left, this`off
      ensures ok <==> old(left) >= required || old(Delivered(BUFFER_SIZE - left)) >= required - old(left)
      ensures ok ==> Valid() && |old(Ahead())| >= required && start + required <= |buf|
      ensures ok ==> buf[start..start + required] == old(Ahead())[..required] && Ahead() == old(Ahead())[required..]
      ensures !ok && eof ==> |old(Ahead())| < required
      ensures !ok && LargeChunks(required) ==> eof
      ensures LargeChunks(BUFFER_SIZE) ==>
        var f := Fetched(|old(Ahead())|, old(left), old(eof), required);
        eof == f.1 && (ok ==> left == f.0 - required)
    {
      hide LargeChunks, Delivered, Fetched, Ahead;
      FetchedIs(|Ahead()|, left, eof, required);
      if left < required {
        ok := Refill(required);
        if !ok {
          return false, 0;
        }
      }
      start := Take(required);
      ok := true;
    }

    // The bytes asked for are in the buffer.
    method Take(required: nat) returns (start: nat)
      requires Valid() && left >= required
      modifies this`left, this`off
      ensures Valid() && |old(Ahead())| >= required && start + required <= |buf| && left == old(left) - required
      ensures buf[start..start + required] == old(Ahead())[..required] && Ahead() == old(Ahead())[required..]
    {
      Consumed(buf, off, left, required, stream[pos..]);
      start := off;
      left := left - required;
      off := off + required;
    }

    // Move what is left to the front of the buffer and read on behind it.
    method Refill(required: nat) returns (ok: bool)
      requires Valid() && left < required <= BUFFER_SIZE
      modifies this`pos, this`readCount, this`eof, this`buf, this`left, this`off
      ensures ok <==> old(Delivered(BUFFER_SIZE - left)) >= required - old(left)
      ensures ok ==> Valid() && Ahead() == old(Ahead()) && left >= required
      ensures !ok && eof ==> |old(Ahead())| < required
      ensures !ok && LargeChunks(required) ==> eof
      ensures LargeChunks(BUFFER_SIZE) ==>
        && eof == (old(eof) || |old(Ahead())| < BUFFER_SIZE)
        && (ok ==> left == if |old(Ahead())| < BUFFER_SIZE then |old(Ahead())| else BUFFER_SIZE)
    {
      ghost var tail, pos0 := buf[off..off + left], pos;
      buf := buf[off..off + left] + buf[left..];
      assert buf[..left] == tail;
      var ret := Read(left, BUFFER_SIZE - left);
      if ret < required - left {
        return false;
      }
      assert buf[..left + ret] == tail + stream[pos0..pos0 + ret];
      assert stream[pos0..] == stream[pos0..pos0 + ret] + stream[pos..];
      left := left + ret;
      off := 0;
      ok := true;
    }

    lemma Consumed(b: seq<Byte>, at: nat, n: nat, required: nat, rest: seq<Byte>)
      requires required <= n && at + n <= |b|
      ensures b[at..at + required] == (b[at..at + n] + rest)[..required]
      ensures b[at + required..at + required + (n - required)] + rest == (b[at..at + n] + rest)[required..]
      ensures |b[at..at + n] + rest| >= required
    {
    }

    // restore_block: the address and the bytes of the next record, if it is a whole one that may be restored.
    method RestoreBlock() returns (ok: bool, blk: nat, data: seq<Byte>)
      requires Valid()
      modifies this`pos, this`readCount, this`eof, this`buf, this`left, this`off
      ensures ok ==>
        var a := old(Ahead());
        && Valid() && Whole(a) && !Bad(a, bsize, fssize) && Ahead() == After(a)
        && blk == AddrOf(a) && data == DataOf(a) && |data| <= bsize
      // the address is in the first eight bytes and the length in the next two, most significant byte first
      ensures ok ==>
        var a := old(Ahead());
        && |a| >= 10 && |data| == a[8] as int * 256 + a[9] <= |a| - 10 && data == a[10..10 + |data|]
        && Ahead() == a[10 + |data|..]
        && blk == a[0] as int * 0x100_0000_0000_0000 + a[1] as int * 0x1_0000_0000_0000 +
                  a[2] as int * 0x100_0000_0000 + a[3] as int * 0x1_0000_0000 + a[4] as int * 0x100_0000 +
                  a[5] as int * 0x1_0000 + a[6] as int * 0x100 + a[7]
        && (fssize == 0 || blk < fssize)
      ensures !ok && eof ==> !Whole(old(Ahead())) || Bad(old(Ahead()), bsize, fssize)
      ensures !ok && LargeChunks(RECORD_HEADER) && LargeChunks(bsize) ==> eof || Bad(old(Ahead()), bsize, fssize)
      ensures LargeChunks(BUFFER_SIZE) ==>
        if ok then SeenEnd(old(Ahead()), old(left), old(eof), bsize, fssize) == SeenEnd(Ahead(), left, eof, bsize,
            fssize)
        else eof == SeenEnd(old(Ahead()), old(left), old(eof), bsize, fssize)
    {
      hide SeenEnd, FromBigEndian, Fetched, Delivered;
      blk, data := 0, [];
      ghost var ahead := Ahead();
      SeenStep(ahead, left, eof, bsize, fssize);
      var svb;
      ok, svb := RestoreBufNext(RECORD_HEADER);
      if !ok {
        return;
      }
      var header := buf[svb..svb + RECORD_HEADER];
      blk := FromBigEndian(header[..8]);
      var siglen := FromBigEndian(header[8..10]);
      assert header == ahead[..RECORD_HEADER] && header[..8] == ahead[..8] && header[8..10] == ahead[8..10];
      if fssize != 0 && blk >= fssize {
        return false, blk, data;
      }
      if siglen > bsize {
        return false, blk, data;
      }
      var start;
      ok, start := RestoreBufNext(siglen);
      if ok {
        data := buf[start..start + siglen];
        WholeParts(ahead, siglen);
        HeaderRead(ahead);
      }
    }

    // restore_data, writing to the device, for whatever the stream holds. With reads that deliver enough at a time
    // every whole record up to the first bad one is written; a bad record counts as an error only if the end of the
    // stream was not seen yet.
    method RestoreData() returns (rc: int)
      requires Valid()
      modifies this
      ensures rc == 0 ==> device == Restored(old(Ahead()), bsize, fssize, old(device)).0
      ensures LargeChunks(RECORD_HEADER) && LargeChunks(bsize) ==>
        var r := Restored(old(Ahead()), bsize, fssize, old(device));
        && device == r.0 && rc == if Bad(r.1, bsize, fssize) && !eof then -1 else 0
      // with reads that deliver all they are asked for, the stream alone tells whether its end was seen
      ensures LargeChunks(BUFFER_SIZE) ==>
        rc == if Bad(Restored(old(Ahead()), bsize, fssize, old(device)).1, bsize, fssize)
                 && !SeenEnd(old(Ahead()), old(left), old(eof), bsize, fssize)
              then -1 else 0
    {
      hide Bad, AddrOf, After, DataOf, Whole, Ahead, Restored, Padded, SeenEnd;
      ghost var ahead0, dev0, seen0 := Ahead(), device, SeenEnd(Ahead(), left, eof, bsize, fssize);
      LargerChunks();
      while true
        invariant Valid() && Restored(ahead0, bsize, fssize, dev0) == Restored(Ahead(), bsize, fssize, device)
        invariant LargeChunks(BUFFER_SIZE) ==> SeenEnd(Ahead(), left, eof, bsize, fssize) == seen0
        decreases |Ahead()|
      {
        ghost var a, dev := Ahead(), device;
        RestoredStep(a, bsize, fssize, dev);
        var ok, blk, bp := RestoreBlock();
        if !ok && eof {
          return 0;
        }
        if !ok {
          return -1;
        }
        device := device[blk := Padded(bp, bsize)];
      }
    }
  }

  // How many bytes are in the buffer, and whether the end of the stream was seen, once `required` bytes were asked for
  // with `ahead` bytes to come: reading on fills the buffer, and meets the end if it cannot.
  ghost function Fetched(ahead: int, left: int, seen: bool, required: int): (int, bool) {
    if left >= required then (left, seen)
    else (if ahead < BUFFER_SIZE then ahead else BUFFER_SIZE, seen || ahead < BUFFER_SIZE)
  }

  lemma FetchedIs(ahead: int, left: int, seen: bool, required: int)
    ensures left >= required ==> Fetched(ahead, left, seen, required) == (left, seen)
    ensures left < required ==>
      Fetched(ahead, left, seen, required) ==
        (if ahead < BUFFER_SIZE then ahead else BUFFER_SIZE, seen || ahead < BUFFER_SIZE)
  {
  }

  // Whether the end of the stream was seen when the records of `a` were read up to the first that is cut short or bad.
  ghost function SeenEnd(a: seq<Byte>, left: int, seen: bool, bsize: nat, fssize: nat): bool
    decreases |a|
  {
    var header := Fetched(|a|, left, seen, RECORD_HEADER);
    if |a| < RECORD_HEADER || Bad(a, bsize, fssize) then header.1
    else
      var data := Fetched(|a| - RECORD_HEADER, header.0 - RECORD_HEADER, header.1, LenOf(a));
      if !Whole(a) then data.1 else SeenEnd(After(a), data.0 - LenOf(a), data.1, bsize, fssize)
  }

  lemma SeenStep(a: seq<Byte>, left: int, seen: bool, bsize: nat, fssize: nat)
    ensures
      var header := Fetched(|a|, left, seen, RECORD_HEADER);
      if |a| < RECORD_HEADER || Bad(a, bsize, fssize) then SeenEnd(a, left, seen, bsize, fssize) == header.1
      else
        var data := Fetched(|a| - RECORD_HEADER, header.0 - RECORD_HEADER, header.1, LenOf(a));
        SeenEnd(a, left, seen, bsize, fssize) ==
          if Whole(a) then SeenEnd(After(a), data.0 - LenOf(a), data.1, bsize, fssize) else data.1
  {
  }

  lemma {:induction false} SeenStays(a: seq<Byte>, left: int, bsize: nat, fssize: nat)
    ensures SeenEnd(a, left, true, bsize, fssize)
    decreases |a|
  {
    if Whole(a) && !Bad(a, bsize, fssize) {
      var header := Fetched(|a|, left, true, RECORD_HEADER);
      var data := Fetched(|a| - RECORD_HEADER, header.0 - RECORD_HEADER, header.1, LenOf(a));
      SeenStays(After(a), data.0 - LenOf(a), bsize, fssize);
    }
  }

  // The end of a stream that is shorter than the buffer is seen at once, so that no bad record counts as an error.
  lemma ShortStream(a: seq<Byte>, bsize: nat, fssize: nat)
    requires |a| < BUFFER_SIZE
    ensures SeenEnd(a, 0, false, bsize, fssize)
  {
    if Whole(a) && !Bad(a, bsize, fssize) {
      var data := Fetched(|a| - RECORD_HEADER, |a| - RECORD_HEADER, true, LenOf(a));
      SeenStays(After(a), data.0 - LenOf(a), bsize, fssize);
    }
  }

  // It is not seen before a bad record from which on the stream could fill the buffer.
  lemma {:induction false} LongRest(a: seq<Byte>, left: int, bsize: nat, fssize: nat, dev: Device)
    requires var rest := Restored(a, bsize, fssize, dev).1; Bad(rest, bsize, fssize) && |rest| >= BUFFER_SIZE
    ensures !SeenEnd(a, left, false, bsize, fssize)
    decreases |a|
  {
    RestShorter(a, bsize, fssize, dev);
    if Whole(a) && !Bad(a, bsize, fssize) {
      var dev' := dev[AddrOf(a) := Padded(DataOf(a), bsize)];
      var header := Fetched(|a|, left, false, RECORD_HEADER);
      var data := Fetched(|a| - RECORD_HEADER, header.0 - RECORD_HEADER, header.1, LenOf(a));
      RestShorter(After(a), bsize, fssize, dev');
      LongRest(After(a), data.0 - LenOf(a), bsize, fssize, dev');
    }
  }

  lemma {:induction false} RestShorter(a: seq<Byte>, bsize: nat, fssize: nat, dev: Device)
    ensures |Restored(a, bsize, fssize, dev).1| <= |a|
    decreases |a|
  {
    if Whole(a) && !Bad(a, bsize, fssize) {
      RestShorter(After(a), bsize, fssize, dev[AddrOf(a) := Padded(DataOf(a), bsize)]);
    }
  }

  // What the next bytes of the stream say: the address and the length of a record, and its bytes.
  function AddrOf(a: seq<Byte>): nat
    requires |a| >= RECORD_HEADER
  {
    FromBigEndian(a[..8])
  }

  function LenOf(a: seq<Byte>): nat
    requires |a| >= RECORD_HEADER
  {
    FromBigEndian(a[8..10])
  }

  predicate Whole(a: seq<Byte>) {
    |a| >= RECORD_HEADER && |a| >= RECORD_HEADER + LenOf(a)
  }

  function DataOf(a: seq<Byte>): (d: seq<Byte>)
    requires Whole(a)
    ensures |d| == LenOf(a)
  {
    a[RECORD_HEADER..RECORD_HEADER + LenOf(a)]
  }

  function After(a: seq<Byte>): (r: seq<Byte>)
    requires Whole(a)
    ensures |r| < |a|
  {
    a[RECORD_HEADER + LenOf(a)..]
  }

  // The address is in the first eight bytes and the length in the next two, most significant byte first.
  lemma HeaderRead(a: seq<Byte>)
    ensures |a| >= 10 ==>
      && AddrOf(a) == a[0] as int * 0x100_0000_0000_0000 + a[1] as int * 0x1_0000_0000_0000 +
                      a[2] as int * 0x100_0000_0000 + a[3] as int * 0x1_0000_0000 + a[4] as int * 0x100_0000 +
                      a[5] as int * 0x1_0000 + a[6] as int * 0x100 + a[7]
      && LenOf(a) == a[8] as int * 256 + a[9]
  {
    if |a| >= 10 {
      hide FromBigEndian;
      AddressOfBytes(a[..8]);
      LengthOfBytes(a[8..10]);
    }
  }

  // A record that lies past the end of the device, or is longer than a block.
  predicate Bad(a: seq<Byte>, bsize: nat, fssize: nat) {
    |a| >= RECORD_HEADER && ((fssize != 0 && AddrOf(a) >= fssize) || LenOf(a) > bsize)
  }

  // The device after the records of a stream were written in order, each padded to a block, up to the first that is
  // cut short or bad; and what is left of the stream then.
  ghost function Restored(a: seq<Byte>, bsize: nat, fssize: nat, dev: Device): (Device, seq<Byte>)
    decreases |a|
  {
    if !Whole(a) || Bad(a, bsize, fssize) then (dev, a)
    else Restored(After(a), bsize, fssize, dev[AddrOf(a) := Padded(DataOf(a), bsize)])
  }

  lemma RestoredStep(a: seq<Byte>, bsize: nat, fssize: nat, dev: Device)
    ensures
      if !Whole(a) || Bad(a, bsize, fssize) then Restored(a, bsize, fssize, dev) == (dev, a)
      else
        && |DataOf(a)| <= bsize && |After(a)| < |a|
        && Restored(a, bsize, fssize, dev) == Restored(After(a), bsize, fssize,
                                                       dev[AddrOf(a) := Padded(DataOf(a), bsize)])
  {
  }

  lemma WholeParts(a: seq<Byte>, len: nat)
    requires |a| >= RECORD_HEADER && len == LenOf(a) <= |a[RECORD_HEADER..]|
    ensures Whole(a) && DataOf(a) == a[RECORD_HEADER..][..len] && After(a) == a[RECORD_HEADER..][len..]
  {
  }

  // A record that was saved is read back as it was.
  lemma RecordRead(s: Save, rest: seq<Byte>, bsize: nat, fssize: nat)
    requires Restorable(s, bsize, fssize)
    ensures
      var a := Record(s.addr, Trim(s.data)) + rest;
      && Whole(a) && !Bad(a, bsize, fssize)
      && AddrOf(a) == s.addr && DataOf(a) == Trim(s.data) && After(a) == rest
  {
    hide Trim, Record;
    var record := Record(s.addr, Trim(s.data));
    RecordHeader(s.addr, Trim(s.data));
    RecordParts(record, rest);
    var a := record + rest;
    assert a[..8] == record[..8] && a[8..10] == record[8..10];
  }

  // Reading back a saved stream writes every record and leaves nothing.
  lemma {:induction false} SavedIsRestored(saves: seq<Save>, k: nat, bsize: nat, fssize: nat, dev: Device)
    requires k <= |saves| && Sized(saves, bsize)
    requires forall i | 0 <= i < |saves| :: Restorable(saves[i], bsize, fssize)
    ensures Restored(StreamFrom(saves, k), bsize, fssize, Written(saves, k, bsize, dev)) == (Written(saves, |saves|,
      bsize, dev), [])
    decreases |saves| - k
  {
    hide Trim, Record, Restored, Written, StreamFrom, Sized, Bad, AddrOf, DataOf, After, Padded;
    var a, dev' := StreamFrom(saves, k), Written(saves, k, bsize, dev);
    RestoredStep(a, bsize, fssize, dev');
    if k == |saves| {
      StreamOver(saves);
    } else {
      StreamNext(saves, k);
      WrittenNext(saves, k, bsize, dev);
      SavedIsRestored(saves, k + 1, bsize, fssize, dev);
      if Trim(saves[k].data) != [] {
        RecordRead(saves[k], StreamFrom(saves, k + 1), bsize, fssize);
      }
    }
  }

  // The whole round trip: what restore_data makes of a stream that save_buf wrote.
  lemma RoundTrip(saves: seq<Save>, bsize: nat, fssize: nat, dev: Device)
    requires Sized(saves, bsize) && forall i | 0 <= i < |saves| :: Restorable(saves[i], bsize, fssize)
    ensures Restored(Stream(saves), bsize, fssize, dev) == (Written(saves, |saves|, bsize, dev), [])
  {
    StreamStart(saves);
    WrittenNone(saves, bsize, dev);
    SavedIsRestored(saves, 0, bsize, fssize, dev);
  }

  lemma RecordParts(record: seq<Byte>, rest: seq<Byte>)
    requires |record| >= RECORD_HEADER
    ensures (record + rest)[..RECORD_HEADER] == record[..RECORD_HEADER]
    ensures record[..RECORD_HEADER][..8] == record[..8] && record[..RECORD_HEADER][8..10] == record[8..10]
    ensures (record + rest)[RECORD_HEADER..] == record[RECORD_HEADER..] + rest
    ensures (record[RECORD_HEADER..] + rest)[..|record| - RECORD_HEADER] == record[RECORD_HEADER..]
    ensures (record[RECORD_HEADER..] + rest)[|record| - RECORD_HEADER..] == rest
  {
  }

  lemma StreamStart(saves: seq<Save>)
    ensures Stream(saves) == StreamFrom(saves, 0)
  {
    StreamSplit(saves, 0);
  }

  lemma WrittenNone(saves: seq<Save>, bsize: nat, dev: Device)
    requires Sized(saves, bsize)
    ensures Written(saves, 0, bsize, dev) == dev
  {
  }

  lemma WrittenNext(saves: seq<Save>, k: nat, bsize: nat, dev: Device)
    requires Sized(saves, bsize) && k < |saves|
    ensures |Trim(saves[k].data)| <= bsize
    ensures Trim(saves[k].data) != [] ==>
      var before := Written(saves, k, bsize, dev);
      Written(saves, k + 1, bsize, dev) == before[saves[k].addr := Padded(Trim(saves[k].data), bsize)]
    ensures Trim(saves[k].data) == [] ==> Written(saves, k + 1, bsize, dev) == Written(saves, k, bsize, dev)
  {
  }

  lemma StreamNext(saves: seq<Save>, k: nat)
    requires k < |saves|
    ensures StreamFrom(saves, k) ==
      if Trim(saves[k].data) == [] then StreamFrom(saves, k + 1)
          else Record(saves[k].addr, Trim(saves[k].data)) + StreamFrom(saves, k + 1)
  {
  }

  lemma StreamOver(saves: seq<Save>)
    ensures StreamFrom(saves, |saves|) == []
  {
  }

  // A range of consecutive blocks to be saved.
  datatype Range = Range(start: nat, len: nat)

  ghost function Blocks(r: Range): seq<nat> {
    seq(r.len, i requires 0 <= i => r.start + i)
  }

  ghost function Expanded(ranges: seq<Range>): seq<nat> {
    if ranges == [] then [] else Expanded(ranges[..|ranges| - 1]) + Blocks(ranges[|ranges| - 1])
  }

  // The pointers that are not null, each as often as it does not repeat the one before.
  ghost function Pointers(ptrs: seq<nat>): seq<nat> {
    if ptrs == [] then []
    else
      var before, p := Pointers(ptrs[..|ptrs| - 1]), ptrs[|ptrs| - 1];
      if p == 0 || (before != [] && p == before[|before| - 1]) then before else before + [p]
  }

  // What determines the pointers: none is null or repeats the one before, ...
  lemma {:induction false} PointersAre(ptrs: seq<nat>)
    ensures forall b :: b in Pointers(ptrs) <==> b in ptrs && b != 0
    ensures forall i | 0 < i < |Pointers(ptrs)| :: Pointers(ptrs)[i] != Pointers(ptrs)[i - 1]
  {
    if ptrs != [] {
      var n := |ptrs| - 1;
      PointersAre(ptrs[..n]);
      assert ptrs == ptrs[..n] + [ptrs[n]];
    }
  }

  // ... if that is so already they are as they were, ...
  lemma {:induction false} PointersKept(ptrs: seq<nat>)
    requires 0 !in ptrs && forall i | 0 < i < |ptrs| :: ptrs[i] != ptrs[i - 1]
    ensures Pointers(ptrs) == ptrs
  {
    if ptrs != [] {
      PointersKept(ptrs[..|ptrs| - 1]);
    }
  }

  // ... and what is null or repeats the one before might as well not be there.
  lemma {:induction false} PointersWithout(a: seq<nat>, b: seq<nat>, p: nat)
    requires p == 0 || (a != [] && a[|a| - 1] == p)
    ensures Pointers(a + [p] + b) == Pointers(a + b)
    decreases |b|
  {
    if b == [] {
      assert a + [p] + b == a + [p] && a + b == a && (a + [p])[..|a|] == a;
    } else {
      var n := |b| - 1;
      PointersWithout(a, b[..n], p);
      assert (a + [p] + b)[..|a| + 1 + n] == a + [p] + b[..n];
      assert (a + b)[..|a| + n] == a + b[..n];
    }
  }

  ghost predicate InRange(ranges: seq<Range>, b: nat) {
    exists i :: 0 <= i < |ranges| && ranges[i].start <= b < ranges[i].start + ranges[i].len
  }

  lemma RangesHave(ranges: seq<Range>, ptrs: seq<nat>)
    requires Expanded(ranges) == Pointers(ptrs)
    ensures forall b: nat :: InRange(ranges, b) <==> b in ptrs && b != 0
  {
    hide Expanded, Pointers, InRange;
    PointersAre(ptrs);
    forall b: nat ensures InRange(ranges, b) <==> b in ptrs && b != 0 {
      ExpandedHas(ranges, b);
    }
  }

  lemma {:induction false} ExpandedHas(ranges: seq<Range>, b: nat)
    ensures b in Expanded(ranges) <==> InRange(ranges, b)
  {
    if ranges != [] {
      var n := |ranges| - 1;
      ExpandedHas(ranges[..n], b);
      BlocksHas(ranges[n], b);
      assert ranges == ranges[..n] + [ranges[n]];
    }
  }

  lemma BlocksHas(r: Range, b: nat)
    ensures b in Blocks(r) <==> r.start <= b < r.start + r.len
  {
    if r.start <= b < r.start + r.len {
      assert Blocks(r)[b - r.start] == b;
    }
  }

  // The ranges handed over so far and the one in the making expand to these pointers, and no two could be one.
  ghost predicate Coalesced(ranges: seq<Range>, active: bool, br: Range, pointers: seq<nat>) {
    && Joined(if active then ranges + [br] else ranges)
    && Expanded(if active then ranges + [br] else ranges) == pointers
    && (active ==> pointers != [] && pointers[|pointers| - 1] == br.start + br.len - 1)
  }

  ghost predicate Joined(ranges: seq<Range>) {
    && (forall j | 0 <= j < |ranges| :: ranges[j].start > 0 && ranges[j].len > 0)
    && forall j | 0 < j < |ranges| :: ranges[j].start != ranges[j - 1].start + ranges[j - 1].len
  }

  lemma ExpandedMore(ranges: seq<Range>, r: Range)
    ensures Expanded(ranges + [r]) == Expanded(ranges) + Blocks(r)
  {
    assert (ranges + [r])[..|ranges|] == ranges;
  }

  // The range in the making grows by one block.
  lemma RangeGrows(ranges: seq<Range>, br: Range, pointers: seq<nat>)
    requires Coalesced(ranges, true, br, pointers)
    ensures Coalesced(ranges, true, br.(len := br.len + 1), pointers + [br.start + br.len])
  {
    hide Expanded, Joined;
    var br' := br.(len := br.len + 1);
    ExpandedMore(ranges, br);
    ExpandedMore(ranges, br');
    assert Blocks(br') == Blocks(br) + [br.start + br.len];
    JoinedGrows(ranges, br, br');
  }

  lemma JoinedGrows(ranges: seq<Range>, br: Range, br': Range)
    requires Joined(ranges + [br]) && br'.start == br.start && br'.len >= br.len
    ensures Joined(ranges + [br'])
  {
    var s, s' := ranges + [br], ranges + [br'];
    assert forall j | 0 <= j < |ranges| :: s[j] == s'[j];
    assert s[|ranges|] == br && s'[|ranges|] == br';
    forall j | 0 < j < |s'| ensures s'[j].start != s'[j - 1].start + s'[j - 1].len {
      assert s[j].start != s[j - 1].start + s[j - 1].len;
    }
  }

  // A new range starts; the one in the making, if any, is handed over.
  lemma RangeStarts(ranges: seq<Range>, active: bool, br: Range, pointers: seq<nat>, block: nat)
    requires Coalesced(ranges, active, br, pointers) && block > 0 && (active ==> block != br.start + br.len)
    requires !active ==> ranges == []
    ensures Coalesced(if active then ranges + [br] else ranges, true, Range(block, 1), pointers + [block])
  {
    hide Expanded, Joined;
    var ranges' := if active then ranges + [br] else ranges;
    ExpandedMore(ranges', Range(block, 1));
    JoinedMore(ranges', Range(block, 1));
    assert Blocks(Range(block, 1)) == [block];
  }

  lemma JoinedMore(ranges: seq<Range>, r: Range)
    requires Joined(ranges) && r.start > 0 && r.len > 0
    requires ranges != [] ==> r.start != ranges[|ranges| - 1].start + ranges[|ranges| - 1].len
    ensures Joined(ranges + [r])
  {
    var s := ranges + [r];
    assert forall j | 0 <= j < |ranges| :: s[j] == ranges[j];
  }

  lemma NextPointer(ptrs: seq<nat>, i: nat)
    requires i < |ptrs|
    ensures
      var before, p := Pointers(ptrs[..i]), ptrs[i];
      Pointers(ptrs[..i + 1]) == if p == 0 || (before != [] && p == before[|before| - 1]) then before else before + [p]
  {
    assert ptrs[..i + 1][..i] == ptrs[..i];
  }

  // save_indirect_blocks: the ranges it hands to save_indirect_range, which either queues a range, so that the next
  // one needs a new buffer, or saves it at once.
  method SaveIndirectBlocks(ptrs: seq<nat>, queued: bool) returns (ranges: seq<Range>)
    ensures Expanded(ranges) == Pointers(ptrs)
    // so exactly the blocks that are pointed to are saved
    ensures forall b: nat :: InRange(ranges, b) <==> b in ptrs && b != 0
    // and the ranges are as long as they can be
    ensures Joined(ranges)
  {
    hide Coalesced, Pointers, Expanded, Joined, InRange;
    ranges := [];
    var oldBlock: nat, active, br := 0, false, Range(0, 0);
    var i := 0;
    NoPointers();
    assert ptrs[..0] == [];
    while i < |ptrs|
      invariant i <= |ptrs| && Coalesced(ranges, active, br, Pointers(ptrs[..i]))
      invariant (!active ==> ranges == [] && oldBlock == 0)
      invariant active <==> Pointers(ptrs[..i]) != []
      invariant active ==> oldBlock == Pointers(ptrs[..i])[|Pointers(ptrs[..i])| - 1] && br.start > 0
    {
      var block := ptrs[i];
      NextPointer(ptrs, i);
      i := i + 1;
      if block == 0 || block == oldBlock {
        continue;
      }
      oldBlock := block;
      if active && block == br.start + br.len {
        RangeGrows(ranges, br, Pointers(ptrs[..i - 1]));
        br := br.(len := br.len + 1);
        continue;
      }
      RangeStarts(ranges, active, br, Pointers(ptrs[..i - 1]), block);
      var renew := !active;
      if active {
        ranges := ranges + [br];
        renew := queued;
      }
      if renew {
        br := Range(0, 0);
      }
      br, active := br.(start := block, len := 1), true;
    }
    assert ptrs[..i] == ptrs;
    CoalescedAll(ranges, active, br, Pointers(ptrs));
    if active && br.start != 0 {
      ranges := ranges + [br];
    }
    RangesHave(ranges, ptrs);
  }

  lemma CoalescedAll(ranges: seq<Range>, active: bool, br: Range, pointers: seq<nat>)
    requires Coalesced(ranges, active, br, pointers)
    ensures Joined(if active then ranges + [br] else ranges)
    ensures Expanded(if active then ranges + [br] else ranges) == pointers
  {
  }

  lemma NoPointers()
    ensures Pointers([]) == [] && forall br :: Coalesced([], false, br, [])
  {
  }

  // A stream of one record, for block 200 of a device that has 100: nothing is restored, and no error is returned.
  method BadRecordAtTheEnd() returns (rc: int, device: Device)
    ensures rc == 0 && device == map[]
  {
    var stream := Record(200, [1]);
    RecordHeader(200, [1]);
    var restorer := new Restorer(stream, [], 512, 100, map[]);
    assert Bad(stream, 512, 100);
    assert Restored(stream, 512, 100, map[]) == (map[], stream);
    ShortStream(stream, 512, 100);
    rc := restorer.RestoreData();
    device := restorer.device;
  }
}
