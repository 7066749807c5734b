/** The contents of a block device and aligned reads of them (block.c, bdrv_aligned_preadv). */
module BlockDisk {
  import opened Prelude
  import opened Alignment

  const SECTOR := 512

  type Data = seq<byte>

  /** Byte p as a guest sees it: zero past the end. */
  function View(disk: Data, p: nat): byte {
    if p < |disk| then disk[p] else 0
  }

  function Extract(disk: Data, offset: nat, n: nat): (d: Data)
    ensures |d| == n
  {
    seq<byte>(n, k requires 0 <= k < n => View(disk, offset + k))
  }

  function Max(x: int, y: int): int {
    if x < y then y else x
  }

  /** disk once data is written at offset. */
  function Splice(disk: Data, offset: nat, data: Data): (d: Data)
    ensures |d| == Max(|disk|, offset + |data|)
  {
    seq<byte>(Max(|disk|, offset + |data|),
        p requires 0 <= p => if offset <= p < offset + |data| then data[p - offset] else View(disk, p))
  }

  /** Two disks that a guest cannot tell apart. */
  ghost predicate SameView(d: Data, e: Data) {
    forall p: nat :: View(d, p) == View(e, p)
  }

  lemma SpliceSame(d: Data, e: Data, offset: nat, data: Data)
    requires SameView(d, e)
    ensures SameView(Splice(d, offset, data), Splice(e, offset, data))
  {
    forall p: nat ensures View(Splice(d, offset, data), p) == View(Splice(e, offset, data), p) {
      assert View(d, p) == View(e, p);
    }
  }

  /** Data padded on both sides with what the disk has there changes the disk like the data alone. */
  lemma PaddedSplice(disk: Data, offset: nat, head: Data, data: Data, tail: Data)
    requires |head| <= offset
    requires head == Extract(disk, offset - |head|, |head|) && tail == Extract(disk, offset + |data|, |tail|)
    ensures SameView(Splice(disk, offset - |head|, head + data + tail), Splice(disk, offset, data))
  {
    var local, start := head + data + tail, offset - |head|;
    forall p: nat ensures View(Splice(disk, start, local), p) == View(Splice(disk, offset, data), p) {
      if start <= p < offset {
        assert local[p - start] == head[p - start];
      } else if offset <= p < offset + |data| {
        assert local[p - start] == data[p - offset];
      } else if offset + |data| <= p < start + |local| {
        assert local[p - start] == tail[p - (offset + |data|)];
      }
    }
  }

  /** Bytes outside the range written stay. */
  lemma ExtractApart(disk: Data, offset: nat, data: Data, o: nat, n: nat)
    requires o + n <= offset || offset + |data| <= o
    ensures Extract(Splice(disk, offset, data), o, n) == Extract(disk, o, n)
  {
    var disk' := Splice(disk, offset, data);
    forall k | 0 <= k < n ensures Extract(disk', o, n)[k] == Extract(disk, o, n)[k] {
      assert View(disk', o + k) == View(disk, o + k);
    }
  }

  /** What the driver puts into the buffer: past the end of the disk it may leave anything. */
  function DriverRead(disk: Data, junk: nat -> byte, offset: nat, n: nat): (d: Data)
    ensures |d| == n
  {
    seq<byte>(n, k requires 0 <= k < n => if offset + k < |disk| then disk[offset + k] else junk(k))
  }

  /** qemu_iovec_memset with zeros, clamped to the vector. */
  function Memset(buf: Data, from: nat, n: nat): (d: Data)
    ensures |d| == |buf|
  {
    seq<byte>(|buf|, k requires 0 <= k < |buf| => if from <= k < from + n then 0 else buf[k])
  }

  /** Bytes and sectors: alignment carries over. */
  lemma {:induction false} InSectors(align: nat, x: nat)
    requires align > 0 && Aligned(SECTOR, align) && Aligned(align, x)
    ensures align / SECTOR > 0 && x % SECTOR == 0 && Aligned(align / SECTOR, x / SECTOR)
    decreases x
  {
    var q := RemIsRemainder(SECTOR, align);
    if x >= align {
      InSectors(align, x - align);
      assert x / SECTOR == (x - align) / SECTOR + align / SECTOR;
    }
  }

  /** bdrv_aligned_preadv without copy on read: whatever the driver does past the end of the disk and
      whatever was in the buffer, the result is what the disk shows. */
  method AlignedRead(disk: Data, junk: nat -> byte, buf0: Data, align: nat, offset: nat, bytes: nat) returns (buf: Data)
    requires align > 0 && Aligned(SECTOR, align) && |disk| % SECTOR == 0
    requires Aligned(align, offset) && Aligned(align, bytes) && |buf0| == bytes
    ensures buf == Extract(disk, offset, bytes)
  {
    InSectors(align, offset);
    InSectors(align, bytes);
    var sectorNum, nbSectors := offset / SECTOR, bytes / SECTOR;
    var totalSectors := |disk| / SECTOR;
    var left := Max(0, totalSectors - sectorNum);
    var maxNbSectors := Up(align / SECTOR, left);
    UpAligned(align / SECTOR, left);
    buf := buf0;
    if nbSectors < maxNbSectors {
      NoneBetween(align / SECTOR, nbSectors, left);
      buf := DriverRead(disk, junk, offset, bytes);
    } else if maxNbSectors > 0 {
      var n := maxNbSectors * SECTOR;
      buf := DriverRead(disk, junk, offset, n) + buf0[n..];
    }
    if totalSectors < sectorNum + nbSectors {
      var zeros := (sectorNum + nbSectors - left) * SECTOR;
      buf := Memset(buf, left * SECTOR, zeros);
    }
    forall k | 0 <= k < bytes ensures buf[k] == Extract(disk, offset, bytes)[k] {
      assert Extract(disk, offset, bytes)[k] == View(disk, offset + k);
    }
  }

  /** An aligned x below the round-up of y is not above y. */
  lemma NoneBetween(a: nat, x: nat, y: nat)
    requires a > 0 && Aligned(a, x) && x < Up(a, y)
    ensures x <= y
  {
    UpAligned(a, y);
    DownAligned(a, y);
    if x > y {
      var d := Down(a, y);
      if x < d + a {
        RemShift(a, d, x - d);
      }
    }
  }
}
