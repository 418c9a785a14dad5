/** The disk stream: byte ranges read sector by sector. */
module Streamer {
  import opened Bits

  const SECTOR: int := 512
  const EIO: int := 1

  type Sector = s: seq<Octet> | |s| == 512 ghost witness seq(512, _ => 0)

  /** The disk as one long run of bytes. */
  function DiskByte(disk: nat -> Sector, i: nat): Octet {
    disk(i / 512)[i % 512]
  }

  function Slice(disk: nat -> Sector, pos: nat, total: nat): (s: seq<Octet>)
    ensures |s| == total
  {
    seq<Octet>(total, i requires 0 <= i < total => DiskByte(disk, pos + i))
  }

  /** Every access to the one-sector buffer made by a read stays inside it. */
  predicate BufferSafe(pos: nat, total: nat)
    decreases total
  {
    && pos % SECTOR + (if total > SECTOR then SECTOR else total) <= SECTOR
    && (total > SECTOR ==> BufferSafe(pos + SECTOR, total - SECTOR))
  }

  /** A read is safe exactly when it starts on a sector or stays inside one. */
  lemma {:induction false} BufferSafeIff(pos: nat, total: nat)
    ensures BufferSafe(pos, total) <==> pos % 512 == 0 || pos % 512 + total <= 512
    decreases total
  {
    if total > SECTOR {
      assert (pos + SECTOR) % SECTOR == pos % SECTOR;
      BufferSafeIff(pos + SECTOR, total - SECTOR);
    }
  }

  lemma SliceSplits(disk: nat -> Sector, pos: nat, n: nat, total: nat)
    requires n <= total
    ensures Slice(disk, pos, total) == Slice(disk, pos, n) + Slice(disk, pos + n, total - n)
  {
  }

  /** Byte k of a buffer that holds a slice after `before`. */
  lemma SliceByte(disk: nat -> Sector, pos: nat, total: nat, before: seq<Octet>, after: seq<Octet>, k: nat)
    requires |before| <= k < |before| + total
    ensures var i := pos + k - |before|;
      (before + Slice(disk, pos, total) + after)[k] == disk(i / 512)[i % 512]
  {
    assert Slice(disk, pos, total)[k - |before|] == DiskByte(disk, pos + (k - |before|));
  }

  class Stream {
    const disk: nat -> Sector
    const present: bool  // the stream's disk is the machine's disk
    var pos: int

    constructor (disk: nat -> Sector, present: bool)
      ensures this.disk == disk && this.present == present && pos == 0
    {
      this.disk, this.present, pos := disk, present, 0;
    }

    /** diskstreamer_seek. */
    method Seek(pos: int) returns (res: int)
      modifies this
      ensures this.pos == pos && res == 0
    {
      this.pos := pos;
      return 0;
    }

    /** The copying loop: n bytes of the sector at hand. */
    method CopyFromSector(out: array<Octet>, at: nat, n: nat)
      requires pos >= 0 && pos % SECTOR + n <= SECTOR && at + n <= out.Length
      modifies out
      ensures out[..] == old(out[..at]) + Slice(disk, pos, n) + old(out[at + n..])
    {
      var sector, offset := pos / SECTOR, pos % SECTOR;
      var buf := disk(sector);
      for i := 0 to n
        invariant forall k | 0 <= k < out.Length ::
          out[k] == if at <= k < at + i then DiskByte(disk, pos + (k - at)) else old(out[k])
      {
        assert (pos + i) / SECTOR == sector && (pos + i) % SECTOR == offset + i;
        out[at + i] := buf[offset + i];
      }
    }

    /** The recursion of diskstreamer_read, one sector a time. */
    method ReadSectors(out: array<Octet>, at: nat, total: nat) returns (res: int)
      requires 0 <= pos && pos + total < 0x8000_0000 && at + total <= out.Length
      requires BufferSafe(pos, total)
      modifies this, out
      ensures !present ==> res == -EIO && pos == old(pos) && out[..] == old(out[..])
      ensures present ==> res == 0 && pos == old(pos) + total
      ensures present ==> out[..] == old(out[..at]) + Slice(disk, old(pos), total) + old(out[at + total..])
      decreases total
    {
      hide Slice;
      if !present {
        return -EIO;
      }
      var n := if total > SECTOR then SECTOR else total;
      CopyFromSector(out, at, n);
      pos := pos + n;
      res := 0;
      if total > SECTOR {
        SliceSplits(disk, pos - n, n, total);
        res := ReadSectors(out, at + n, total - SECTOR);
      }
    }

    /** diskstreamer_read: the bytes [pos, pos + total) of the disk, and pos moves past them. */
    method Read(out: array<Octet>, at: nat, total: nat) returns (res: int)
      requires 0 <= pos && pos + total < 0x8000_0000 && at + total <= out.Length
      requires BufferSafe(pos, total)
      modifies this, out
      ensures !present ==> res == -EIO && pos == old(pos) && out[..] == old(out[..])
      ensures present ==> res == 0 && pos == old(pos) + total
      ensures present ==> forall k: nat | k < out.Length ::
        out[k] == if at <= k < at + total then disk((old(pos) + k - at) / 512)[(old(pos) + k - at) % 512]
                  else old(out[k])
    {
      res := ReadSectors(out, at, total);
      forall k: nat | k < out.Length && present
        ensures out[k] == if at <= k < at + total then disk((old(pos) + k - at) / 512)[(old(pos) + k - at) % 512]
                          else old(out[k])
      {
        assert out[k] == out[..][k];
        if at <= k < at + total {
          SliceByte(disk, old(pos), total, old(out[..at]), old(out[at + total..]), k);
        }
      }
    }
  }
}
