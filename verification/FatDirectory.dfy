/** Counting the items of a FAT directory. */
module FatDirectory {
  import opened Bits
  import opened Streamer

  const ITEM: int := 32
  const END_MARK: int := 0x00
  const UNUSED_MARK: int := 0xE5

  /** The first byte of item k of the directory that starts at byte `base`. */
  function Mark(disk: nat -> Sector, base: nat, k: nat): Octet {
    DiskByte(disk, base + 32 * k)
  }

  /** The items before t that are in use. */
  ghost function Used(disk: nat -> Sector, base: nat, t: nat): set<nat> {
    set k: nat | k < t && Mark(disk, base, k) != 0xe5
  }

  /** fat16_get_total_items_for_directory, for a directory with an end mark at item `last`
      or before; `t` is the first end mark. */
  method TotalItems(stream: Stream, startSector: nat, ghost last: nat) returns (res: int, ghost t: nat)
    requires stream.present ==> Mark(stream.disk, SECTOR * startSector, last) == END_MARK
    requires SECTOR * startSector + ITEM * (last + 1) < 0x8000_0000
    modifies stream
    ensures !stream.present ==> res == -EIO
    ensures stream.present ==>
      && t <= last && Mark(stream.disk, SECTOR * startSector, t) == END_MARK
      && (forall k: nat | k < t :: Mark(stream.disk, SECTOR * startSector, k) != END_MARK)
      && res == |Used(stream.disk, SECTOR * startSector, t)|
      && stream.pos == 512 * startSector + 32 * (t + 1)
      && DiskByte(stream.disk, 512 * startSector + 32 * t) == 0
  {
    t := 0;
    ghost var base := SECTOR * startSector;
    var item := new Octet[ITEM];
    var sought := stream.Seek(SECTOR * startSector);
    if sought != 0 {
      return -EIO, t;
    }
    var i := 0;
    while true
      invariant stream.pos == base + ITEM * t && t <= last
      invariant forall k: nat | k < t :: Mark(stream.disk, base, k) != END_MARK
      invariant i == |Used(stream.disk, base, t)|
      decreases last - t
    {
      ghost var pos := stream.pos;
      assert pos % SECTOR + ITEM <= SECTOR by { ItemInSector(startSector, t); }
      BufferSafeIff(pos, ITEM);
      var read := stream.Read(item, 0, ITEM);
      if read != 0 {
        return -EIO, t;
      }
      assert item[0] == Mark(stream.disk, base, t);
      if item[0] == END_MARK {
        return i, t;
      }
      UsedGrows(stream.disk, base, t);
      t := t + 1;
      if item[0] == UNUSED_MARK {
        continue;
      }
      i := i + 1;
    }
  }

  /** No item crosses a sector boundary. */
  lemma ItemInSector(startSector: nat, k: nat)
    ensures (SECTOR * startSector + ITEM * k) % SECTOR + ITEM <= SECTOR
  {
  }

  lemma UsedGrows(disk: nat -> Sector, base: nat, t: nat)
    ensures |Used(disk, base, t + 1)|
            == |Used(disk, base, t)| + if Mark(disk, base, t) != UNUSED_MARK then 1 else 0
  {
    if Mark(disk, base, t) != UNUSED_MARK {
      assert Used(disk, base, t + 1) == Used(disk, base, t) + {t};
    } else {
      assert Used(disk, base, t + 1) == Used(disk, base, t);
    }
  }
}
