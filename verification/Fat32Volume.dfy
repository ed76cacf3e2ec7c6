/** The FAT32 driver's access to a volume: table entries, cluster allocation, whole-cluster copies.
    `disk` is the logical disk the block cache presents (module BlockCache). */
module Fat32Volume {
  import opened Arith
  import opened ByteSeq
  import opened Fat32Layout
  import opened Fat32Table

  /** Number of the block that holds an address, its offset there, and where a block starts. */
  function BlockOf(addr: nat, size: nat): nat
    requires 0 < size
  {
    addr / size
  }

  function OffsetIn(addr: nat, size: nat): nat
    requires 0 < size
  {
    addr % size
  }

  function BlockStart(block: nat, size: nat): nat {
    block * size
  }

  ghost predicate BlockShaped<T>(size: nat, d: seq<T>) {
    0 < size && size % 4 == 0 && |d| % size == 0
  }

  lemma FitsBlocks(g: Geometry, d: seq<byte>)
    requires Fits(g, d)
    ensures BlockShaped(g.blockSize, d) && g.Valid() && SECTOR_SIZE <= g.blockSize
  {
    hide Geometry.CluAddr, Geometry.CluSector, Geometry.DataAddr, Geometry.BytPerClu, Geometry.Entries;
  }

  lemma BlockInside(total: nat, size: nat, block: nat, pos: nat)
    requires 0 < size && total % size == 0 && pos < size
    requires BlockStart(block, size) + pos < total
    ensures BlockStart(block, size) + size == BlockStart(block + 1, size) <= total
  {
    var n := total / size;
    assert total == n * size;
    if n <= block {
      MulMonotone(n, block, size);
    } else {
      MulMonotone(block + 1, n, size);
    }
    assert (block + 1) * size == block * size + size;
  }

  /** Changing bytes of a cached block changes those bytes of the disk. */
  lemma PatchInBlock<T>(d: seq<T>, at: nat, size: nat, pos: nat, x: seq<T>)
    requires at + size <= |d| && pos + |x| <= size
    ensures Splice(d, at, Splice(d[at..at + size], pos, x)) == Splice(d, at + pos, x)
  {
  }

  /** A word at a 4-aligned address never straddles a block boundary. */
  lemma WordInBlock(addr: nat, size: nat, total: nat)
    requires addr % 4 == 0 && 0 < size && size % 4 == 0 && total % size == 0 && addr + 4 <= total
    ensures OffsetIn(addr, size) + 4 <= size
    ensures addr == BlockStart(BlockOf(addr, size), size) + OffsetIn(addr, size)
    ensures BlockStart(BlockOf(addr, size), size) + size <= total
  {
    var a, b := addr / 4, size / 4;
    assert addr == a * 4 && size == b * 4;
    assert a * 4 == (a / b) * (b * 4) + (a % b) * 4 by {
      assert a == (a / b) * b + a % b;
      assert ((a / b) * b) * 4 == (a / b) * (b * 4);
    }
    DivModUnique(a * 4, b * 4, a / b, (a % b) * 4);
    BlockInside(total, size, addr / size, addr % size);
  }

  /** Address of a table entry, as the 32-bit code computes it. */
  function EntryAddr32(g: Geometry, clu: nat): nat {
    U32(U32(g.FatAddr()) + U32(clu * 4))
  }

  lemma EntryAddressing(g: Geometry, d: seq<byte>, clu: nat)
    requires Fits(g, d) && clu < g.Entries()
    ensures EntryAddr32(g, clu) % 4 == 0 && EntryAddr32(g, clu) + 4 <= |d|
    ensures EntryAddr32(g, clu) == g.FatAddr() + 4 * clu
    ensures Fat(g, d)[clu] == FromLe32(d[EntryAddr32(g, clu)..EntryAddr32(g, clu) + 4])
    ensures BlockShaped(g.blockSize, d)
  {
    hide Fits, Geometry.FatBytes, Geometry.DataAddr, Geometry.Entries;
    EntryFits(g, d, clu);
    FitsBlocks(g, d);
    SmallAddress(g, clu);
  }

  lemma SmallAddress(g: Geometry, clu: nat)
    requires g.FatAddr() + 4 * clu < TWO32
    ensures EntryAddr32(g, clu) == g.FatAddr() + 4 * clu && EntryAddr32(g, clu) % 4 == 0
  {
    hide Geometry.FatAddr, U32;
    SmallSum(g.FatAddr(), 4 * clu);
    WordAligned(g, clu);
  }

  lemma WordAligned(g: Geometry, clu: nat)
    ensures (g.FatAddr() + 4 * clu) % 4 == 0
  {
    assert g.FatAddr() + 4 * clu == 4 * (128 * g.secReserved + clu);
  }

  lemma SmallSum(a: nat, b: nat)
    requires a + b < TWO32
    ensures U32(U32(a) + U32(b)) == a + b
  {
  }

  lemma EntryStored(g: Geometry, d: seq<byte>, clu: nat, v: nat)
    requires Fits(g, d) && clu < g.Entries() && v < TWO32
    requires EntryAddr32(g, clu) + 4 <= |d|
    ensures Splice(d, EntryAddr32(g, clu), Le32(v)) == WithEntry(g, d, clu, v)
  {
    EntryAddressing(g, d, clu);
  }

  lemma TableShape(g: Geometry, d: seq<byte>)
    requires Fits(g, d)
    ensures g.FatAddr() % 4 == 0 && 0 < g.blockSize && g.blockSize % 4 == 0
    ensures g.FatBytes() == 4 * |Fat(g, d)|
  {
    hide Fat, Geometry.DataAddr, Geometry.BytPerClu, Geometry.CluAddr, Geometry.FatBytes, Geometry.Entries;
    SectorsAreWords(g.blockSize);
    SectorsAreWords(g.FatAddr());
    FatBeforeData(g);
  }

  lemma SectorsAreWords(n: nat)
    requires n % SECTOR_SIZE == 0
    ensures n % 4 == 0
  {
    var k := n / SECTOR_SIZE;
    assert n == 4 * (128 * k);
  }

  ghost predicate OnBoundary(end: nat, size: nat) {
    0 < size && end % size == 0
  }

  /** Scanning from entry `c` to the end of its block stays within a table of `n` entries at `start`,
      when the table ends on a block boundary. */
  lemma ScanWindow(start: nat, size: nat, c: nat, n: nat)
    requires start % 4 == 0 && 0 < size && size % 4 == 0 && OnBoundary(start + 4 * n, size) && c < n
    ensures OffsetIn(start + 4 * c, size) + 4 <= size
    ensures c + (size - OffsetIn(start + 4 * c, size)) / 4 <= n
  {
    hide BlockStart, BlockOf, OffsetIn;
    WordInBlock(start + 4 * c, size, start + 4 * n);
  }

  /** Entries 0 and 1 stand for no cluster and are never free. */
  ghost predicate ReservedEntries(fat: seq<nat>) {
    2 <= |fat| && fat[0] != 0 && fat[1] != 0
  }

  lemma EntriesSmall(g: Geometry, d: seq<byte>)
    requires Fits(g, d)
    ensures g.Entries() < TWO32
  {
    hide Geometry.Entries;
  }

  /** Where the code starts copying a cluster. */
  lemma CluPlace(g: Geometry, d: seq<byte>, clu: nat)
    requires Fits(g, d) && 2 <= clu < g.Entries()
    ensures 0 < g.blockSize && SECTOR_SIZE <= g.blockSize && BlockShaped(g.blockSize, d)
    ensures Pos32(g, clu) < g.blockSize
    ensures BlockStart(Block32(g, clu), g.blockSize) + Pos32(g, clu) == g.CluAddr(clu)
    ensures g.CluAddr(clu) + g.BytPerClu() <= |d|
    ensures Clu(g, d, clu) == d[g.CluAddr(clu)..g.CluAddr(clu) + g.BytPerClu()]
  {
    FitsBlocks(g, d);
    CluFits(g, d, clu);
    EntriesSmall(g, d);
    hide Fits, Geometry.CluAddr, Geometry.CluSector, Geometry.BytPerClu, Geometry.DataAddr, Geometry.Entries;
    hide Block32, Pos32, BlockShaped, Geometry.Valid;
    ClusterAddressing(g, clu);
  }

  lemma CluStored(g: Geometry, d: seq<byte>, clu: nat, x: seq<byte>)
    requires Fits(g, d) && 2 <= clu < g.Entries() && |x| == g.BytPerClu()
    requires g.CluAddr(clu) + |x| <= |d|
    ensures Splice(d, g.CluAddr(clu), x) == WithClu(g, d, clu, x)
  {
    hide Fits, Geometry.CluAddr, Geometry.BytPerClu;
  }

  /** A block that has a byte of the disk lies wholly on it, and the next block follows. */
  lemma BlockNext<T>(d: seq<T>, size: nat, block: nat, pos: nat)
    requires BlockShaped(size, d) && pos < size && BlockStart(block, size) + pos < |d|
    ensures BlockStart(block, size) + size == BlockStart(block + 1, size) <= |d|
  {
    hide BlockStart;
    BlockInside(|d|, size, block, pos);
  }

  /** One turn of the store loop. */
  lemma StoreStep<T>(d: seq<T>, cur: seq<T>, addr: nat, x: seq<T>, done: nat, n: nat, size: nat, block: nat, pos: nat)
    requires addr + |x| <= |d| && done + n <= |x| && cur == Splice(d, addr, x[..done])
    requires pos + n <= size && BlockStart(block, size) + pos == addr + done
    requires BlockStart(block, size) + size <= |d|
    ensures Splice(cur, BlockStart(block, size),
        Splice(cur[BlockStart(block, size)..BlockStart(block, size) + size], pos, x[done..done + n]))
      == Splice(d, addr, x[..done + n])
  {
    hide BlockStart;
    PatchInBlock(cur, BlockStart(block, size), size, pos, x[done..done + n]);
    SpliceTwo(d, addr, x[..done], x[done..done + n]);
    assert x[..done] + x[done..done + n] == x[..done + n];
  }

  /** memcpy into a buffer. */
  method CopyIn<T>(a: array<T>, at: nat, x: seq<T>)
    requires at + |x| <= a.Length
    modifies a
    ensures a[..] == Splice(old(a[..]), at, x)
    ensures a[..at + |x|] == old(a[..at]) + x
  {
    forall i | 0 <= i < |x| {
      a[at + i] := x[i];
    }
  }

  class Volume {
    const g: Geometry
    var disk: seq<byte>

    constructor (g: Geometry, disk: seq<byte>)
      ensures this.g == g && this.disk == disk
    {
      this.g, this.disk := g, disk;
    }

    ghost predicate Valid()
      reads this
    {
      Fits(g, disk)
    }

    /** buffer_get: the block's bytes. */
    method GetBlock(block: nat) returns (data: seq<byte>)
      requires BlockStart(block, g.blockSize) + g.blockSize <= |disk|
      ensures data == disk[BlockStart(block, g.blockSize)..BlockStart(block, g.blockSize) + g.blockSize]
    {
      data := disk[BlockStart(block, g.blockSize)..BlockStart(block, g.blockSize) + g.blockSize];
    }

    /** A dirty block given back. */
    method PutDirty(block: nat, data: seq<byte>)
      requires BlockStart(block, g.blockSize) + g.blockSize <= |disk|
      requires |data| == g.blockSize
      modifies this`disk
      ensures disk == Splice(old(disk), BlockStart(block, g.blockSize), data)
    {
      disk := Splice(disk, BlockStart(block, g.blockSize), data);
    }

    /** The word at an address of the table, read through the cache. */
    method ReadWord(addr: nat) returns (v: nat)
      requires BlockShaped(g.blockSize, disk) && addr % 4 == 0 && addr + 4 <= |disk|
      ensures v == FromLe32(disk[addr..addr + 4])
    {
      hide BlockStart, BlockOf, OffsetIn;
      WordInBlock(addr, g.blockSize, |disk|);
      var block, pos := BlockOf(addr, g.blockSize), OffsetIn(addr, g.blockSize);
      var buf := GetBlock(block);
      SubSlice(disk, BlockStart(block, g.blockSize), g.blockSize, pos, 4);
      v := FromLe32(buf[pos..pos + 4]);
    }

    /** The word at an address of the table, stored through the cache. */
    method WriteWord(addr: nat, v: nat)
      requires BlockShaped(g.blockSize, disk) && addr % 4 == 0 && addr + 4 <= |disk| && v < TWO32
      modifies this`disk
      ensures disk == Splice(old(disk), addr, Le32(v))
    {
      hide BlockStart, BlockOf, OffsetIn, Splice, Le32;
      WordInBlock(addr, g.blockSize, |disk|);
      var block, pos := BlockOf(addr, g.blockSize), OffsetIn(addr, g.blockSize);
      var buf := GetBlock(block);
      PatchInBlock(disk, BlockStart(block, g.blockSize), g.blockSize, pos, Le32(v));
      PutDirty(block, Splice(buf, pos, Le32(v)));
    }

    method NextClu(clu: nat) returns (next: nat)
      requires Valid() && clu < g.Entries()
      ensures next == Fat(g, disk)[clu]
    {
      hide Fits, EntryAddr32;
      EntryAddressing(g, disk, clu);
      next := ReadWord(EntryAddr32(g, clu));
    }

    /** Stores one entry of the table. */
    method SetEntry(clu: nat, v: nat)
      requires Valid() && clu < g.Entries() && v < TWO32
      modifies this`disk
      ensures Valid()
      ensures Fat(g, disk) == Fat(g, old(disk))[clu := v]
      ensures forall k :: 2 <= k < g.Entries() ==> Clu(g, disk, k) == Clu(g, old(disk), k)
    {
      hide Fits, EntryAddr32;
      EntryAddressing(g, disk, clu);
      EntryStored(g, disk, clu, v);
      WithEntryEffect(g, disk, clu, v);
      WriteWord(EntryAddr32(g, clu), v);
    }

    /** Takes the lowest free entry and marks it as a chain's end; 0 when there is none. The scan counts
        whole blocks down, so the table has to end on a block boundary. */
    method GetClu() returns (clu: nat)
      requires Valid() && OnBoundary(g.FatAddr() + g.FatBytes(), g.blockSize)
      modifies this`disk
      ensures Valid()
      ensures var fat := Fat(g, old(disk)); var c := FirstFree(fat, 0);
        if c < |fat| then
          && clu == c
          && Fat(g, disk) == fat[c := END_MARK]
          && forall k :: 2 <= k < g.Entries() ==> Clu(g, disk, k) == Clu(g, old(disk), k)
        else clu == 0 && disk == old(disk)
    {
      hide Fits, OffsetIn, OnBoundary, Geometry.FatAddr, Geometry.FatBytes, Geometry.Entries, Fat;
      TableShape(g, disk);
      ghost var fat, c := Fat(g, disk), 0;
      var start, size := g.FatAddr(), g.blockSize;
      var readAddr, count := start, g.FatBytes();
      while count > 0
        invariant 0 <= c <= |fat| && readAddr == start + 4 * c && count == 4 * (|fat| - c)
        invariant disk == old(disk) && FirstFree(fat, 0) == FirstFree(fat, c)
      {
        ScanWindow(start, size, c, |fat|);
        var pos := OffsetIn(readAddr, size);
        var i, lookupNo := 0, (size - pos) / 4;
        ghost var c0 := c;
        while i < lookupNo
          invariant 0 <= i <= lookupNo && c == c0 + i && c0 + lookupNo <= |fat|
          invariant readAddr == start + 4 * c && count == 4 * (|fat| - c)
          invariant disk == old(disk) && FirstFree(fat, 0) == FirstFree(fat, c)
          decreases lookupNo - i
        {
          var word := NextClu((readAddr - start) / 4);
          if word == 0 {
            SetEntry((readAddr - start) / 4, END_MARK);
            return (readAddr - start) / 4;
          }
          i, readAddr, count := i + 1, readAddr + 4, count - 4;
          c := c + 1;
        }
      }
      return 0;
    }

    /** Walks to the last cluster of a file and links a fresh cluster behind it. With no free entry the
        failing search's 0 is linked all the same, which frees the last cluster. */
    method AllocClu(first: nat, ghost chain: seq<nat>) returns (clu: nat)
      requires Valid() && OnBoundary(g.FatAddr() + g.FatBytes(), g.blockSize)
      requires IsChain(Fat(g, disk), chain) && first == chain[0]
      requires ReservedEntries(Fat(g, disk))
      modifies this`disk
      ensures Valid()
      ensures var fat := Fat(g, old(disk)); var n := FirstFree(fat, 0);
        if n < |fat| then clu == n && 2 <= n && Fat(g, disk) == Appended(fat, chain, n)
        else clu == 0 && Fat(g, disk) == fat[chain[|chain| - 1] := 0]
      ensures forall k :: 2 <= k < g.Entries() ==> Clu(g, disk, k) == Clu(g, old(disk), k)
    {
      hide Fits, OnBoundary, Geometry.FatAddr, Geometry.FatBytes, Geometry.Entries, Fat, Clu;
      var last := first;
      var tmp := NextClu(last);
      ghost var i := 0;
      while InUse(tmp)
        invariant disk == old(disk) && Valid()
        invariant 0 <= i < |chain| && last == chain[i] && tmp == Fat(g, disk)[last]
        invariant i < |chain| - 1 ==> tmp == chain[i + 1]
        decreases |chain| - i
      {
        last := tmp;
        tmp := NextClu(tmp);
        i := i + 1;
      }
      clu := tmp;
      if End(clu) {
        clu := GetClu();
        SetEntry(last, clu);
      }
    }

    /** Stores one cluster, block by block. */
    method WriteClu(clu: nat, cluData: array<byte>)
      requires Valid() && 2 <= clu < g.Entries() && cluData.Length == g.BytPerClu()
      modifies this`disk
      ensures Valid()
      ensures Clu(g, disk, clu) == cluData[..] && Fat(g, disk) == Fat(g, old(disk))
      ensures forall k :: 2 <= k < g.Entries() && k != clu ==> Clu(g, disk, k) == Clu(g, old(disk), k)
    {
      hide Fits, BlockStart, Geometry.CluAddr, Geometry.BytPerClu, Geometry.Entries, Geometry.CluSector, Block32, Pos32;
      hide Clu, Fat, WithClu, Splice;
      CluPlace(g, disk, clu);
      CluStored(g, disk, clu, cluData[..]);
      WithCluEffect(g, disk, clu, cluData[..]);
      StoreBlocks(Block32(g, clu), Pos32(g, clu), cluData, g.CluAddr(clu));
    }

    /** The store loop, from a position in a block on. */
    method StoreBlocks(firstBlock: nat, firstPos: nat, cluData: array<byte>, ghost addr: nat)
      requires 0 < g.blockSize && BlockShaped(g.blockSize, disk) && addr + cluData.Length <= |disk|
      requires firstPos < g.blockSize && BlockStart(firstBlock, g.blockSize) + firstPos == addr
      modifies this`disk
      ensures disk == Splice(old(disk), addr, cluData[..])
    {
      hide Splice, BlockStart, BlockShaped;
      var block, pos := firstBlock, firstPos;
      var done, writeSize := 0, cluData.Length;
      ghost var d, x := disk, cluData[..];
      SpliceNone(d, addr);
      assert x[..0] == [];
      while writeSize > 0
        invariant 0 <= writeSize && 0 <= done && done + writeSize == cluData.Length
        invariant disk == Splice(d, addr, x[..done])
        invariant writeSize > 0 ==> 0 <= pos < g.blockSize && BlockStart(block, g.blockSize) + pos == addr + done
      {
        var write := g.blockSize - pos;
        if writeSize < write { write := writeSize; }
        BlockNext(d, g.blockSize, block, pos);
        StoreStep(d, disk, addr, x, done, write, g.blockSize, block, pos);
        var buf := GetBlock(block);
        assert cluData[done..done + write] == x[done..done + write];
        PutDirty(block, Splice(buf, pos, cluData[done..done + write]));
        done, writeSize, block, pos := done + write, writeSize - write, block + 1, 0;
      }
      assert x[..done] == x;
    }

    /** Loads one cluster into a new buffer, block by block. */
    method ReadClu(clu: nat) returns (cluData: array<byte>)
      requires Valid() && 2 <= clu < g.Entries()
      ensures fresh(cluData) && cluData[..] == Clu(g, disk, clu)
    {
      hide Fits, BlockStart, Geometry.CluAddr, Geometry.BytPerClu, Geometry.Entries, Geometry.CluSector, Block32, Pos32;
      ghost var addr := g.CluAddr(clu);
      CluPlace(g, disk, clu);
      cluData := new byte[g.BytPerClu()];
      var block, pos := Block32(g, clu), Pos32(g, clu);
      var done, readSize := 0, g.BytPerClu();
      while readSize > 0
        invariant 0 <= readSize && 0 <= done && done + readSize == cluData.Length
        invariant cluData[..done] == disk[addr..addr + done]
        invariant readSize > 0 ==> 0 <= pos < g.blockSize && BlockStart(block, g.blockSize) + pos == addr + done
      {
        var read := g.blockSize - pos;
        if readSize < read { read := readSize; }
        BlockNext(disk, g.blockSize, block, pos);
        var buf := GetBlock(block);
        SubSlice(disk, BlockStart(block, g.blockSize), g.blockSize, pos, read);
        CopyIn(cluData, done, buf[pos..pos + read]);
        JoinSlices(disk, addr, addr + done, addr + done + read);
        done, readSize, block, pos := done + read, readSize - read, block + 1, 0;
      }
      assert cluData[..done] == cluData[..];
    }
  }
}
