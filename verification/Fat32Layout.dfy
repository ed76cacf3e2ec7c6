/** Where a FAT32 volume keeps its table and its clusters, and the arithmetic that finds them. */
module Fat32Layout {
  import opened Arith
  import opened ByteSeq

  const SECTOR_SIZE: nat := 512

  /** What the boot sector says, with the cache's block size (4096 in the service, 1024 in the host tool). */
  datatype Geometry = Geometry(blockSize: nat, secReserved: nat, fats: nat, secPerFat: nat, secPerClu: nat) {
    function FatAddr(): nat { SECTOR_SIZE * secReserved }

    function FatBytes(): nat { secPerFat * SECTOR_SIZE }

    function Entries(): nat { secPerFat * (SECTOR_SIZE / 4) }

    function DataSector(): nat { secReserved + fats * secPerFat }

    function DataAddr(): nat { SECTOR_SIZE * DataSector() }

    function BytPerClu(): nat { SECTOR_SIZE * secPerClu }

    /** First sector of a cluster; the data area starts with cluster 2. */
    function CluSector(clu: nat): nat
      requires 2 <= clu
    {
      DataSector() + (clu - 2) * secPerClu
    }

    function CluAddr(clu: nat): nat
      requires 2 <= clu
    {
      DataAddr() + (clu - 2) * BytPerClu()
    }

    ghost predicate Valid() {
      && 0 < blockSize && blockSize % SECTOR_SIZE == 0
      && 0 < fats && 0 < secPerFat && 0 < secPerClu
      && DataAddr() < TWO32
      && blockSize * BytPerClu() <= TWO32
    }
  }

  /** Block number as the 32-bit code computes it. */
  function Block32(g: Geometry, clu: nat): nat
    requires SECTOR_SIZE <= g.blockSize
  {
    U32(U32(g.DataAddr() / SECTOR_SIZE) + U32(U32(clu - 2) * g.secPerClu)) / (g.blockSize / SECTOR_SIZE)
  }

  /** Offset within that block as the 32-bit code computes it. */
  function Pos32(g: Geometry, clu: nat): nat
    requires 0 < g.blockSize
  {
    U32(g.DataAddr() % g.blockSize + U32((U32(clu - 2) % g.blockSize) * g.BytPerClu()) % g.blockSize) % g.blockSize
  }

  /** A sector of the volume, as a block and an offset in it. */
  lemma SectorInBlock(sector: nat, perBlock: nat)
    requires 0 < perBlock
    ensures (sector / perBlock) * (SECTOR_SIZE * perBlock) + (SECTOR_SIZE * sector) % (SECTOR_SIZE * perBlock)
         == SECTOR_SIZE * sector
  {
    var q, r := sector / perBlock, sector % perBlock;
    assert SECTOR_SIZE * sector == q * (SECTOR_SIZE * perBlock) + SECTOR_SIZE * r by {
      assert sector == q * perBlock + r;
      assert (q * perBlock) * SECTOR_SIZE == q * (SECTOR_SIZE * perBlock);
    }
    DivModUnique(SECTOR_SIZE * sector, SECTOR_SIZE * perBlock, q, SECTOR_SIZE * r);
  }

  lemma CluAddrIsSector(g: Geometry, clu: nat)
    requires 2 <= clu
    ensures g.CluAddr(clu) == SECTOR_SIZE * g.CluSector(clu)
  {
    var n, k := clu - 2, g.secPerClu;
    assert n * (SECTOR_SIZE * k) == SECTOR_SIZE * (n * k);
  }

  /** The offset formula, without the 32-bit operations. */
  lemma OffsetOfCluster(g: Geometry, clu: nat)
    requires g.Valid() && 2 <= clu
    ensures (g.DataAddr() % g.blockSize + (((clu - 2) % g.blockSize) * g.BytPerClu()) % g.blockSize) % g.blockSize
         == g.CluAddr(clu) % g.blockSize
  {
    ModMul(clu - 2, g.BytPerClu(), g.blockSize);
    ModSum(g.DataAddr(), (clu - 2) * g.BytPerClu(), g.blockSize);
  }

  lemma SumStays(a: nat, b: nat, m: nat)
    requires 0 < m <= TWO32 / 2
    ensures U32(a % m + b % m) == a % m + b % m
  {
  }

  /** No 32-bit intermediate of the offset formula wraps. */
  lemma OffsetNoWrap(g: Geometry, clu: nat)
    requires g.Valid() && 2 <= clu < TWO32
    ensures Pos32(g, clu) == g.CluAddr(clu) % g.blockSize
  {
    var m, size := (clu - 2) % g.blockSize, g.BytPerClu();
    assert SECTOR_SIZE * g.blockSize <= TWO32 by { MulMonotone(SECTOR_SIZE, size, g.blockSize); }
    assert m * size < TWO32 by {
      MulMonotone(m + 1, g.blockSize, size);
      assert (m + 1) * size == m * size + size;
    }
    SumStays(g.DataAddr(), m * size, g.blockSize);
    OffsetOfCluster(g, clu);
  }

  lemma BlockNoWrap(g: Geometry, clu: nat)
    requires g.Valid() && 2 <= clu < TWO32 && g.CluSector(clu) < TWO32
    ensures Block32(g, clu) == g.CluSector(clu) / (g.blockSize / SECTOR_SIZE)
  {
    assert (clu - 2) * g.secPerClu < TWO32;
  }

  /** The author's "did not understand this" formula: block and offset together name the first byte
      of the cluster, for every cluster of a volume with fewer than 2^32 sectors. */
  lemma ClusterAddressing(g: Geometry, clu: nat)
    requires g.Valid() && 2 <= clu < TWO32 && g.CluSector(clu) < TWO32
    ensures Pos32(g, clu) < g.blockSize
    ensures Block32(g, clu) * g.blockSize + Pos32(g, clu) == g.CluAddr(clu)
  {
    var perBlock := g.blockSize / SECTOR_SIZE;
    assert g.blockSize == SECTOR_SIZE * perBlock;
    OffsetNoWrap(g, clu);
    BlockNoWrap(g, clu);
    CluAddrIsSector(g, clu);
    SectorInBlock(g.CluSector(clu), perBlock);
  }

  /** Both builds of the code meet the geometry's bound for every cluster size a boot sector can state. */
  lemma EveryClusterSizeFits(g: Geometry)
    requires g.blockSize == 4096 || g.blockSize == 1024
    requires 0 < g.secPerClu < 256 && 0 < g.fats && 0 < g.secPerFat && g.DataAddr() < TWO32
    ensures g.Valid()
  {
    assert g.BytPerClu() <= 255 * SECTOR_SIZE;
    if g.blockSize == 4096 {
      assert 4096 * g.BytPerClu() <= 4096 * (255 * SECTOR_SIZE);
    } else {
      assert 1024 * g.BytPerClu() <= 1024 * (255 * SECTOR_SIZE);
    }
  }

  /** Two clusters never share a byte, and none overlaps the table. */
  lemma ClustersApart(g: Geometry, a: nat, b: nat)
    requires g.Valid() && 2 <= a < b
    ensures g.FatAddr() + g.FatBytes() <= g.DataAddr() <= g.CluAddr(a)
    ensures g.CluAddr(a) + g.BytPerClu() <= g.CluAddr(b)
  {
    var n, m, k := a - 2, b - 2, g.BytPerClu();
    MulMonotone(n + 1, m, k);
    MulMonotone(0, n, k);
    assert (n + 1) * k == n * k + k;
    FatBeforeData(g);
  }

  lemma FatBeforeData(g: Geometry)
    requires g.Valid()
    ensures g.FatAddr() + g.FatBytes() <= g.DataAddr()
    ensures g.FatBytes() == 4 * g.Entries()
  {
    assert g.fats * g.secPerFat >= g.secPerFat;
  }
}
