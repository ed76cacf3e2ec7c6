/** The two block operations of a volume, done through the cache. What they read and write is one sequence of
    bytes, the logical disk of the volume (Fat32Volume.Volume.GetBlock and PutDirty). */
module CachedVolume {
  import opened BlockCache
  import opened ByteSeq
  import opened Wrappers

  ghost predicate HasBlocks(v: map<Place, seq<byte>>, dev: Device, n: nat, size: nat) {
    forall k :: 0 <= k < n ==> (dev, k) in v && |v[(dev, k)]| == size
  }

  /** The first `n` blocks of a device in a row. */
  ghost function Flat(v: map<Place, seq<byte>>, dev: Device, n: nat, size: nat): seq<byte>
    requires HasBlocks(v, dev, n, size)
  {
    Flatten(seq(n, k requires 0 <= k < n => v[(dev, k)]))
  }

  /** Reading a block of the logical disk is reading its bytes, writing one is patching them. */
  lemma FlatBlock(v: map<Place, seq<byte>>, dev: Device, n: nat, size: nat, k: nat, x: seq<byte>)
    requires HasBlocks(v, dev, n, size) && k < n && |x| == size
    ensures HasBlocks(v[(dev, k) := x], dev, n, size)
    ensures k * size + size <= |Flat(v, dev, n, size)|
    ensures Flat(v, dev, n, size)[k * size..k * size + size] == v[(dev, k)]
    ensures Flat(v[(dev, k) := x], dev, n, size) == Splice(Flat(v, dev, n, size), k * size, x)
  {
    var p := seq(n, k requires 0 <= k < n => v[(dev, k)]);
    var q := seq(n, j requires 0 <= j < n => v[(dev, k) := x][(dev, j)]);
    assert q == p[k := x];
    var a, c := p[..k], p[k + 1..];
    assert p == a + [p[k]] + c && q == a + [x] + c;
    hide Flatten;
    FlattenThree(a, p[k], c);
    FlattenThree(a, x, c);
    FlattenSize(a, size);
    Middle(Flatten(a), p[k], Flatten(c), x);
  }

  lemma FlattenThree(a: seq<seq<byte>>, x: seq<byte>, c: seq<seq<byte>>)
    ensures Flatten(a + [x] + c) == Flatten(a) + x + Flatten(c)
  {
    FlattenConcat(a + [x], c);
    FlattenConcat(a, [x]);
    assert [x][..0] == [] && [] + x == x;
  }

  lemma Middle(a: seq<byte>, b: seq<byte>, c: seq<byte>, x: seq<byte>)
    requires |x| == |b|
    ensures (a + b + c)[|a|..|a| + |b|] == b && Splice(a + b + c, |a|, x) == a + x + c
  {
  }

  /** buffer_get, a look, buffer_put: the block as clients see it; nothing when every buffer is in use. */
  method GetBlock(c: Cache, dev: Device, block: nat) returns (r: Option<seq<byte>>)
    requires c.Valid() && dev in c.devices && block in dev.disk && c.RefOf((dev, block)) < 0xffff
    modifies c, c.pool, c.devices
    ensures c.Valid() && c.View() == old(c.View()) && (dev, block) in c.View()
    ensures r.None? <==> old((dev, block) !in c.at && c.free == [])
    ensures r.Some? ==> r.value == c.View()[(dev, block)]
  {
    hide Cache.Indexed, Cache.View, Cache.Listed;
    InView(c, dev, block);
    var b := c.BufferGet(dev, block);
    if b == null {
      return None;
    }
    InView(c, dev, block);
    r := Some(b.data);
    c.BufferPut(b);
  }

  lemma InView(c: Cache, dev: Device, block: nat)
    requires c.Valid() && dev in c.devices && block in dev.disk
    ensures (dev, block) in c.View()
    ensures (dev, block) in c.at ==> c.View()[(dev, block)] == c.at[(dev, block)].data
  {
  }

  /** buffer_get, a change, buffer_put: the block as clients see it is the new data. */
  method PutDirty(c: Cache, dev: Device, block: nat, data: seq<byte>) returns (ok: bool)
    requires c.Valid() && dev in c.devices && block in dev.disk && c.RefOf((dev, block)) < 0xffff
    modifies c, c.pool, c.devices
    ensures c.Valid() && ok == !old((dev, block) !in c.at && c.free == [])
    ensures c.View() == if ok then old(c.View())[(dev, block) := data] else old(c.View())
  {
    hide Cache.Indexed, Cache.View, Cache.Listed;
    var b := c.BufferGet(dev, block);
    ok := b != null;
    if ok {
      c.Modify(b, data);
      c.BufferPut(b);
    }
  }
}
