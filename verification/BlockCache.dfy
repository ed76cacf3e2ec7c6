/** The disk buffer cache: a fixed pool of block buffers, each either referenced and on its device's
    list, or unreferenced and on the free list in release order, still caching its last block. */
module BlockCache {
  import opened Lists
  import opened ByteSeq

  const REF_MAX: nat := 0xffff  // the reference count is an unsigned short

  class Device {
    var firstBuffer: Buffer?
    var disk: map<nat, seq<byte>>

    constructor (disk: map<nat, seq<byte>>)
      ensures firstBuffer == null && this.disk == disk
    {
      firstBuffer, this.disk := null, disk;
    }
  }

  class Buffer {
    var next: Buffer?
    var prev: Buffer?
    var device: Device?
    var block: nat
    var data: seq<byte>
    var dirty: bool
    var reference: nat

    constructor ()
      ensures next == null && prev == null && device == null && block == 0 && !dirty && reference == 0
    {
      next, prev, device, block, data, dirty, reference := null, null, null, 0, [], false, 0;
    }
  }

  // ----- doubly linked lists of buffers -----

  ghost function First(s: seq<Buffer>): Buffer? { if s == [] then null else s[0] }

  ghost function Last(s: seq<Buffer>): Buffer? { if s == [] then null else s[|s| - 1] }

  ghost function At(s: seq<Buffer>, i: int): Buffer? { if 0 <= i < |s| then s[i] else null }

  ghost predicate Linked(s: seq<Buffer>)
    reads s
  {
    && Distinct(s)
    && (forall i {:trigger s[i].next} :: 0 <= i < |s| ==> s[i].next == At(s, i + 1))
    && (forall i {:trigger s[i].prev} :: 0 <= i < |s| ==> s[i].prev == At(s, i - 1))
  }

  twostate lemma LinkedFrame(s: seq<Buffer>)
    requires old(Linked(s))
    requires forall b :: b in s ==> b.next == old(b.next) && b.prev == old(b.prev)
    ensures Linked(s)
  {
    assert forall i :: 0 <= i < |s| ==> s[i] in s;
  }

  /** CHAIN_DELETE without the list head: the neighbours of entry `j` are joined. */
  method Unlink(b: Buffer, ghost s: seq<Buffer>, ghost j: nat)
    requires Linked(s) && j < |s| && s[j] == b
    modifies Elems(s)`next, Elems(s)`prev
    ensures Linked(Without(s, j))
    ensures b.next == old(b.next) && b.prev == old(b.prev)
  {
    if b.prev != null { b.prev.next := b.next; }
    if b.next != null { b.next.prev := b.prev; }
  }

  /** Insertion before the first entry. */
  method LinkFirst(b: Buffer, first: Buffer?, ghost s: seq<Buffer>)
    requires Linked(s) && b !in s && first == First(s)
    modifies b`next, b`prev, Elems(s)`prev
    ensures Linked([b] + s)
  {
    if first != null { first.prev := b; }
    b.next := first;
    b.prev := null;
  }

  /** Insertion behind the last entry. */
  method LinkLast(b: Buffer, last: Buffer?, ghost s: seq<Buffer>)
    requires Linked(s) && b !in s && last == Last(s)
    modifies b`next, b`prev, Elems(s)`next
    ensures Linked(s + [b])
  {
    if last != null { last.next := b; }
    b.prev := last;
    b.next := null;
  }

  /** `s` is `was` without its entry `b`. */
  ghost predicate TakenOut(s: seq<Buffer>, was: seq<Buffer>, b: Buffer) {
    exists j :: 0 <= j < |was| && was[j] == b && s == Without(was, j)
  }

  type Place = (Device, nat)

  class Cache {
    var head: Buffer?   // freebuf_head
    var tail: Buffer?   // freebuf_tail
    ghost var pool: set<Buffer>
    ghost var devices: set<Device>
    ghost var free: seq<Buffer>
    ghost var held: map<Device, seq<Buffer>>
    ghost var at: map<Place, Buffer>   // which buffer caches a block

    /** Every buffer but the loose ones is on exactly the list its reference count says. */
    ghost predicate Placed(loose: set<Buffer>)
      reads this, pool
    {
      && held.Keys == devices
      && (forall b :: b in free ==> b in pool && b !in loose && b.reference == 0)
      && (forall d, b :: d in devices && b in held[d] ==> b in pool && b !in loose && b.reference != 0 && b.device == d)
      && (forall b :: b in pool && b !in loose && b.reference == 0 ==> b in free)
      && (forall b :: b in pool && b !in loose && b.reference != 0 ==>
            b.device != null && b.device in devices && b in held[b.device])
    }

    ghost predicate ListsInPool()
      reads this
    {
      && (forall b :: b in free ==> b in pool)
      && (forall d, b :: d in held && b in held[d] ==> b in pool)
    }

    /** The lists are well-formed chains with the heads the code keeps. */
    ghost predicate Chained()
      requires ListsInPool()
      reads this, devices, pool
    {
      FreeLinked() && HeldLinked()
    }

    ghost predicate FreeLinked()
      requires ListsInPool()
      reads this, pool
    {
      Linked(free) && head == First(free) && tail == Last(free)
    }

    ghost predicate HeldLinked()
      requires ListsInPool()
      reads this, devices, pool
    {
      forall d :: d in devices && d in held ==> Linked(held[d]) && d.firstBuffer == First(held[d])
    }

    /** Device lists whose buffers kept their links are still well formed. */
    twostate lemma HeldFrame()
      requires old(ListsInPool()) && old(HeldLinked()) && ListsInPool()
      requires devices == old(devices) && held == old(held)
      requires forall d :: d in devices ==> d.firstBuffer == old(d.firstBuffer)
      requires forall d, b :: d in held && b in held[d] ==> b.next == old(b.next) && b.prev == old(b.prev)
      ensures HeldLinked()
    {
      forall d | d in devices && d in held
        ensures Linked(held[d])
      {
        LinkedFrame(held[d]);
      }
    }

    /** `at` finds each buffer that caches something, so no block has two; clean buffers agree with the device. */
    ghost predicate Indexed()
      reads this, pool, devices
    {
      && (forall b :: b in pool && b.device != null ==> (b.device, b.block) in at && at[(b.device, b.block)] == b)
      && (forall p :: p in at ==> at[p] in pool && at[p].device == p.0 && at[p].block == p.1)
      && (forall p :: p in at ==> p.0 in devices && p.1 in p.0.disk)
      && (forall p :: p in at && !at[p].dirty ==> at[p].data == p.0.disk[p.1])
      && (forall b :: b in pool && b.device == null ==> !b.dirty)
      && (forall b :: b in pool ==> b.reference <= REF_MAX)
    }

    ghost predicate Listed(loose: set<Buffer>)
      reads this, pool, devices
    {
      ListsInPool() && Placed(loose) && Chained()
    }

    ghost predicate Valid()
      reads this, pool, devices
    {
      Listed({}) && Indexed()
    }

    /** The block a client of the cache sees: the cached copy where there is one, else the device's. */
    ghost function Logical(d: Device, k: nat): seq<byte>
      requires d in devices && k in d.disk
      reads this, devices, pool, at.Values
    {
      if (d, k) in at then at[(d, k)].data else d.disk[k]
    }

    ghost function View(): (v: map<Place, seq<byte>>)
      reads this, devices, pool, at.Values
    {
      map d, k | d in devices && k in d.disk :: (d, k) := Logical(d, k)
    }

    /** Nothing that decides a buffer's list has changed. */
    twostate predicate SameKeys()
      reads this, pool
    {
      && pool == old(pool) && devices == old(devices)
      && (forall b :: b in pool ==> b.reference == old(b.reference) && b.device == old(b.device))
    }

    twostate lemma PlacedTake(j: nat)
      requires old(Listed({})) && SameKeys() && held == old(held)
      requires j < |old(free)| && free == Without(old(free), j)
      ensures ListsInPool() && Placed({old(free)[j]})
    {
      WithoutElems(old(free), j);
      hide Without, HeldLinked;
      var b := old(free)[j];
      assert b in old(free);
      assert forall d, x :: d in old(held) && x in old(held)[d] ==> x != b;
    }

    twostate lemma PlacedPut(b: Buffer)
      requires old(Listed({b})) && SameKeys() && held == old(held)
      requires b in pool && b.reference == 0 && free == old(free) + [b]
      ensures ListsInPool() && Placed({})
    {
      assert forall x :: x in free <==> x in old(free) || x == b;
    }

    /** No block of the logical disk has changed. */
    twostate predicate Unmoved()
      reads this, devices, pool, at.Values
    {
      && devices == old(devices)
      && (forall d :: d in devices ==> d.disk.Keys == old(d.disk.Keys))
      && (forall d, k :: d in devices && k in d.disk ==> Logical(d, k) == old(Logical(d, k)))
    }

    twostate lemma UnmovedView()
      requires Unmoved()
      ensures View() == old(View())
    {
    }

    /** List surgery leaves the index and the logical disk alone. */
    twostate lemma DataFrame()
      requires old(Indexed()) && pool == old(pool) && devices == old(devices) && at == old(at)
      requires forall d :: d in devices ==> d.disk == old(d.disk)
      requires forall x :: x in pool ==> x.reference == old(x.reference) || x.reference <= 0xffff
      requires forall x :: x in pool ==>
        x.device == old(x.device) && x.block == old(x.block) && x.data == old(x.data) && x.dirty == old(x.dirty)
      ensures Indexed() && View() == old(View())
    {
      assert Unmoved();
    }

    /** Takes the free buffer at position `j` off the free list. */
    method TakeFree(b: Buffer, ghost j: nat)
      requires Listed({}) && j < |free| && free[j] == b
      modifies this`head, this`tail, this`free, pool`next, pool`prev
      ensures Listed({b}) && free == Without(old(free), j)
    {
      hide Linked, Without;
      TakeLinks(b, j);
      free := Without(free, j);
      PlacedTake(j);
      HeldFrame();
    }

    method TakeLinks(b: Buffer, ghost j: nat)
      requires ListsInPool() && FreeLinked() && j < |free| && free[j] == b
      modifies this`head, this`tail, Elems(free)`next, Elems(free)`prev
      ensures Linked(Without(free, j)) && head == First(Without(free, j)) && tail == Last(Without(free, j))
    {
      if b.next == null { tail := b.prev; }
      if b.prev == null { head := b.next; }
      Unlink(b, free, j);
    }

    /** Puts a buffer without references at the end of the free list. */
    method FreePut(b: Buffer)
      requires Listed({b}) && b in pool && b.reference == 0
      modifies this`head, this`tail, this`free, pool`next, pool`prev
      ensures Listed({}) && free == old(free) + [b]
    {
      hide Linked;
      LinkLast(b, tail, free);
      tail := b;
      if head == null { head := b; }
      free := free + [b];
      PlacedPut(b);
      HeldFrame();
    }

    /** Device lists other than `d`'s, and the free list, kept their links. */
    twostate predicate OnlyListOf(d: Device)
      requires old(ListsInPool())
      reads this, pool, devices
    {
      && pool == old(pool) && devices == old(devices) && free == old(free)
      && head == old(head) && tail == old(tail)
      && (forall b :: b in free ==> b.next == old(b.next) && b.prev == old(b.prev))
      && (forall e :: e in devices && e != d ==> e.firstBuffer == old(e.firstBuffer))
      && (forall e, b :: e in old(held) && e != d && b in old(held)[e] ==> b.next == old(b.next) && b.prev == old(b.prev))
    }

    twostate lemma ChainedElsewhere(d: Device)
      requires old(ListsInPool()) && old(Chained()) && OnlyListOf(d) && ListsInPool() && d in devices
      requires d in held && held == old(held)[d := held[d]]
      requires Linked(held[d]) && d.firstBuffer == First(held[d])
      ensures Chained()
    {
      LinkedFrame(free);
      forall e | e in devices && e in held && e != d
        ensures Linked(held[e])
      {
        LinkedFrame(held[e]);
      }
    }

    twostate lemma PlacedHold(b: Buffer)
      requires b in old(pool) && old(Listed({b})) && old(b.device) != null && old(b.device) in devices
      requires pool == old(pool) && devices == old(devices) && free == old(free)
      requires forall x :: x in pool ==> x.device == old(x.device) && (x != b ==> x.reference == old(x.reference))
      requires b.reference != 0
      requires old(b.device) in old(held) && held == old(held)[old(b.device) := [b] + old(held)[old(b.device)]]
      ensures ListsInPool() && Placed({})
    {
    }

    /** The end of buffer_get: the buffer goes to the front of its device's list with one reference. */
    method Hold(b: Buffer, dev: Device)
      requires Listed({b}) && b in pool && dev in devices && b.device == dev && b.reference == 0
      modifies dev`firstBuffer, this`held, pool`next, pool`prev, b`reference
      ensures Listed({}) && b.reference == 1
      ensures dev in old(held) && held == old(held)[dev := [b] + old(held)[dev]]
    {
      hide Linked;
      LinkFirst(b, dev.firstBuffer, held[dev]);
      dev.firstBuffer := b;
      held := held[dev := [b] + held[dev]];
      b.reference := b.reference + 1;
      PlacedHold(b);
      ChainedElsewhere(dev);
    }

    twostate lemma PlacedRelease(b: Buffer)
      requires b in old(pool) && old(Listed({})) && old(b.device) != null && old(b.device) in devices
      requires pool == old(pool) && devices == old(devices) && free == old(free)
      requires forall x :: x in pool ==> x.device == old(x.device) && (x != b ==> x.reference == old(x.reference))
      requires old(b.reference) != 0 && b.reference == 0
      requires old(b.device) in old(held) && old(b.device) in held && held == old(held)[old(b.device) := held[old(b.device)]]
      requires forall x :: x in held[old(b.device)] <==> x in old(held)[old(b.device)] && x != b
      ensures ListsInPool() && Placed({b})
    {
    }

    lemma HeldAt(d: Device)
      requires Listed({}) && d in held
      ensures d in devices && Distinct(held[d]) && Linked(held[d]) && d.firstBuffer == First(held[d])
      ensures forall e, x :: e in held && x in held[e] ==> x in pool && x.device == e && x !in free
    {
    }

    /** The first part of buffer_put: dropping the last reference takes the buffer off its device's list. */
    method Release(b: Buffer, ghost j: nat)
      requires Listed({}) && b in pool && b.reference == 1 && b.device != null
      requires b.device in held && j < |held[b.device]| && held[b.device][j] == b
      modifies b.device`firstBuffer, this`held, pool`next, pool`prev, b`reference
      ensures Listed({b}) && b.reference == 0
      ensures b.device == old(b.device) && held == old(held)[b.device := Without(old(held)[b.device], j)]
    {
      hide Linked, Without, Placed, Chained, Distinct;
      var dev := b.device;
      ghost var s := held[dev];
      HeldAt(dev);
      b.reference := b.reference - 1;
      ReleaseLinks(b, dev, s, j);
      held := held[dev := Without(s, j)];
      WithoutElems(s, j);
      PlacedRelease(b);
      ChainedElsewhere(dev);
    }

    method ReleaseLinks(b: Buffer, dev: Device, ghost s: seq<Buffer>, ghost j: nat)
      requires Linked(s) && j < |s| && s[j] == b && dev.firstBuffer == First(s)
      modifies dev`firstBuffer, Elems(s)`prev, Elems(s)`next
      ensures Linked(Without(s, j)) && dev.firstBuffer == First(Without(s, j))
    {
      if b.prev == null { dev.firstBuffer := b.next; }
      Unlink(b, s, j);
    }

    /** The device holds what the buffer holds. */
    ghost predicate Synced(b: Buffer)
      reads b, b.device
    {
      b.device != null ==> b.block in b.device.disk && b.data == b.device.disk[b.block]
    }

    /** writeBlock before a buffer is reused. The logical disk does not change. */
    method WriteBack(b: Buffer)
      requires Indexed() && b in pool
      modifies devices`disk
      ensures Indexed() && Synced(b) && View() == old(View())
      ensures forall d :: d in devices ==> d.disk.Keys == old(d.disk.Keys)
    {
      if b.dirty {
        b.device.disk := b.device.disk[b.block := b.data];
      }
      assert Unmoved();
      UnmovedView();
    }

    /** Loads another block into a synced, unreferenced buffer. The logical disk does not change. */
    method Load(b: Buffer, dev: Device, block: nat)
      requires Indexed() && b in pool && b.reference == 0 && Synced(b)
      requires dev in devices && block in dev.disk && (dev, block) !in at
      modifies this`at, b`device, b`block, b`data, b`dirty
      ensures Indexed() && b.device == dev && b.block == block && !b.dirty && View() == old(View())
      ensures at == (if old(b.device) == null then old(at) else old(at) - {(old(b.device), old(b.block))})[(dev, block) := b]
    {
      hide Indexed, Unmoved, View;
      if b.device != null {
        at := at - {(b.device, b.block)};
      }
      b.block, b.device, b.dirty := block, dev, false;
      b.data := dev.disk[block];
      at := at[(dev, block) := b];
      LoadUnmoved(b);
      LoadIndexed(b);
      UnmovedView();
    }

    /** What Load does to the buffer and the index. */
    twostate predicate Loaded(b: Buffer)
      reads this, pool, devices, b, b.device
    {
      && b in old(pool) && pool == old(pool) && devices == old(devices)
      && (forall d :: d in devices ==> d.disk == old(d.disk))
      && b.device != null && b.device in devices && b.block in b.device.disk
      && (b.device, b.block) !in old(at) && b.data == b.device.disk[b.block]
      && at == (if old(b.device) == null then old(at) else old(at) - {(old(b.device), old(b.block))})[(b.device, b.block) := b]
      && (forall x :: x in old(pool) && x != b ==>
            x.data == old(x.data) && x.device == old(x.device) && x.block == old(x.block) && x.dirty == old(x.dirty))
      && (forall x :: x in old(pool) ==> x.reference == old(x.reference))
    }

    twostate lemma LoadIndexed(b: Buffer)
      requires old(Indexed()) && Loaded(b)
      ensures Indexed()
    {
    }

    twostate lemma LoadUnmoved(b: Buffer)
      requires b in old(pool) && old(Indexed()) && old(Synced(b)) && Loaded(b)
      ensures Unmoved()
    {
      forall d, k | d in devices && k in d.disk
        ensures Logical(d, k) == old(Logical(d, k))
      {
        if (d, k) in at && (d, k) in old(at) {
          assert at[(d, k)] == old(at)[(d, k)] != b;
        }
      }
    }

    /** buffer_get's search of the device list. */
    method FindHeld(dev: Device, block: nat) returns (b: Buffer?)
      requires Valid() && dev in devices
      ensures b != null ==> b in pool && b.reference != 0 && (dev, block) in at && at[(dev, block)] == b
      ensures b != null ==> b.device == dev && b.block == block
      ensures b == null ==> (dev, block) !in at || at[(dev, block)].reference == 0
    {
      ghost var s, i := held[dev], 0;
      b := dev.firstBuffer;
      while b != null
        invariant 0 <= i <= |s| && b == At(s, i)
        invariant forall k :: 0 <= k < i ==> s[k].block != block
        decreases |s| - i
      {
        assert b in s;
        if b.block == block {
          return;
        }
        b, i := b.next, i + 1;
      }
    }

    /** buffer_get's search of the free list, from the most recently released buffer back. */
    method FindFree(dev: Device, block: nat) returns (b: Buffer?, ghost j: nat)
      requires Valid() && dev in devices
      requires (dev, block) !in at || at[(dev, block)].reference == 0
      ensures b != null ==> j < |free| && free[j] == b && (dev, block) in at && at[(dev, block)] == b
      ensures b != null ==> b in pool && b.device == dev && b.block == block && b.reference == 0
      ensures b == null ==> (dev, block) !in at && head == First(free) && (head != null ==> head in pool)
    {
      b := tail;
      ghost var i := |free| - 1;
      while b != null
        invariant -1 <= i < |free| && b == At(free, i)
        invariant forall k :: i < k < |free| ==> !(free[k].device == dev && free[k].block == block)
        decreases i
      {
        assert b in free;
        if b.device == dev && b.block == block {
          j := i;
          return;
        }
        b, i := b.prev, i - 1;
      }
      j := 0;
    }

    /** Contents of a loose buffer and of the disks do not matter to the lists. */
    twostate lemma ListedFrame(b: Buffer)
      requires old(Listed({b})) && pool == old(pool) && devices == old(devices)
      requires free == old(free) && held == old(held) && head == old(head) && tail == old(tail)
      requires forall d :: d in devices ==> d.firstBuffer == old(d.firstBuffer)
      requires forall x :: x in pool ==> x.next == old(x.next) && x.prev == old(x.prev)
      requires forall x :: x in pool && x != b ==> x.reference == old(x.reference) && x.device == old(x.device)
      ensures Listed({b})
    {
      LinkedFrame(free);
      HeldFrame();
    }

    /** Eviction and load of a buffer that is on no list. */
    method Refill(b: Buffer, dev: Device, block: nat)
      requires Listed({b}) && Indexed() && b in pool && b.reference == 0
      requires dev in devices && block in dev.disk && (dev, block) !in at
      modifies this`at, b`device, b`block, b`data, b`dirty, devices`disk
      ensures Listed({b}) && Indexed() && View() == old(View())
      ensures forall d :: d in devices ==> d.disk.Keys == old(d.disk.Keys)
      ensures b.device == dev && b.block == block && (dev, block) in at && at[(dev, block)] == b
    {
      hide Indexed, View, Listed, Synced;
      WriteBack(b);
      Load(b, dev, block);
      ListedFrame(b);
    }

    lemma FreeIsUnreferenced(j: nat)
      requires Listed({}) && j < |free|
      ensures free[j] in pool && free[j].reference == 0
    {
      assert free[j] in free;
    }

    /** Buffers other than `b` in use are as they were. */
    twostate predicate OthersKept(b: Buffer)
      reads this, pool
    {
      && pool == old(pool)
      && (forall x :: x in pool && x != b ==> x.reference == old(x.reference))
      && (forall x :: x in pool && x != b ==>
            x.device == old(x.device) && x.block == old(x.block) && x.data == old(x.data) && x.dirty == old(x.dirty))
    }

    ghost function RefOf(p: Place): nat
      reads this, at.Values
    {
      if p in at then at[p].reference else 0
    }

    /** freebuf_get and the unlinking in buffer_get, with their effect on the cached data: none. */
    method Take(b: Buffer, ghost j: nat)
      requires Valid() && j < |free| && free[j] == b
      modifies this`head, this`tail, this`free, pool`next, pool`prev
      ensures Listed({b}) && Indexed() && View() == old(View()) && b in pool && b.reference == 0
      ensures free == Without(old(free), j)
    {
      hide Indexed, View, Listed, Without;
      FreeIsUnreferenced(j);
      TakeFree(b, j);
      DataFrame();
    }

    method Keep(b: Buffer, dev: Device)
      requires Listed({b}) && Indexed() && b in pool && dev in devices && b.device == dev && b.reference == 0
      modifies this`held, pool`next, pool`prev, b`reference, dev`firstBuffer
      ensures Valid() && View() == old(View()) && b.reference == 1
    {
      hide Indexed, View, Listed;
      Hold(b, dev);
      DataFrame();
    }

    /** The cached block is still cached: the free buffer goes back to its device's list. */
    method Reuse(b: Buffer, ghost j: nat)
      requires Valid() && j < |free| && free[j] == b && b.device != null && b.device in devices
      modifies this`head, this`tail, this`free, this`held, pool`next, pool`prev, b`reference, b.device`firstBuffer
      ensures Valid() && View() == old(View()) && b.reference == 1 && at == old(at)
      ensures OthersKept(b) && b.device == old(b.device) && b.block == old(b.block)
      ensures free == Without(old(free), j)
    {
      hide Indexed, View, Listed, Without;
      Take(b, j);
      Keep(b, b.device);
    }

    /** The oldest free buffer is written back if dirty and loaded with the block. */
    method Recycle(b: Buffer, dev: Device, block: nat)
      requires Valid() && free != [] && b == free[0]
      requires dev in devices && block in dev.disk && (dev, block) !in at
      modifies this`head, this`tail, this`free, this`held, this`at, pool`next, pool`prev
      modifies b`reference, b`device, b`block, b`data, b`dirty, devices`firstBuffer, devices`disk
      ensures Valid() && View() == old(View()) && b.reference == 1
      ensures b.device == dev && b.block == block && (dev, block) in at && at[(dev, block)] == b
      ensures OthersKept(b) && free == Without(old(free), 0)
      ensures forall d :: d in devices ==> d.disk.Keys == old(d.disk.Keys)
    {
      hide Indexed, View, Listed, Without;
      Take(b, 0);
      Refill(b, dev, block);
      Keep(b, dev);
    }

    /** One more reference to a buffer in use, in a 16-bit counter. */
    method Share(b: Buffer)
      requires Valid() && b in pool && b.reference != 0
      modifies b`reference
      ensures b.reference == (old(b.reference) + 1) % 0x1_0000
      ensures View() == old(View()) && OthersKept(b) && (Valid() <==> old(b.reference) < 0xffff)
    {
      hide Indexed, View, Listed;
      InUse(b);
      b.reference := (b.reference + 1) % (REF_MAX + 1);
      SharedView();
      if b.reference != 0 {
        SharedKeeps(b);
      } else {
        SharedBreaks(b);
      }
    }

    lemma InUse(b: Buffer)
      requires Valid() && b in pool && b.reference != 0
      ensures b.reference <= 0xffff && b.device != null && b.device in devices
      ensures b.device in held && b in held[b.device]
    {
    }

    twostate lemma SharedKeeps(b: Buffer)
      requires old(Valid()) && b in old(pool) && unchanged(this) && old(b.reference) != 0 && 0 < b.reference <= 0xffff
      requires forall d :: d in devices ==> d.disk == old(d.disk) && d.firstBuffer == old(d.firstBuffer)
      requires OthersKept(b) && b.device == old(b.device) && b.block == old(b.block) && b.data == old(b.data) && b.dirty == old(b.dirty)
      requires forall x :: x in pool ==> x.next == old(x.next) && x.prev == old(x.prev)
      ensures Valid()
    {
      LinkedFrame(free);
      HeldFrame();
    }

    twostate lemma SharedView()
      requires unchanged(this) && forall d :: d in devices ==> d.disk == old(d.disk)
      requires forall p :: p in at ==> at[p].data == old(at[p].data)
      ensures View() == old(View())
    {
    }

    /** A buffer on a device's list whose count has wrapped to 0 is out of place. */
    lemma SharedBreaks(b: Buffer)
      requires b.device != null && b.device in devices && b.device in held && b in held[b.device] && b.reference == 0
      ensures !Valid()
    {
    }

    /** buffer_init: `n` empty buffers, all free. */
    constructor (devs: set<Device>, n: nat)
      requires forall d :: d in devs ==> d.firstBuffer == null
      ensures Valid() && devices == devs && fresh(pool) && |free| == n && at == map[]
    {
      hide Indexed, View, Listed;
      head, tail, pool, free, devices, at := null, null, {}, [], devs, map[];
      held := map d | d in devs :: [];
      new;
      EmptyValid();
      for i := 0 to n
        invariant Valid() && devices == devs && fresh(pool) && |free| == i && at == map[]
        modifies this, pool
      {
        var b := new Buffer();
        Adopt(b);
      }
    }

    lemma EmptyValid()
      requires head == null && tail == null && pool == {} && free == [] && at == map[]
      requires held.Keys == devices && forall d :: d in devices ==> held[d] == [] && d.firstBuffer == null
      ensures Valid()
    {
    }

    method Adopt(b: Buffer)
      requires Valid() && b !in pool && b.device == null && !b.dirty && b.reference == 0
      modifies this`head, this`tail, this`free, this`pool, pool`next, pool`prev, b`next, b`prev
      ensures Valid() && pool == old(pool) + {b} && free == old(free) + [b]
    {
      hide Indexed, View, Listed;
      AddLoose(b);
      label Added:
      FreePut(b);
      DataFrame@Added();
    }

    method AddLoose(b: Buffer)
      requires Valid() && b !in pool && b.device == null && !b.dirty && b.reference == 0
      modifies this`pool
      ensures Listed({b}) && Indexed() && pool == old(pool) + {b}
    {
      pool := pool + {b};
    }

    /** Finds or loads a block and takes a reference to it. A block that is not cached takes the place of the one in
        the oldest free buffer. The 16-bit count wraps at its limit, and exactly then the cache's invariant is
        lost. */
    method BufferGet(dev: Device, block: nat) returns (b: Buffer?)
      requires Valid() && dev in devices && block in dev.disk
      modifies this`head, this`tail, this`free, this`held, this`at, pool, devices
      ensures View() == old(View()) && (forall d :: d in devices ==> d.disk.Keys == old(d.disk.Keys))
      ensures Valid() <==> old(RefOf((dev, block))) < 0xffff
      ensures b == null <==> old((dev, block) !in at && free == [])
      ensures b == null ==> unchanged(this, pool, devices)
      ensures b != null ==> b in pool && old(allocated(b)) && OthersKept(b)
      ensures b != null ==> (dev, block) in at && at[(dev, block)] == b && b.device == dev && b.block == block
      ensures b != null ==> b.reference == (old(RefOf((dev, block))) + 1) % 0x1_0000
      ensures old(RefOf((dev, block))) > 0 ==> b == old(at)[(dev, block)] && free == old(free)
      ensures old((dev, block) in at && RefOf((dev, block)) == 0) ==> b == old(at)[(dev, block)] && TakenOut(free, old(free), b)
      ensures b != null && old((dev, block) !in at) ==> b == old(free)[0] && free == old(free)[1..]
    {
      hide Indexed, View, Listed, Without;
      b := FindHeld(dev, block);
      if b != null {
        Share(b);
        return;
      }
      ghost var j;
      b, j := FindFree(dev, block);
      if b != null {
        Reuse(b, j);
        return;
      }
      if head != null {
        b := head;
        WithoutFirst(free);
        Recycle(b, dev, block);
      }
    }

    /** The last reference goes: the buffer joins the free list as its most recent entry. */
    method Retire(b: Buffer)
      requires Valid() && b in pool && b.reference == 1 && b.device != null
      requires b.device in devices && b.device in held && b in held[b.device]
      modifies this`head, this`tail, this`free, this`held, pool`next, pool`prev, b`reference, b.device`firstBuffer
      ensures Valid() && View() == old(View()) && OthersKept(b) && b.reference == 0
      ensures free == old(free) + [b]
    {
      hide Indexed, View, Listed;
      ghost var s := held[b.device];
      ghost var j :| 0 <= j < |s| && s[j] == b;
      Release(b, j);
      FreePut(b);
      DataFrame();
    }

    /** Drops one reference; with the last one the buffer becomes the newest free buffer. A buffer without
        references has its 16-bit count wrapped instead, and exactly then the cache's invariant is lost. */
    method BufferPut(b: Buffer)
      requires Valid() && b in pool
      modifies this`head, this`tail, this`free, this`held, pool`next, pool`prev, b`reference, devices`firstBuffer
      ensures Valid() <==> old(b.reference) != 0
      ensures View() == old(View()) && OthersKept(b) && at == old(at)
      ensures b.reference == (if old(b.reference) == 0 then 0xffff else old(b.reference) - 1)
      ensures free == old(free) + if old(b.reference) == 1 then [b] else []
    {
      hide Indexed, View, Listed;
      if b.reference == 0 {
        b.reference := REF_MAX;
        FreeBreaks(b);
        SharedView();
      } else if b.reference == 1 {
        InUse(b);
        Retire(b);
      } else {
        InUse(b);
        b.reference := b.reference - 1;
        SharedView();
        SharedKeeps(b);
      }
    }

    /** A free buffer whose count has wrapped is out of place. */
    twostate lemma FreeBreaks(b: Buffer)
      requires old(Valid()) && b in old(pool) && old(b.reference) == 0 && b.reference != 0 && unchanged(this)
      ensures !Valid()
    {
      assert b in free;
    }

    /** Only `b`'s data and dirty flag have changed, and it is dirty. */
    twostate predicate Dirtied(b: Buffer)
      reads this, pool, devices
    {
      && unchanged(this) && OthersKept(b) && b in pool
      && b.device == old(b.device) && b.block == old(b.block) && b.reference == old(b.reference) && b.dirty
      && (forall d :: d in devices ==> d.disk == old(d.disk) && d.firstBuffer == old(d.firstBuffer))
      && (forall x :: x in pool ==> x.next == old(x.next) && x.prev == old(x.prev))
    }

    twostate lemma DirtiedValid(b: Buffer)
      requires old(Valid()) && b in old(pool) && Dirtied(b) && b.device != null
      ensures Valid()
    {
      LinkedFrame(free);
      HeldFrame();
    }

    twostate lemma DirtiedView(b: Buffer)
      requires old(Valid()) && Valid() && b in old(pool) && Dirtied(b) && b.device != null
      ensures View() == old(View())[(b.device, b.block) := b.data]
    {
      hide Listed, Indexed;
      OneBlock(b);
      forall p | p in View()
        ensures View()[p] == if p == (b.device, b.block) then b.data else old(View())[p]
      {
        assert p in at ==> at[p] in pool;
      }
    }

    /** A buffer caches one block only. */
    lemma OneBlock(b: Buffer)
      requires Valid() && b in pool && b.device != null
      ensures (b.device, b.block) in at && at[(b.device, b.block)] == b && b.device in devices && b.block in b.device.disk
      ensures forall p :: p in at ==> at[p] in pool && (at[p] == b ==> p == (b.device, b.block))
    {
    }

    /** A client changes a block it holds and marks it dirty: the logical disk changes there only. */
    method Modify(b: Buffer, x: seq<byte>)
      requires Valid() && b in pool && b.reference != 0 && b.device != null
      modifies b`data, b`dirty
      ensures Valid() && View() == old(View())[(b.device, b.block) := x]
    {
      hide Indexed, View, Listed;
      b.data := x;
      b.dirty := true;
      DirtiedValid(b);
      DirtiedView(b);
    }

    /** How often each block is held. */
    ghost function Counts(): (m: map<Place, int>)
      reads this, devices, at.Values
    {
      map d, k | d in devices && k in d.disk :: (d, k) := RefOf((d, k))
    }

    /** Block `p` is held `n` times more than before, every other block as often as before. */
    twostate predicate HeldMore(p: Place, n: int)
      reads this, at.Values
    {
      && RefOf(p) == old(RefOf(p)) + n
      && forall d: Device, k: nat :: d in devices && d in old(devices) && (d, k) != p ==> RefOf((d, k)) == old(RefOf((d, k)))
    }

    twostate lemma CountsMore(p: (Place, int))
      requires HeldMore(p.0, p.1) && p.0 in old(Counts()) && devices == old(devices)
      requires forall d :: d in devices ==> d.disk.Keys == old(d.disk.Keys)
      ensures Counts() == old(Counts())[p.0 := old(Counts())[p.0] + p.1]
    {
      hide RefOf;
    }

    /** A get by a client: it is granted unless the block is not cached and no buffer is free. */
    method DoGet(dev: Device, block: nat) returns (granted: bool)
      requires Valid() && dev in devices && block in dev.disk && RefOf((dev, block)) < 0xffff
      modifies this`head, this`tail, this`free, this`held, this`at, pool, devices
      ensures Valid() && pool == old(pool) && devices == old(devices)
      ensures View() == old(View()) && forall d :: d in devices ==> d.disk.Keys == old(d.disk.Keys)
      ensures granted == old((dev, block) in at || free != [])
      ensures HeldMore((dev, block), if granted then 1 else 0)
    {
      hide Indexed, View, Listed, Without, OthersKept;
      Keyed((dev, block));
      var b := BufferGet(dev, block);
      granted := b != null;
      if b != null { RefsElsewhere(b); }
    }

    lemma Keyed(p: Place)
      requires Valid()
      ensures p in at ==> at[p].device == p.0 && at[p].block == p.1
      ensures forall x :: x in free ==> x.reference == 0
    {
    }

    /** Put and client write by the holder of a buffer. */
    method DoPut(b: Buffer)
      requires Valid() && b in pool && b.reference != 0 && b.device != null
      modifies this`head, this`tail, this`free, this`held, pool`next, pool`prev, b`reference, devices`firstBuffer
      ensures Valid() && View() == old(View()) && HeldMore((b.device, b.block), -1)
    {
      hide Indexed, View, Listed, OthersKept;
      OneBlock(b);
      BufferPut(b);
      RefsElsewhere(b);
    }

    method DoWrite(b: Buffer, x: seq<byte>)
      requires Valid() && b in pool && b.reference != 0 && b.device != null
      modifies b`data, b`dirty
      ensures Valid() && View() == old(View())[(b.device, b.block) := x] && HeldMore((b.device, b.block), 0)
    {
      hide Indexed, View, Listed;
      Modify(b, x);
    }

    /** One operation by clients of the cache, who know a buffer by the block it holds. A granted get holds the block
        once more, a put once less; every other block is held as often as before. */
    method Do(op: Op) returns (ok: bool, granted: bool)
      requires Valid() && op.dev in devices && op.block in op.dev.disk
      modifies this`head, this`tail, this`free, this`held, this`at, pool, devices
      ensures Valid() && pool == old(pool) && devices == old(devices)
      ensures forall d :: d in devices ==> d.disk.Keys == old(d.disk.Keys)
      ensures ok == (old(RefOf((op.dev, op.block))) != if op.Get? then 0xffff else 0)
      ensures !ok ==> RefOf((op.dev, op.block)) == if op.Get? then 0xffff else 0
      ensures View() == if ok && op.Write? then old(View())[(op.dev, op.block) := op.data] else old(View())
      ensures granted == (ok && (op.Get? ==> old((op.dev, op.block) in at || free != [])))
      ensures ok && !granted ==> op.Get? && old(RefOf((op.dev, op.block))) == 0
      ensures HeldMore((op.dev, op.block), if !granted || op.Write? then 0 else if op.Get? then 1 else -1)
    {
      hide Indexed, View, Listed;
      var b := FindHeld(op.dev, op.block);
      ok := if op.Get? then b == null || b.reference != REF_MAX else b != null;
      granted := ok;
      if !ok {
        return;
      }
      match op
      case Get(dev, block) =>
        RefWithin((dev, block));
        granted := DoGet(dev, block);
      case Put(_, _) =>
        DoPut(b);
      case Write(_, _, data) =>
        DoWrite(b, data);
    }

    /** Any run of gets, puts and client writes, evictions included, shows its clients exactly the writes, and
        every block is held as often as it has been got and not put back. `got` says which operations were granted:
        only a get of a block that nobody holds may not be, for want of a free buffer. The run goes on until a block
        is asked for once too often for its 16-bit count, or a block that nobody holds is put back or written. */
    method Run(ops: seq<Op>) returns (done: nat, got: seq<bool>)
      requires Valid()
      requires forall i :: 0 <= i < |ops| ==> ops[i].dev in devices && ops[i].block in ops[i].dev.disk
      modifies this`head, this`tail, this`free, this`held, this`at, pool, devices
      ensures Valid() && pool == old(pool) && devices == old(devices) && done <= |ops|
      ensures View() == Written(old(View()), ops[..done])
      ensures done < |ops| ==> RefOf((ops[done].dev, ops[done].block)) == if ops[done].Get? then 0xffff else 0
      ensures |got| == done && Counts() == Tally(old(Counts()), ops[..done], got)
      ensures forall i :: 0 <= i < done && !got[i] ==> Unheld(old(Counts()), ops, got, i)
    {
      hide Indexed, View, Listed, RefOf, Tally, Unheld, Counts, HeldMore, Written;
      NoTally(Counts());
      WrittenMore(View(), ops);
      got := [];
      done := 0;
      while done < |ops|
        invariant done <= |ops| && Valid() && pool == old(pool) && devices == old(devices)
        invariant View() == Written(old(View()), ops[..done])
        invariant |got| == done && Counts() == Tally(old(Counts()), ops[..done], got)
        invariant forall i :: 0 <= i < done && !got[i] ==> Unheld(old(Counts()), ops, got, i)
        invariant forall d :: d in devices ==> d.disk.Keys == old(d.disk.Keys)
      {
        ghost var m := Counts();
        InCounts(ops[done]);
        label Before:
        var ok, granted := Do(ops[done]);
        CountsMore@Before(((ops[done].dev, ops[done].block), Change(ops[done], granted)));
        if !ok {
          assert Counts() == m;
          return;
        }
        TallyMore(old(Counts()), ops, done, got, granted);
        got, done := got + [granted], done + 1;
      }
      assert ops[..done] == ops;
    }

    lemma InCounts(op: Op)
      requires op.dev in devices && op.block in op.dev.disk
      ensures (op.dev, op.block) in Counts() && Counts()[(op.dev, op.block)] == RefOf((op.dev, op.block))
    {
    }

    /** Only the references of the block of `b` have changed. */
    twostate lemma RefsElsewhere(b: Buffer)
      requires old(Indexed()) && Indexed() && b in old(pool) && OthersKept(b) && b.device != null && devices == old(devices)
      requires old(b.reference) == 0 || (old(b.device) == b.device && old(b.block) == b.block)
      ensures forall d: Device, k: nat :: d in devices && (d, k) != (b.device, b.block) ==> RefOf((d, k)) == old(RefOf((d, k)))
    {
    }

    lemma RefWithin(p: Place)
      requires Valid()
      ensures p in at ==> at[p] in pool && at[p].reference <= 0xffff
    {
    }
  }

  datatype Op = Get(dev: Device, block: nat) | Put(dev: Device, block: nat)
              | Write(dev: Device, block: nat, data: seq<byte>)

  /** What clients see after the writes among `ops`. */
  ghost function Written(v: map<Place, seq<byte>>, ops: seq<Op>): map<Place, seq<byte>> {
    if ops == [] then v
    else
      var w, op := Written(v, ops[..|ops| - 1]), ops[|ops| - 1];
      if op.Write? then w[(op.dev, op.block) := op.data] else w
  }

  lemma WrittenMore(v: map<Place, seq<byte>>, ops: seq<Op>)
    ensures Written(v, ops[..0]) == v
    ensures forall k :: 0 <= k < |ops| ==> var w, op := Written(v, ops[..k]), ops[k];
      Written(v, ops[..k + 1]) == if op.Write? then w[(op.dev, op.block) := op.data] else w
  {
    forall k | 0 <= k < |ops|
      ensures ops[..k + 1][..k] == ops[..k]
    {
    }
  }

  /** How often each block is held after the operations: once more for each granted get, once less for each put. */
  ghost function Tally(m: map<Place, int>, ops: seq<Op>, got: seq<bool>): map<Place, int>
    requires |got| == |ops|
  {
    if ops == [] then m
    else
      var k := |ops| - 1;
      var t, p := Tally(m, ops[..k], got[..k]), (ops[k].dev, ops[k].block);
      if p in t then t[p := t[p] + Change(ops[k], got[k])] else t
  }

  function Change(op: Op, got: bool): int {
    if !got || op.Write? then 0 else if op.Get? then 1 else -1
  }

  /** Operation `i` is a get that comes to a block nobody holds. */
  ghost predicate Unheld(m: map<Place, int>, ops: seq<Op>, got: seq<bool>, i: nat)
    requires i < |ops| && i <= |got|
  {
    var t, p := Tally(m, ops[..i], got[..i]), (ops[i].dev, ops[i].block);
    ops[i].Get? && p in t && t[p] == 0
  }

  lemma NoTally(m: map<Place, int>)
    ensures Tally(m, [], []) == m
  {
  }

  lemma TallyMore(m: map<Place, int>, ops: seq<Op>, done: nat, got: seq<bool>, granted: bool)
    requires done < |ops| && |got| == done
    ensures var t, p := Tally(m, ops[..done], got), (ops[done].dev, ops[done].block);
      && Tally(m, ops[..done + 1], got + [granted]) == (if p in t then t[p := t[p] + Change(ops[done], granted)] else t)
      && (ops[done].Get? && p in t && t[p] == 0 ==> Unheld(m, ops, got + [granted], done))
    ensures forall i :: 0 <= i < done ==> Unheld(m, ops, got, i) == Unheld(m, ops, got + [granted], i)
  {
    assert ops[..done + 1][..done] == ops[..done] && (got + [granted])[..done] == got;
    assert forall i :: 0 <= i < done ==> (got + [granted])[..i] == got[..i];
  }

  /** For each block: its count before, the granted gets of it, and the puts of it. */
  lemma {:induction false} TallyIs(m: map<Place, int>, ops: seq<Op>, got: seq<bool>, p: Place)
    requires |got| == |ops| && p in m
    ensures p in Tally(m, ops, got) && Tally(m, ops, got)[p] == m[p] + Gets(ops, got, p) - Puts(ops, got, p)
  {
    if ops != [] { TallyIs(m, ops[..|ops| - 1], got[..|ops| - 1], p); }
  }

  function Gets(ops: seq<Op>, got: seq<bool>, p: Place): nat
    requires |got| == |ops|
  {
    if ops == [] then 0
    else
      var k := |ops| - 1;
      Gets(ops[..k], got[..k], p) + if ops[k].Get? && got[k] && (ops[k].dev, ops[k].block) == p then 1 else 0
  }

  function Puts(ops: seq<Op>, got: seq<bool>, p: Place): nat
    requires |got| == |ops|
  {
    if ops == [] then 0
    else
      var k := |ops| - 1;
      Puts(ops[..k], got[..k], p) + if ops[k].Put? && got[k] && (ops[k].dev, ops[k].block) == p then 1 else 0
  }
}
