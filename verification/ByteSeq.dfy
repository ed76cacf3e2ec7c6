/** Bytes, little-endian words, and cutting and patching of byte sequences. */
module ByteSeq {
  type byte = x: int | 0 <= x < 256

  const TWO32: nat := 0x1_0000_0000

  /** The value a 32-bit unsigned operation leaves behind. */
  function U32(x: int): (r: nat)
    ensures r < TWO32
    ensures 0 <= x < TWO32 ==> r == x
  {
    x % TWO32
  }

  function Le16(v: nat): (b: seq<byte>)
    requires v < 0x1_0000
    ensures |b| == 2
  {
    [v % 256, v / 256]
  }

  function FromLe16(b: seq<byte>): (v: nat)
    requires |b| == 2
    ensures v < 0x1_0000
  {
    (b[0] as int) + 256 * (b[1] as int)
  }

  function Le32(v: nat): (b: seq<byte>)
    requires v < TWO32
    ensures |b| == 4
  {
    Le16(v % 0x1_0000) + Le16(v / 0x1_0000)
  }

  function FromLe32(b: seq<byte>): (v: nat)
    requires |b| == 4
    ensures v < TWO32
  {
    FromLe16(b[..2]) + 0x1_0000 * FromLe16(b[2..])
  }

  lemma Le16RoundTrip(v: nat)
    requires v < 0x1_0000
    ensures FromLe16(Le16(v)) == v
  {
  }

  lemma Le32RoundTrip(v: nat)
    requires v < TWO32
    ensures FromLe32(Le32(v)) == v
  {
    var lo, hi := Le16(v % 0x1_0000), Le16(v / 0x1_0000);
    assert (lo + hi)[..2] == lo && (lo + hi)[2..] == hi;
    Le16RoundTrip(v % 0x1_0000);
    Le16RoundTrip(v / 0x1_0000);
  }

  /** `d` with the bytes from `at` on overwritten by `x`. */
  function Splice<T>(d: seq<T>, at: nat, x: seq<T>): (r: seq<T>)
    requires at + |x| <= |d|
    ensures |r| == |d|
  {
    d[..at] + x + d[at + |x|..]
  }

  /** Bytes away from a patch read the same before and after it. */
  lemma SpliceElsewhere<T>(d: seq<T>, at: nat, x: seq<T>, lo: nat, hi: nat)
    requires at + |x| <= |d| && lo <= hi <= |d|
    requires hi <= at || at + |x| <= lo
    ensures Splice(d, at, x)[lo..hi] == d[lo..hi]
  {
  }

  lemma SubSlice<T>(d: seq<T>, at: nat, size: nat, pos: nat, n: nat)
    requires at + size <= |d| && pos + n <= size
    ensures d[at..at + size][pos..pos + n] == d[at + pos..at + pos + n]
  {
    var s := d[at..at + size];
    var a, b := s[pos..pos + n], d[at + pos..at + pos + n];
    assert forall i :: 0 <= i < n ==> a[i] == b[i];
  }

  lemma PrefixPrefix<T>(a: seq<T>, b: seq<T>, n: nat)
    requires a <= b && n <= |a|
    ensures a[..n] == b[..n]
  {
  }

  lemma JoinSlices<T>(d: seq<T>, a: nat, b: nat, c: nat)
    requires a <= b <= c <= |d|
    ensures d[a..b] + d[b..c] == d[a..c]
  {
  }

  /** Concatenation of a list of pieces. */
  function Flatten<T>(pieces: seq<seq<T>>): seq<T> {
    if pieces == [] then [] else Flatten(pieces[..|pieces| - 1]) + pieces[|pieces| - 1]
  }

  ghost predicate AllOfSize<T>(pieces: seq<seq<T>>, size: nat) {
    forall i :: 0 <= i < |pieces| ==> |pieces[i]| == size
  }

  lemma {:induction false} FlattenConcat<T>(a: seq<seq<T>>, b: seq<seq<T>>)
    ensures Flatten(a + b) == Flatten(a) + Flatten(b)
  {
    if b == [] {
      assert a + b == a;
    } else {
      var n := |b| - 1;
      assert (a + b)[..|a + b| - 1] == a + b[..n];
      FlattenConcat(a, b[..n]);
    }
  }

  lemma {:induction false} FlattenSize<T>(pieces: seq<seq<T>>, size: nat)
    requires AllOfSize(pieces, size)
    ensures |Flatten(pieces)| == |pieces| * size
  {
    if pieces == [] {
    } else {
      var n := |pieces| - 1;
      FlattenSize(pieces[..n], size);
      assert |pieces| * size == n * size + size;
    }
  }

  /** Taking whole pieces, then a bit of the next one. */
  lemma FlattenPrefix<T>(pieces: seq<seq<T>>, size: nat, k: nat, pos: nat)
    requires AllOfSize(pieces, size) && k < |pieces| && pos <= size
    ensures k * size + pos <= |Flatten(pieces)|
    ensures |Flatten(pieces[..k])| == k * size
    ensures Flatten(pieces)[..k * size + pos] == Flatten(pieces[..k]) + pieces[k][..pos]
  {
    var a, b, c := pieces[..k], [pieces[k]], pieces[k + 1..];
    assert pieces == (a + b) + c;
    FlattenConcat(a + b, c);
    FlattenConcat(a, b);
    assert Flatten(b) == b[0] by { assert b[..0] == []; }
    FlattenSize(a, size);
    assert Flatten(pieces) == Flatten(a) + pieces[k] + Flatten(c);
  }

  // ----- writing into a buffer -----

  /** memcpy into the buffer. */
  method Put(mem: array<byte>, q: nat, b: seq<byte>)
    requires q + |b| <= mem.Length
    modifies mem
    ensures mem[..] == Splice(old(mem[..]), q, b)
  {
    for i := 0 to |b|
      invariant forall j :: 0 <= j < mem.Length ==> mem[j] == if q <= j < q + i then b[j - q] else old(mem[j])
    {
      mem[q + i] := b[i];
    }
    SplicePointwise(old(mem[..]), q, b, mem[..]);
  }

  lemma SplicePointwise<T>(d: seq<T>, at: nat, x: seq<T>, r: seq<T>)
    requires at + |x| <= |d| && |r| == |d|
    requires forall j :: 0 <= j < |d| ==> r[j] == if at <= j < at + |x| then x[j - at] else d[j]
    ensures r == Splice(d, at, x)
  {
  }

  lemma SpliceAt<T>(d: seq<T>, at: nat, x: seq<T>, j: nat)
    requires at + |x| <= |d| && j < |d|
    ensures Splice(d, at, x)[j] == if at <= j < at + |x| then x[j - at] else d[j]
  {
  }

  lemma SpliceMore<T>(d: seq<T>, at: nat, x: seq<T>, k: nat, m: nat)
    requires k + m <= |x| && at + k + m <= |d|
    ensures Splice(Splice(d, at, x[..k]), at + k, x[k..k + m]) == Splice(d, at, x[..k + m])
  {
  }

  lemma SpliceTwo<T>(d: seq<T>, at: nat, x: seq<T>, y: seq<T>)
    requires at + |x| + |y| <= |d|
    ensures Splice(Splice(d, at, x), at + |x|, y) == Splice(d, at, x + y)
  {
  }

  lemma SpliceNone<T>(d: seq<T>, at: nat)
    requires at <= |d|
    ensures Splice(d, at, []) == d
  {
  }

  /** The next piece behind what has been written so far. */
  method PutMore(mem: array<byte>, p: nat, ghost d: seq<byte>, ghost q: nat, ghost b: seq<byte>, x: seq<byte>)
    requires q + |b| <= |d| && mem[..] == Splice(d, q, b) && p == q + |b| && p + |x| <= mem.Length
    modifies mem
    ensures q + |b + x| <= |d| && mem[..] == Splice(d, q, b + x)
  {
    hide Splice;
    Put(mem, p, x);
    SpliceTwo(d, q, b, x);
  }

  function Zeros(n: nat): (z: seq<byte>)
    ensures |z| == n && forall i :: 0 <= i < n ==> z[i] == 0
  {
    seq(n, i => 0)
  }

  /** memset to zero. */
  method Clear(mem: array<byte>, memSize: nat)
    requires memSize <= mem.Length
    modifies mem
    ensures mem[..] == Splice(old(mem[..]), 0, Zeros(memSize))
  {
    for i := 0 to memSize
      invariant forall j :: 0 <= j < mem.Length ==> mem[j] == if j < i then 0 else old(mem[j])
    {
      mem[i] := 0;
    }
    SplicePointwise(old(mem[..]), 0, Zeros(memSize), mem[..]);
  }

  /** A cleared buffer with `b` put at its front. */
  lemma ClearedThen(o: seq<byte>, memSize: nat, b: seq<byte>)
    requires |b| <= memSize <= |o|
    ensures var r := Splice(Splice(o, 0, Zeros(memSize)), 0, b);
      |r| == |o| && r[..memSize] == b + Zeros(memSize - |b|) && r[memSize..] == o[memSize..]
    ensures forall i :: 0 <= i < memSize ==> Splice(o, 0, Zeros(memSize))[i] == 0
  {
  }
}
