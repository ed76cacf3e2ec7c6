/** Printing a number into a buffer through a moving position, and reading one from memory. */
module Numbers {
  import opened ByteSeq
  import opened NumberSpec
  import opened Wrappers
  import opened Arith

  // ----- printing -----

  function Reversed(s: seq<byte>): (r: seq<byte>)
    ensures |r| == |s| && forall i :: 0 <= i < |s| ==> r[i] == s[|s| - 1 - i]
  {
    if s == [] then [] else Reversed(s[1..]) + [s[0]]
  }

  lemma ReversedMore(s: seq<byte>, c: byte)
    ensures Reversed(s + [c]) == [c] + Reversed(s)
  {
  }

  lemma Halves(n: nat, base: nat, k: nat)
    requires 2 <= base && n < Pow2(k) && 0 < k
    ensures n / base < Pow2(k - 1)
  {
    DivFacts(n, base);
    MulMonotone(2, base, n / base);
  }

  /** The digits that remain in `n`, in front of those taken off so far. */
  ghost predicate Taken(m: nat, base: nat, small: bool, n: nat, tmp: seq<byte>)
    requires 2 <= base <= 36
  {
    Digits(m, base, small) == if n == 0 then Reversed(tmp) else Digits(n, base, small) + Reversed(tmp)
  }

  lemma TakeDigit(m: nat, base: nat, small: bool, n: nat, tmp: seq<byte>, k: nat)
    requires 2 <= base <= 36 && 0 < n < Pow2(k) && Taken(m, base, small, n, tmp)
    ensures 0 <= n % base < 36 && 0 <= n / base < n && 0 < k && n / base < Pow2(k - 1)
    ensures Taken(m, base, small, n / base, tmp + [Digit(n % base, small)])
  {
    hide Pow2, Reversed;
    DivFacts(n, base);
    PowPositive(n, k);
    Halves(n, base, k);
    var d := Digit(n % base, small);
    ReversedMore(tmp, d);
    if n >= base {
      QuotientPositive(n, base);
      assert (Digits(n / base, base, small) + [d]) + Reversed(tmp) == Digits(n / base, base, small) + ([d] + Reversed(tmp));
    } else {
      DivModUnique(n, base, 0, n);
    }
  }

  lemma QuotientPositive(n: nat, base: nat)
    requires 2 <= base <= n
    ensures n / base > 0
  {
    DivFacts(n, base);
    if n / base == 0 { assert false; }
  }

  /** The digits of a number into the small buffer, the last one first. */
  method Convert(num: nat, base: nat, small: bool, tmp: array<byte>) returns (i: nat)
    requires num < TWO32 && 2 <= base <= 36 && tmp.Length == 36
    modifies tmp
    ensures i <= 36 && Reversed(tmp[..i]) == Digits(num, base, small)
  {
    hide Digits, Digit, Reversed, Pow2, Taken;
    if num == 0 {
      tmp[0] := ZERO;
      ZeroDigits(base, small);
      assert tmp[..1] == [ZERO];
      return 1;
    }
    var n: nat := num;
    i := 0;
    StartDigits(num, base, small);
    assert tmp[..0] == [];
    while n != 0
      invariant i <= 32 && n < Pow2(32 - i) && Taken(num, base, small, n, tmp[..i])
      decreases n
    {
      ghost var was := tmp[..i];
      TakeDigit(num, base, small, n, was, 32 - i);
      var digit, rest := n % base, n / base;
      tmp[i] := Digit(digit, small);
      assert tmp[..i + 1] == was + [Digit(digit, small)];
      n, i := rest, i + 1;
    }
    TakenAll(num, base, small, tmp[..i]);
  }

  lemma TakenAll(m: nat, base: nat, small: bool, tmp: seq<byte>)
    requires 2 <= base <= 36 && Taken(m, base, small, 0, tmp)
    ensures Reversed(tmp) == Digits(m, base, small)
  {
    hide Reversed, Digits;
  }

  lemma ZeroDigits(base: nat, small: bool)
    requires 2 <= base <= 36
    ensures Digits(0, base, small) == [ZERO] && Reversed([ZERO]) == [ZERO]
  {
    assert Reversed([ZERO])[0] == ZERO;
  }

  lemma StartDigits(num: nat, base: nat, small: bool)
    requires 2 <= base <= 36 && 0 < num < TWO32
    ensures num < Pow2(32) && Taken(num, base, small, num, [])
  {
    assert Pow2(8) == 256;
    PowSum(8, 8);
    PowSum(16, 16);
    assert Digits(num, base, small) + [] == Digits(num, base, small);
  }

  lemma {:induction false} PowSum(a: nat, b: nat)
    ensures Pow2(a + b) == Pow2(a) * Pow2(b)
    decreases b
  {
    if b > 0 { PowSum(a, b - 1); }
  }

  lemma PowPositive(n: nat, k: nat)
    requires 0 < n < Pow2(k)
    ensures k > 0
  {
  }

  /** A padding loop: as many characters as `n` says, if any. */
  method Pad(buf: array<byte>, p: nat, n: int, c: byte, ghost d: seq<byte>, ghost at: nat, ghost w: seq<byte>)
    returns (p': nat, n': int)
    requires at + |w| <= |d| && buf[..] == Splice(d, at, w) && p == at + |w| && p + Max(n, 0) <= buf.Length
    modifies buf
    ensures n' == Min0(n) - 1 && p' == p + Max(n, 0)
    ensures at + |w| + Max(n, 0) <= |d| && buf[..] == Splice(d, at, w + Fill(n, c))
  {
    hide Splice;
    p', n' := p, n;
    ghost var k := 0;
    assert w + Fill(0, c) == w;
    while n' > 0
      invariant 0 <= k <= Max(n, 0) && p' == p + k && n' == n - k
      invariant buf[..] == Splice(d, at, w + Fill(k, c))
    {
      PutMore(buf, p', d, at, w + Fill(k, c), [c]);
      assert w + Fill(k, c) + [c] == w + Fill(k + 1, c);
      p', n', k := p' + 1, n' - 1, k + 1;
    }
    assert Fill(k, c) == Fill(n, c);
    n' := n' - 1;
  }

  function Min0(n: int): int { if n < 0 then n else 0 }

  /** The digits from the small buffer, backwards. */
  method PutDigits(buf: array<byte>, p: nat, tmp: array<byte>, n: nat, ghost d: seq<byte>, ghost at: nat, ghost w: seq<byte>)
    returns (p': nat)
    requires buf != tmp && n <= tmp.Length
    requires at + |w| <= |d| && buf[..] == Splice(d, at, w) && p == at + |w| && p + n <= buf.Length
    modifies buf
    ensures p' == p + n && at + |w| + n <= |d| && buf[..] == Splice(d, at, w + Reversed(tmp[..n]))
  {
    hide Splice, Reversed;
    p' := p;
    ghost var t := tmp[..n];
    var i := n;
    assert w + Reversed(t)[..0] == w;
    while i > 0
      invariant 0 <= i <= n && p' == p + (n - i) && tmp[..n] == t
      invariant buf[..] == Splice(d, at, w + Reversed(t)[..n - i])
    {
      i := i - 1;
      PutMore(buf, p', d, at, w + Reversed(t)[..n - i - 1], [tmp[i]]);
      assert w + Reversed(t)[..n - i - 1] + [tmp[i]] == w + Reversed(t)[..n - i];
      p' := p' + 1;
    }
    assert Reversed(t)[..n] == Reversed(t);
  }

  /** Sign and prefix characters. */
  method PutFront(buf: array<byte>, p: nat, sign: seq<byte>, base: nat, f: Flags, ghost d: seq<byte>, ghost at: nat, ghost w: seq<byte>)
    returns (p': nat)
    requires at + |w| <= |d| && buf[..] == Splice(d, at, w) && p == at + |w|
    requires p + |sign| + |Prefix(base, f)| <= buf.Length
    modifies buf
    ensures p' == p + |sign| + |Prefix(base, f)|
    ensures at + |w| + |sign| + |Prefix(base, f)| <= |d| && buf[..] == Splice(d, at, w + sign + Prefix(base, f))
  {
    hide Splice;
    PutMore(buf, p, d, at, w, sign);
    p' := p + |sign|;
    assert w + sign + [] == w + sign;
    if f.special {
      if base == 8 {
        PutMore(buf, p', d, at, w + sign, [ZERO]);
        p' := p' + 1;
      } else if base == 16 {
        PutMore(buf, p', d, at, w + sign, [ZERO, Digit(33, f.small)]);
        p' := p' + 2;
      }
    }
  }

  /** A padding loop behind its test: the count it leaves keeps later loops from padding again. */
  method PadIf(on: bool, buf: array<byte>, p: nat, n: int, c: byte, ghost d: seq<byte>, ghost at: nat, ghost w: seq<byte>)
    returns (p': nat, n': int)
    requires at + |w| <= |d| && buf[..] == Splice(d, at, w) && p == at + |w|
    requires on ==> p + Max(n, 0) <= buf.Length
    modifies buf
    ensures n' == LeftOver(on, n) && p' == p + |PadText(on, n, c)|
    ensures at + |w| + |PadText(on, n, c)| <= |d| && buf[..] == Splice(d, at, w + PadText(on, n, c))
  {
    hide Splice;
    if on {
      p', n' := Pad(buf, p, n, c, d, at, w);
    } else {
      p', n' := p, n;
      assert w + [] == w;
    }
  }

  function LeftOver(on: bool, n: int): int { if on then Min0(n) - 1 else n }

  function PadText(on: bool, n: int, c: byte): (w: seq<byte>)
    ensures |w| == if on then Max(n, 0) else 0
  {
    if on then Fill(n, c) else []
  }

  /** Of the three places for padding at most one is used. */
  lemma LaidParts(s: seq<byte>, p: seq<byte>, z: seq<byte>, w: seq<byte>, room: int, f: Flags)
    ensures
      var on := !f.left && !f.zeropad;
      var r1 := LeftOver(on, room);
      var r2 := LeftOver(!f.left, r1);
      var c := if f.zeropad && !f.left then ZERO else BLANK;
      var (front, middle, back) := (PadText(on, room, BLANK), PadText(!f.left, r1, c), PadText(true, r2, BLANK));
      && Laid(s, p, z + w, room, f) == [] + front + s + p + middle + z + w + back
      && |front| + |middle| + |back| == Max(room, 0)
  {
    var on := !f.left && !f.zeropad;
    if f.left {
      assert [] + [] + s + p + [] + z + w + Fill(room, BLANK) == s + p + (z + w) + Fill(room, BLANK);
    } else if f.zeropad {
      assert [] + [] + s + p + Fill(room, ZERO) + z + w + [] == s + p + Fill(room, ZERO) + (z + w);
    } else {
      assert [] + Fill(room, BLANK) + s + p + [] + z + w + [] == Fill(room, BLANK) + s + p + (z + w);
    }
  }

  /** The writing part of number: everything but the padding is settled. */
  method Layout(buf: array<byte>, at: nat, sign: seq<byte>, base: nat, f: Flags, size: int, prec: nat, tmp: array<byte>, i: nat)
    returns (p: nat)
    requires buf != tmp && i <= tmp.Length && i <= prec
    requires at + |sign| + |Prefix(base, f)| + prec + Max(size, 0) <= buf.Length
    modifies buf
    ensures var w := Laid(sign, Prefix(base, f), Fill(prec - i, ZERO) + Reversed(tmp[..i]), size, f);
      p == at + |w| && buf[..] == Splice(old(buf[..]), at, w)
  {
    hide Laid, Splice, Reversed, Prefix, Fill, PadText, LeftOver;
    ghost var d, digits, zeros := buf[..], Reversed(tmp[..i]), Fill(prec - i, ZERO);
    LaidParts(sign, Prefix(base, f), zeros, digits, size, f);
    SpliceNone(d, at);
    var zeropad := f.zeropad && !f.left;
    var c := if zeropad then ZERO else BLANK;
    ghost var w: seq<byte> := [];
    var room := size;
    w := [] + PadText(!f.left && !f.zeropad, size, BLANK);
    p, room := PadIf(!zeropad && !f.left, buf, at, room, BLANK, d, at, []);
    p := PutFront(buf, p, sign, base, f, d, at, w);
    w := w + sign + Prefix(base, f);
    ghost var middle := PadText(!f.left, room, c);
    p, room := PadIf(!f.left, buf, p, room, c, d, at, w);
    w := w + middle;
    var rest;
    p, rest := Pad(buf, p, prec - i, ZERO, d, at, w);
    w := w + zeros;
    p := PutDigits(buf, p, tmp, i, d, at, w);
    w := w + digits;
    p, room := PadIf(true, buf, p, room, BLANK, d, at, w);
  }

  /** number: the field is written behind `at`, or refused when the base is out of range. */
  method Number(buf: array<byte>, at: nat, num: nat, base: int, size: int, precision: int, flags: Flags) returns (r: Option<nat>)
    requires num < TWO32 && at <= buf.Length
    requires 2 <= base <= 36 ==> at + |Field(num, base, size, precision, flags)| <= buf.Length
    modifies buf
    ensures r.Some? <==> 2 <= base <= 36
    ensures r.None? ==> buf[..] == old(buf[..])
    ensures r.Some? ==> var w := Field(num, base, size, precision, flags);
      r.value == at + |w| && buf[..] == Splice(old(buf[..]), at, w)
  {
    hide Laid, Splice, Digits, Reversed, Field, Figures, Fill, Max;
    if base < 2 || base > 36 {
      return None;
    }
    var sign, n, room := [], num, size;
    if flags.sign && num >= 0x8000_0000 {
      sign, n := [MINUS], U32(TWO32 - num);
    } else {
      sign := if flags.plus then [PLUS] else if flags.space then [BLANK] else [];
    }
    room := room - |sign|;
    if flags.special {
      if base == 16 { room := room - 2; } else if base == 8 { room := room - 1; }
    }
    var tmp := new byte[36];
    var i := Convert(n, base, flags.small, tmp);
    var prec := Max(precision, i);
    FieldIs(num, base, size, precision, flags, prec);
    room := room - prec;
    var p := Layout(buf, at, sign, base, flags, room, prec, tmp, i);
    r := Some(p);
  }

  /** The field in terms of what number has settled before it writes. */
  lemma FieldIs(v: nat, base: nat, size: int, precision: int, f: Flags, prec: int)
    requires v < TWO32 && 2 <= base <= 36
    requires prec == Max(precision, |Digits(Magnitude(v, f), base, f.small)|)
    ensures var d := Digits(Magnitude(v, f), base, f.small); var room := size - |Sign(v, f)| - |Prefix(base, f)| - prec;
      && Field(v, base, size, precision, f) == Laid(Sign(v, f), Prefix(base, f), Fill(prec - |d|, ZERO) + d, room, f)
      && |Field(v, base, size, precision, f)| == |Sign(v, f)| + |Prefix(base, f)| + prec + Max(room, 0)
  {
    hide Laid, Sign, Prefix, Digits, Magnitude;
    var d := Digits(Magnitude(v, f), base, f.small);
    assert Fill(precision - |d|, ZERO) == Fill(prec - |d|, ZERO);
  }

  // ----- reading -----

  /** The value of a digit character, of either case. */
  method DigitOf(c: byte) returns (d: nat)
    ensures d == Value(c)
  {
    if 48 <= c <= 57 {
      d := c - 48;
    } else if 97 <= c <= 102 {
      var upper := c - 32;
      d := upper - 65 + 10;
    } else if 65 <= c <= 70 {
      d := c - 65 + 10;
    } else {
      d := 16;
    }
  }

  /** simple_strtoul on the string at the front of the memory: its value, and where it stops. */
  method ParseNumber(mem: seq<byte>, base: nat, ghost w: seq<byte>) returns (value: nat, cp: nat)
    requires w < mem && 0 !in w && mem[|w|] == 0
    ensures (value, cp) == ToNumber(w, base)
  {
    cp, value := 0, 0;
    var b := base;
    if base == 0 {
      b := 10;
      if mem[cp] == 48 {
        b, cp := 8, cp + 1;
        if mem[cp] == 120 {
          var x := DigitOf(mem[cp + 1]);
          if x < 16 { b, cp := 16, cp + 1; }
        }
      }
    }
    assert Detect(w, base) == Start(b, cp);
    value, cp := ScanNumber(mem, cp, b, w);
  }

  /** The digit loop from position `from`. */
  method ScanNumber(mem: seq<byte>, from: nat, base: nat, ghost w: seq<byte>) returns (value: nat, cp: nat)
    requires w < mem && 0 !in w && mem[|w|] == 0 && from <= |w|
    ensures cp >= from && (value, cp - from) == Scan(w[from..], base, 0)
  {
    hide U32;
    cp, value := from, 0;
    var d := DigitOf(mem[cp]);
    while d < 16 && d < base
      invariant from <= cp <= |w| && d == Value(mem[cp])
      invariant Scan(w[from..], base, 0) == AddCount(Scan(w[cp..], base, value), cp - from)
      decreases |w| - cp
    {
      ScanNext(mem, w, cp, base, value);
      value := U32(value * base + d);
      cp := cp + 1;
      d := DigitOf(mem[cp]);
    }
    ScanEnds(mem, w, cp, base, value);
  }

  function AddCount(r: (nat, nat), k: int): (int, int) { (r.0, r.1 + k) }

  lemma ScanNext(mem: seq<byte>, w: seq<byte>, p: nat, base: nat, acc: nat)
    requires w < mem && mem[|w|] == 0 && p <= |w| && IsDigit(mem[p], base)
    ensures p < |w| && Scan(w[p..], base, acc) == AddCount(Scan(w[p + 1..], base, U32(acc * base + Value(mem[p]))), 1)
  {
    hide U32;
    assert p < |w| ==> w[p..][1..] == w[p + 1..] && w[p] == mem[p];
  }

  lemma ScanEnds(mem: seq<byte>, w: seq<byte>, p: nat, base: nat, acc: nat)
    requires w < mem && p <= |w| && !IsDigit(mem[p], base)
    ensures Scan(w[p..], base, acc) == (acc, 0)
  {
    assert p < |w| ==> w[p..][0] == mem[p];
  }
}
