/** The text of a number under the formatting flags, and the value of a text. */
module NumberSpec {
  import opened ByteSeq
  import Arith

  const BLANK: byte := 32
  const PLUS: byte := 43
  const MINUS: byte := 45
  const ZERO: byte := 48

  datatype Flags = Flags(zeropad: bool, sign: bool, plus: bool, space: bool, left: bool, special: bool, small: bool)

  function Max(a: int, b: int): int { if a >= b then a else b }

  function Fill(n: int, c: byte): (w: seq<byte>)
    ensures |w| == Max(n, 0) && forall i :: 0 <= i < |w| ==> w[i] == c
  {
    seq(Max(n, 0), i => c)
  }

  // ----- printing -----

  function Digit(d: nat, small: bool): byte
    requires d < 36
  {
    if d < 10 then 48 + d else if small then 87 + d else 55 + d
  }

  /** The digits of `n`, the most significant first. */
  function Digits(n: nat, base: nat, small: bool): (w: seq<byte>)
    requires 2 <= base <= 36
    ensures w != []
  {
    if n < base then [Digit(n, small)]
    else
      Arith.DivFacts(n, base);
      Digits(n / base, base, small) + [Digit(n % base, small)]
  }

  /** A word read as the flags say. */
  function Magnitude(v: nat, f: Flags): (m: nat)
    requires v < TWO32
    ensures m < TWO32
  {
    if f.sign && v >= 0x8000_0000 then TWO32 - v else v
  }

  function Sign(v: nat, f: Flags): (s: seq<byte>)
    ensures |s| <= 1
  {
    if f.sign && v >= 0x8000_0000 then [MINUS] else if f.plus then [PLUS] else if f.space then [BLANK] else []
  }

  function Prefix(base: nat, f: Flags): (s: seq<byte>) {
    if !f.special then []
    else if base == 8 then [ZERO]
    else if base == 16 then [ZERO, Digit(33, f.small)]
    else []
  }

  /** Zeros up to the precision, then the digits. */
  function Figures(v: nat, base: nat, precision: int, f: Flags): (w: seq<byte>)
    requires v < TWO32 && 2 <= base <= 36
    ensures |w| == Max(precision, |Digits(Magnitude(v, f), base, f.small)|)
  {
    var d := Digits(Magnitude(v, f), base, f.small);
    Fill(precision - |d|, ZERO) + d
  }

  /** The whole field: padding goes in front as blanks, behind the prefix as zeros, or to the end. */
  function Field(v: nat, base: nat, size: int, precision: int, f: Flags): (w: seq<byte>)
    requires v < TWO32 && 2 <= base <= 36
  {
    var s, p, w := Sign(v, f), Prefix(base, f), Figures(v, base, precision, f);
    Laid(s, p, w, size - |s| - |p| - |w|, f)
  }

  /** Sign, prefix and figures with `room` characters of padding. */
  function Laid(s: seq<byte>, p: seq<byte>, w: seq<byte>, room: int, f: Flags): (r: seq<byte>)
    ensures |r| == |s| + |p| + |w| + Max(room, 0)
  {
    if f.left then s + p + w + Fill(room, BLANK)
    else if f.zeropad then s + p + Fill(room, ZERO) + w
    else Fill(room, BLANK) + s + p + w
  }

  /** Padding never costs a digit: the field is as wide as asked for, or as what it has to show. */
  lemma FieldLength(v: nat, base: nat, size: int, precision: int, f: Flags)
    requires v < TWO32 && 2 <= base <= 36
    ensures |Field(v, base, size, precision, f)| ==
      Max(size, |Sign(v, f)| + |Prefix(base, f)| + Max(precision, |Digits(Magnitude(v, f), base, f.small)|))
  {
  }

  // ----- reading -----

  /** The value of a hexadecimal digit of either case; 16 for anything else. */
  function Value(c: byte): (d: nat)
    ensures d <= 16
  {
    if 48 <= c <= 57 then c - 48
    else if 65 <= c <= 70 then c - 55
    else if 97 <= c <= 102 then c - 87
    else 16
  }

  predicate IsDigit(c: byte, base: nat) {
    Value(c) < 16 && Value(c) < base
  }

  /** The value that the digits at the front of `w` make when appended to `acc`, and how many there are. */
  function Scan(w: seq<byte>, base: nat, acc: nat): (r: (nat, nat))
    ensures r.1 <= |w|
  {
    if w == [] || !IsDigit(w[0], base) then (acc, 0)
    else
      var r := Scan(w[1..], base, U32(acc * base + Value(w[0])));
      (r.0, r.1 + 1)
  }

  datatype Start = Start(base: nat, skip: nat)

  /** The base that a text announces when none is given, and how much of it does so. */
  function Detect(w: seq<byte>, base: nat): (s: Start)
    ensures s.skip <= |w|
  {
    if base != 0 then Start(base, 0)
    else if w == [] || w[0] != ZERO then Start(10, 0)
    else if |w| > 2 && w[1] == 120 && Value(w[2]) < 16 then Start(16, 2)
    else Start(8, 1)
  }

  /** simple_strtoul on a text: the value and the number of characters used. */
  function ToNumber(w: seq<byte>, base: nat): (r: (nat, nat))
    ensures r.1 <= |w|
  {
    var s := Detect(w, base);
    var r := Scan(w[s.skip..], s.base, 0);
    (r.0, r.1 + s.skip)
  }

  // ----- round trips -----

  ghost predicate AllDigits(w: seq<byte>, base: nat) {
    forall i :: 0 <= i < |w| ==> IsDigit(w[i], base)
  }

  /** The value of a text of digits, wrapping. */
  function Fold(w: seq<byte>, base: nat, acc: nat): nat {
    if w == [] then acc else Fold(w[1..], base, U32(acc * base + Value(w[0])))
  }

  lemma {:induction false} ScanFold(w: seq<byte>, base: nat, acc: nat)
    requires AllDigits(w, base)
    ensures Scan(w, base, acc) == (Fold(w, base, acc), |w|)
  {
    if w != [] {
      ScanFold(w[1..], base, U32(acc * base + Value(w[0])));
    }
  }

  lemma {:induction false} ScanAll(w: seq<byte>, base: nat, acc: nat)
    requires Scan(w, base, acc).1 == |w|
    ensures AllDigits(w, base)
  {
    if w != [] {
      ScanAll(w[1..], base, U32(acc * base + Value(w[0])));
    }
  }

  lemma NotAllDigits(w: seq<byte>, base: nat, i: nat)
    requires i < |w| && !IsDigit(w[i], base)
    ensures Scan(w, base, 0).1 != |w|
  {
    if Scan(w, base, 0).1 == |w| {
      ScanAll(w, base, 0);
      assert false;
    }
  }

  lemma {:induction false} FoldConcat(a: seq<byte>, b: seq<byte>, base: nat, acc: nat)
    ensures Fold(a + b, base, acc) == Fold(b, base, Fold(a, base, acc))
  {
    if a == [] {
      assert a + b == b;
    } else {
      assert (a + b)[1..] == a[1..] + b;
      FoldConcat(a[1..], b, base, U32(acc * base + Value(a[0])));
    }
  }

  lemma {:induction false} FoldZeros(n: int, base: nat)
    ensures Fold(Fill(n, ZERO), base, 0) == 0 && (base > 0 ==> AllDigits(Fill(n, ZERO), base))
  {
    if n > 0 {
      assert Fill(n, ZERO)[1..] == Fill(n - 1, ZERO);
      FoldZeros(n - 1, base);
    }
  }

  lemma DigitValue(d: nat, small: bool, base: nat)
    requires d < base <= 16
    ensures Value(Digit(d, small)) == d && IsDigit(Digit(d, small), base)
  {
  }

  lemma {:induction false} FoldDigits(n: nat, base: nat, small: bool)
    requires n < TWO32 && 2 <= base <= 16
    ensures Fold(Digits(n, base, small), base, 0) == n && AllDigits(Digits(n, base, small), base)
  {
    hide Fold, Digit, IsDigit;
    if n < base {
      FoldNone(base);
      LastDigit(0, n, base, small);
    } else {
      Arith.DivFacts(n, base);
      FoldDigits(n / base, base, small);
      LastDigit(n / base, n % base, base, small);
      FoldConcat(Digits(n / base, base, small), [Digit(n % base, small)], base, 0);
    }
  }

  lemma FoldNone(base: nat)
    ensures Fold([], base, 0) == 0
  {
  }

  /** One more digit at the end. */
  lemma LastDigit(q: nat, d: nat, base: nat, small: bool)
    requires d < base <= 16 && q * base + d < TWO32
    ensures Fold([Digit(d, small)], base, q) == q * base + d && IsDigit(Digit(d, small), base)
  {
    DigitValue(d, small, base);
    hide U32, Digit;
    assert [Digit(d, small)][1..] == [];
  }

  /** Zeros in front do not change the value. */
  lemma FoldFigures(n: int, v: nat, base: nat, precision: int, f: Flags)
    requires v < TWO32 && 2 <= base <= 16
    ensures var w := Fill(n, ZERO) + Figures(v, base, precision, f);
      AllDigits(w, base) && Fold(w, base, 0) == Magnitude(v, f)
  {
    var d := Digits(Magnitude(v, f), base, f.small);
    var z := Fill(precision - |d|, ZERO);
    FoldDigits(Magnitude(v, f), base, f.small);
    FoldZeros(precision - |d|, base);
    FoldZeros(n, base);
    FoldConcat(z, d, base, 0);
    FoldConcat(Fill(n, ZERO), z + d, base, 0);
  }

  /** Nothing in the field but prefix and digits: no sign character and no blanks. */
  predicate Unadorned(v: nat, base: nat, size: int, precision: int, f: Flags)
    requires v < TWO32 && 2 <= base <= 36
  {
    && Sign(v, f) == []
    && (size <= |Prefix(base, f)| + |Figures(v, base, precision, f)| || (f.zeropad && !f.left))
  }

  lemma UnadornedField(v: nat, base: nat, size: int, precision: int, f: Flags) returns (n: int)
    requires v < TWO32 && 2 <= base <= 36 && Unadorned(v, base, size, precision, f)
    ensures Field(v, base, size, precision, f) == Prefix(base, f) + (Fill(n, ZERO) + Figures(v, base, precision, f))
  {
    var p, w := Prefix(base, f), Figures(v, base, precision, f);
    n := if f.left then 0 else if f.zeropad then size - |p| - |w| else 0;
    hide Figures, Prefix;
    assert Fill(0, ZERO) == [] && [] + w == w && [] + p == p && p + w + [] == p + w;
  }

  /** A field with a sign or a blank is not all digits. */
  lemma AdornedField(v: nat, base: nat, size: int, precision: int, f: Flags) returns (i: nat)
    requires v < TWO32 && 2 <= base <= 36 && !Unadorned(v, base, size, precision, f)
    ensures var w := Field(v, base, size, precision, f); i < |w| && w[i] in {BLANK, PLUS, MINUS}
  {
    var s, p, w := Sign(v, f), Prefix(base, f), Figures(v, base, precision, f);
    var room := size - |s| - |p| - |w|;
    hide Figures, Prefix;
    if s != [] {
      i := if f.left || f.zeropad then 0 else Max(room, 0);
    } else {
      i := if f.left then |p| + |w| else 0;
    }
  }

  /** Reading a printed number in its own base gives the value and uses the whole text exactly when the text
      has no sign character and no blanks. */
  lemma PlainRoundTrip(v: nat, base: nat, size: int, precision: int, f: Flags)
    requires v < TWO32 && 2 <= base <= 16 && !f.special && !f.sign
    ensures var w := Field(v, base, size, precision, f);
      ToNumber(w, base) == (v, |w|) <==> Unadorned(v, base, size, precision, f)
  {
    hide Field, Figures, Scan, Fold;
    var w := Field(v, base, size, precision, f);
    assert w[0..] == w;
    if Unadorned(v, base, size, precision, f) {
      var n := UnadornedField(v, base, size, precision, f);
      assert [] + (Fill(n, ZERO) + Figures(v, base, precision, f)) == Fill(n, ZERO) + Figures(v, base, precision, f);
      FoldFigures(n, v, base, precision, f);
      ScanFold(w, base, 0);
    } else {
      var i := AdornedField(v, base, size, precision, f);
      NotAllDigits(w, base, i);
    }
  }

  /** With a prefix, and the base left to the reader, a text without sign and blanks is read back completely:
      always in octal, in hexadecimal exactly when the prefix is in lower case. */
  lemma PrefixedRoundTrip(v: nat, base: nat, size: int, precision: int, f: Flags)
    requires v < TWO32 && (base == 8 || base == 16) && f.special && !f.sign && Unadorned(v, base, size, precision, f)
    ensures var w := Field(v, base, size, precision, f); ToNumber(w, 0) == (v, |w|) <==> base == 8 || f.small
  {
    hide Field, Figures, Scan, Fold;
    var w := Field(v, base, size, precision, f);
    var n := UnadornedField(v, base, size, precision, f);
    var d := Fill(n, ZERO) + Figures(v, base, precision, f);
    FoldFigures(n, v, base, precision, f);
    ScanFold(d, base, 0);
    FiguresThere(v, base, precision, f);
    if base == 8 {
      assert w[0] == ZERO && w[1..] == d && IsDigit(d[0], 8);
      assert Detect(w, 0) == Start(8, 1);
    } else if f.small {
      assert w[0] == ZERO && w[1] == 120 && w[2] == d[0] && w[2..] == d;
      assert Detect(w, 0) == Start(16, 2);
    } else {
      assert w[0] == ZERO && w[1] == 88 && w[1..][0] == 88;
      assert Detect(w, 0) == Start(8, 1);
      ScanStops(w[1..], 8);
    }
  }

  lemma FiguresThere(v: nat, base: nat, precision: int, f: Flags)
    requires v < TWO32 && 2 <= base <= 36
    ensures Figures(v, base, precision, f) != []
  {
  }

  lemma ScanStops(w: seq<byte>, base: nat)
    requires w != [] && !IsDigit(w[0], base)
    ensures Scan(w, base, 0) == (0, 0)
  {
  }

  // ----- in numbers -----

  /** The digits are those of the two tables. */
  lemma DigitIs(d: nat, small: bool)
    requires d < 36
    ensures Digit(d, small) ==
      (if small then "0123456789abcdefghijklmnopqrstuvwxyz" else "0123456789ABCDEFGHIJKLMNOPQRSTUVWXYZ")[d] as int
  {
  }

  /** What a word stands for under the sign flag. */
  function Signed(v: nat, f: Flags): int {
    if f.sign && v >= 0x8000_0000 then v - 0x1_0000_0000 else v
  }

  function Absolute(i: int): nat { if i < 0 then -i else i }

  lemma FrontIs(v: nat, base: nat, f: Flags)
    requires v < TWO32
    ensures Sign(v, f) == if Signed(v, f) < 0 then [45] else if f.plus then [43] else if f.space then [32] else []
    ensures Prefix(base, f) ==
      if !f.special then [] else if base == 8 then [48] else if base == 16 then [48, if f.small then 120 else 88] else []
    ensures Magnitude(v, f) == Absolute(Signed(v, f))
  {
  }

  /** Every field, taken apart: blanks in front or behind, minus, plus or blank for the sign, the prefix, and digits
      that read back as the absolute value. With zero padding there are no blanks. */
  lemma SignedRoundTrip(v: nat, base: nat, size: int, precision: int, f: Flags) returns (b: nat, d: seq<byte>)
    requires v < TWO32 && 2 <= base <= 16
    ensures var i := Signed(v, f);
      var sign: seq<byte> := if i < 0 then [45] else if f.plus then [43] else if f.space then [32] else [];
      var prefix: seq<byte> :=
        if !f.special then [] else if base == 8 then [48] else if base == 16 then [48, if f.small then 120 else 88] else [];
      && Field(v, base, size, precision, f) == (if f.left then sign + prefix + d + Fill(b, 32) else Fill(b, 32) + (sign + prefix + d))
      && ToNumber(d, base) == (Absolute(i), |d|) && (f.zeropad && !f.left ==> b == 0)
      && |Field(v, base, size, precision, f)| == Max(size, |sign| + |prefix| + Max(precision, |Digits(Absolute(i), base, f.small)|))
  {
    hide Digits, Fold, Scan, Sign, Prefix, Magnitude, Figures, Laid, Absolute, Signed;
    FrontIs(v, base, f);
    var s, p, w := Sign(v, f), Prefix(base, f), Figures(v, base, precision, f);
    var room := size - |s| - |p| - |w|;
    var zeros := if f.zeropad && !f.left then room else 0;
    b := if f.zeropad && !f.left then 0 else Max(room, 0);
    d := Fill(zeros, ZERO) + w;
    FoldFigures(zeros, v, base, precision, f);
    ScanFold(d, base, 0);
    assert d[0..] == d;
    TakenApart(s, p, w, room, f);
  }

  lemma TakenApart(s: seq<byte>, p: seq<byte>, w: seq<byte>, room: int, f: Flags)
    ensures var b: nat, zeros := if f.zeropad && !f.left then 0 else Max(room, 0), if f.zeropad && !f.left then room else 0;
      Laid(s, p, w, room, f) ==
        if f.left then s + p + (Fill(zeros, ZERO) + w) + Fill(b, 32) else Fill(b, 32) + (s + p + (Fill(zeros, ZERO) + w))
  {
    assert Fill(0, ZERO) == [] && [] + w == w;
    if f.left {
    } else if f.zeropad {
      assert Fill(0, 32) == [] && [] + (s + p + (Fill(room, ZERO) + w)) == s + p + Fill(room, ZERO) + w;
    } else {
      assert Fill(Max(room, 0), 32) == Fill(room, BLANK);
      assert Fill(room, BLANK) + (s + p + w) == Fill(room, BLANK) + s + p + w;
    }
  }

  /** Reading stops at the first character that is no digit of the base. */
  lemma {:induction false} StopsAt(a: seq<byte>, b: seq<byte>, base: nat, acc: nat)
    requires AllDigits(a, base) && (b != [] ==> !IsDigit(b[0], base))
    ensures Scan(a + b, base, acc) == (Fold(a, base, acc), |a|)
  {
    if a == [] {
      assert a + b == b;
    } else {
      assert (a + b)[0] == a[0] && (a + b)[1..] == a[1..] + b;
      StopsAt(a[1..], b, base, U32(acc * base + Value(a[0])));
    }
  }

  /** With the base left open a number without a leading zero is decimal, whatever follows it but a digit. */
  lemma DecimalIsRead(v: nat, small: bool, rest: seq<byte>)
    requires 0 < v < TWO32 && (rest != [] ==> rest[0] < 48 || 57 < rest[0])
    ensures ToNumber(Digits(v, 10, small) + rest, 0) == (v, |Digits(v, 10, small)|)
  {
    hide Digits, Fold, Scan;
    var d := Digits(v, 10, small);
    FoldDigits(v, 10, small);
    FirstDigit(v, small);
    StopsAt(d, rest, 10, 0);
    assert (d + rest)[0] == d[0] && (d + rest)[0..] == d + rest;
  }

  /** With the base left open `0x` in front of a hexadecimal digit announces base 16 and any other leading zero
      base 8; where no digit follows, the zero alone has been read. */
  lemma LeadingZero(w: seq<byte>)
    ensures ToNumber([48, 120] + w, 0) ==
      if w != [] && (48 <= w[0] <= 57 || 65 <= w[0] <= 70 || 97 <= w[0] <= 102) then (ToNumber(w, 16).0, ToNumber(w, 16).1 + 2) else (0, 1)
    ensures w == [] || w[0] != 120 ==> ToNumber([48] + w, 0) == (ToNumber(w, 8).0, ToNumber(w, 8).1 + 1)
  {
    assert ([48, 120] + w)[2..] == w == w[0..] && ([48] + w)[1..] == w && ([48, 120] + w)[1..] == [120] + w;
  }

  lemma {:induction false} FirstDigit(v: nat, small: bool)
    requires 0 < v
    ensures Digits(v, 10, small) != [] && Digits(v, 10, small)[0] != 48
  {
    if v >= 10 {
      Arith.DivFacts(v, 10);
      FirstDigit(v / 10, small);
    }
  }
}
