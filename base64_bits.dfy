/**
  The encoding process of section 4 of RFC 4648 stated on bits, independently
  of the byte arithmetic in `Base64.Encode`: the input bytes are concatenated
  into one bit stream (most significant bit first), the stream is cut into
  6-bit groups with a final partial group completed by zero bits, each group
  is written as its character of the alphabet, and `=` is appended until the
  output is a whole number of 4-character quanta. `EncodeIsReference` proves
  that the encoder the program uses produces exactly this.
*/
module Base64Bits {
  import opened Bytes
  import opened Base64

  function Pow2(n: nat): (p: nat)
    ensures p > 0
  {
    if n == 0 then 1 else 2 * Pow2(n - 1)
  }

  /** The low `w` bits of `x`, most significant first. */
  ghost function BitsOf(x: nat, w: nat): (r: seq<bool>)
    ensures |r| == w
  {
    if w == 0 then [] else BitsOf(x / 2, w - 1) + [x % 2 == 1]
  }

  /** The input bit stream: the eight bits of each byte in turn, most significant first. */
  ghost function Bits(s: seq<byte>): (r: seq<bool>)
    ensures |r| == 8 * |s|
  {
    if s == [] then [] else BitsOf(s[0] as nat, 8) + Bits(s[1..])
  }

  /** The number a bit string denotes, most significant bit first. */
  ghost function Value(bits: seq<bool>): nat {
    if bits == [] then 0
    else 2 * Value(bits[..|bits| - 1]) + (if bits[|bits| - 1] then 1 else 0)
  }

  ghost function Zeros(n: nat): (z: seq<bool>)
    ensures |z| == n
  {
    seq(n, _ => false)
  }

  /** A string of `n` bits denotes a number below 2^n. */
  lemma {:induction false} ValueBound(bits: seq<bool>)
    ensures Value(bits) < Pow2(|bits|)
    decreases |bits|
  {
    if bits != [] {
      ValueBound(bits[..|bits| - 1]);
    }
  }

  /** The stream cut into 6-bit values; a final partial group is completed with zero bits. */
  ghost function Sextets(bits: seq<bool>): (r: seq<nat>)
    ensures |r| == (|bits| + 5) / 6
    ensures forall i :: 0 <= i < |r| ==> r[i] < 64
    decreases |bits|
  {
    if bits == [] then []
    else if |bits| <= 6 then
      ValueBound(bits + Zeros(6 - |bits|));
      [Value(bits + Zeros(6 - |bits|))]
    else
      ValueBound(bits[..6]);
      [Value(bits[..6])] + Sextets(bits[6..])
  }

  /** Each 6-bit value written as its character of the alphabet. */
  ghost function Chars(xs: seq<nat>): (r: seq<byte>)
    requires forall i :: 0 <= i < |xs| ==> xs[i] < 64
    ensures |r| == |xs|
  {
    if xs == [] then [] else [Sym(xs[0])] + Chars(xs[1..])
  }

  /** The `=` characters that complete `n` characters to a whole number of 4-character quanta. */
  function Pads(n: nat): seq<byte> {
    seq((4 - n % 4) % 4, _ => Pad)
  }

  /** The encoding of section 4 of RFC 4648, stated on the bit stream. */
  ghost function Reference(s: seq<byte>): seq<byte> {
    var xs := Sextets(Bits(s));
    Chars(xs) + Pads(|xs|)
  }

  /** One more low bit doubles both the shifted front part and the back part. */
  lemma {:induction false} ShiftStep(v: int, p: int, w: int, bit: int)
    ensures 2 * (v * p + w) + bit == v * (2 * p) + (2 * w + bit)
  {
    assert v * (2 * p) == 2 * (v * p);
  }

  /** Appending bits shifts the value of the front part by the length of the back part. */
  lemma {:induction false} ValueAppend(x: seq<bool>, y: seq<bool>)
    ensures Value(x + y) == Value(x) * Pow2(|y|) + Value(y)
    decreases |y|
  {
    if y != [] {
      var y' := y[..|y| - 1];
      assert (x + y)[..|x + y| - 1] == x + y';
      assert (x + y)[|x + y| - 1] == y[|y| - 1];
      ValueAppend(x, y');
      var bit := if y[|y| - 1] then 1 else 0;
      var v, p, w := Value(x), Pow2(|y'|), Value(y');
      assert Value(x + y) == 2 * Value(x + y') + bit;
      assert Value(x + y') == v * p + w;
      assert Value(y) == 2 * w + bit;
      assert Pow2(|y|) == 2 * p;
      ShiftStep(v, p, w, bit);
    } else {
      assert x + y == x;
    }
  }

  /** `BitsOf` writes every number below 2^w in w bits without loss. */
  lemma {:induction false} ValueBitsOf(x: nat, w: nat)
    requires x < Pow2(w)
    ensures Value(BitsOf(x, w)) == x
    decreases w
  {
    if w > 0 {
      var b := BitsOf(x, w);
      assert b[..w - 1] == BitsOf(x / 2, w - 1);
      ValueBitsOf(x / 2, w - 1);
    }
  }

  /** Zero bits denote zero. */
  lemma {:induction false} ValueZeros(n: nat)
    ensures Value(Zeros(n)) == 0
    decreases n
  {
    if n > 0 {
      assert Zeros(n)[..n - 1] == Zeros(n - 1);
      ValueZeros(n - 1);
    }
  }

  /** Completing a string with zero bits shifts its value. */
  lemma {:induction false} ValuePadded(x: seq<bool>, n: nat)
    ensures Value(x + Zeros(n)) == Value(x) * Pow2(n)
  {
    ValueAppend(x, Zeros(n));
    ValueZeros(n);
  }

  /** The first `k` and the last `8 - k` bits of a byte, for the cut points a group of three bytes uses. */
  lemma {:induction false} ByteSplit(b: byte, k: nat)
    requires k == 2 || k == 4 || k == 6
    ensures var bs := BitsOf(b as nat, 8);
      Value(bs[..k]) == b as nat / Pow2(8 - k) && Value(bs[k..]) == b as nat % Pow2(8 - k)
  {
    var bs := BitsOf(b as nat, 8);
    assert bs == bs[..k] + bs[k..];
    ValueAppend(bs[..k], bs[k..]);
    assert Pow2(8) == 256;
    ValueBitsOf(b as nat, 8);
    ValueBound(bs[k..]);
    DivModOf(b as nat, Value(bs[..k]), Value(bs[k..]), 8 - k);
  }

  /** Splitting a number into a quotient and a remainder by 4, 16 or 64. */
  lemma {:induction false} DivModOf(n: int, q: int, r: int, e: nat)
    requires e == 2 || e == 4 || e == 6
    requires 0 <= r < Pow2(e) && n == q * Pow2(e) + r
    ensures n / Pow2(e) == q && n % Pow2(e) == r
  {
    if e == 2 {
      assert Pow2(e) == 4;
    } else if e == 4 {
      assert Pow2(e) == 16;
    } else {
      assert Pow2(e) == 64;
    }
  }

  /** The bit stream of a concatenation is the concatenation of the bit streams. */
  lemma {:induction false} BitsAppend(a: seq<byte>, b: seq<byte>)
    ensures Bits(a + b) == Bits(a) + Bits(b)
    decreases |a|
  {
    if a != [] {
      assert (a + b)[0] == a[0];
      assert (a + b)[1..] == a[1..] + b;
      BitsAppend(a[1..], b);
      calc {
        Bits(a + b);
        BitsOf(a[0] as nat, 8) + Bits(a[1..] + b);
        BitsOf(a[0] as nat, 8) + (Bits(a[1..]) + Bits(b));
        (BitsOf(a[0] as nat, 8) + Bits(a[1..])) + Bits(b);
      }
    } else {
      assert a + b == b;
    }
  }

  /** A stream of six bits or more starts with the value of its first six. */
  lemma {:induction false} SextetsFront(z: seq<bool>)
    requires |z| >= 6
    ensures Sextets(z) == [Value(z[..6])] + Sextets(z[6..])
  {
    if |z| == 6 {
      assert z + Zeros(0) == z[..6];
      assert z[6..] == [];
    }
  }

  /** Cutting into sextets distributes over a front part of whole sextets. */
  lemma {:induction false} SextetsAppend(x: seq<bool>, y: seq<bool>)
    requires |x| % 6 == 0
    ensures Sextets(x + y) == Sextets(x) + Sextets(y)
    decreases |x|
  {
    if x == [] {
      assert x + y == y;
    } else if y == [] {
      assert x + y == x;
    } else {
      var v := Value(x[..6]);
      SextetsFront(x + y);
      SextetsFront(x);
      assert (x + y)[..6] == x[..6];
      assert (x + y)[6..] == x[6..] + y;
      SextetsAppend(x[6..], y);
      var xs, ys := Sextets(x[6..]), Sextets(y);
      assert Sextets(x + y) == [v] + (xs + ys);
      assert [v] + (xs + ys) == ([v] + xs) + ys;
    }
  }

  /** Writing characters distributes over concatenation. */
  lemma {:induction false} CharsAppend(xs: seq<nat>, ys: seq<nat>)
    requires forall i :: 0 <= i < |xs| ==> xs[i] < 64
    requires forall i :: 0 <= i < |ys| ==> ys[i] < 64
    ensures Chars(xs + ys) == Chars(xs) + Chars(ys)
    decreases |xs|
  {
    if xs != [] {
      assert (xs + ys)[0] == xs[0];
      assert (xs + ys)[1..] == xs[1..] + ys;
      CharsAppend(xs[1..], ys);
      calc {
        Chars(xs + ys);
        [Sym(xs[0])] + Chars(xs[1..] + ys);
        [Sym(xs[0])] + (Chars(xs[1..]) + Chars(ys));
        ([Sym(xs[0])] + Chars(xs[1..])) + Chars(ys);
      }
    } else {
      assert xs + ys == ys;
    }
  }

  /** The bit stream of one byte is its eight bits. */
  lemma {:induction false} BitsOfOne(b0: byte)
    ensures Bits([b0]) == BitsOf(b0 as nat, 8)
  {
    assert [b0][1..] == [];
    assert BitsOf(b0 as nat, 8) + [] == BitsOf(b0 as nat, 8);
  }

  /** Each character written is the one for the value at the same position. */
  lemma {:induction false} CharsAt(xs: seq<nat>, i: nat)
    requires forall j :: 0 <= j < |xs| ==> xs[j] < 64
    requires i < |xs|
    ensures Chars(xs)[i] == Sym(xs[i])
    decreases i
  {
    if i > 0 {
      CharsAt(xs[1..], i - 1);
    }
  }

  /** The bit stream of three bytes is their three 8-bit strings. */
  lemma {:induction false} BitsOfThree(b0: byte, b1: byte, b2: byte)
    ensures Bits([b0, b1, b2]) == BitsOf(b0 as nat, 8) + (BitsOf(b1 as nat, 8) + BitsOf(b2 as nat, 8))
  {
    BitsOfOne(b0);
    BitsOfOne(b1);
    BitsOfOne(b2);
    assert [b0, b1, b2] == [b0] + ([b1] + [b2]);
    BitsAppend([b1], [b2]);
    BitsAppend([b0], [b1] + [b2]);
  }

  /** 24 bits are cut into four sextets at bits 6, 12 and 18. */
  lemma {:induction false} SextetsOf24(a: seq<bool>, b: seq<bool>, c: seq<bool>)
    requires |a| == 8 && |b| == 8 && |c| == 8
    ensures Sextets(a + (b + c)) == [Value(a[..6]), Value(a[6..] + b[..4]), Value(b[4..] + c[..2]), Value(c[2..])]
  {
    var s1, s2, s3 := a[6..] + b + c, b[4..] + c, c[2..];
    SextetsFront(a + (b + c));
    assert (a + (b + c))[..6] == a[..6] && (a + (b + c))[6..] == s1;
    SextetsFront(s1);
    assert s1[..6] == a[6..] + b[..4] && s1[6..] == s2;
    SextetsFront(s2);
    assert s2[..6] == b[4..] + c[..2] && s2[6..] == s3;
    SextetsFront(s3);
    assert s3[..6] == c[2..] && s3[6..] == [];
  }

  /** The values of the four 6-bit pieces of three bytes are the sextets `Group` writes. */
  lemma {:induction false} ValuesOfGroup(b0: byte, b1: byte, b2: byte)
    ensures var a, b, c := BitsOf(b0 as nat, 8), BitsOf(b1 as nat, 8), BitsOf(b2 as nat, 8);
      Value(a[..6]) == b0 as nat / 4 &&
      Value(a[6..] + b[..4]) == b0 as nat % 4 * 16 + b1 as nat / 16 &&
      Value(b[4..] + c[..2]) == b1 as nat % 16 * 4 + b2 as nat / 64 &&
      Value(c[2..]) == b2 as nat % 64
  {
    var a, b, c := BitsOf(b0 as nat, 8), BitsOf(b1 as nat, 8), BitsOf(b2 as nat, 8);
    ByteSplit(b0, 6);
    ByteSplit(b1, 4);
    ByteSplit(b2, 2);
    ValueAppend(a[6..], b[..4]);
    ValueAppend(b[4..], c[..2]);
    assert Pow2(4) == 16 && Pow2(2) == 4;
  }

  /** The 24 bits of a full group are the four sextets `Group` writes. */
  lemma {:induction false} SextetsOfGroup(b0: byte, b1: byte, b2: byte)
    ensures Sextets(Bits([b0, b1, b2])) ==
      [b0 as nat / 4, b0 as nat % 4 * 16 + b1 as nat / 16, b1 as nat % 16 * 4 + b2 as nat / 64, b2 as nat % 64]
  {
    BitsOfThree(b0, b1, b2);
    SextetsOf24(BitsOf(b0 as nat, 8), BitsOf(b1 as nat, 8), BitsOf(b2 as nat, 8));
    ValuesOfGroup(b0, b1, b2);
  }

  /** The 8 bits of a lone final byte are the two sextets `Final1` writes. */
  lemma {:induction false} SextetsOfFinal1(b0: byte)
    ensures Sextets(Bits([b0])) == [b0 as nat / 4, b0 as nat % 4 * 16]
  {
    var a := BitsOf(b0 as nat, 8);
    BitsOfOne(b0);
    ByteSplit(b0, 6);
    ValuePadded(a[6..], 4);
    assert Pow2(4) == 16;
  }

  /** The 16 bits of two final bytes are the three sextets `Final2` writes. */
  lemma {:induction false} SextetsOfFinal2(b0: byte, b1: byte)
    ensures Sextets(Bits([b0, b1])) == [b0 as nat / 4, b0 as nat % 4 * 16 + b1 as nat / 16, b1 as nat % 16 * 4]
  {
    var a, b := BitsOf(b0 as nat, 8), BitsOf(b1 as nat, 8);
    BitsOfOne(b0);
    BitsOfOne(b1);
    assert [b0, b1] == [b0] + [b1];
    BitsAppend([b0], [b1]);
    assert Bits([b0, b1]) == a + b;
    ByteSplit(b0, 6);
    ByteSplit(b1, 4);
    var s1 := a[6..] + b;
    assert (a + b)[..6] == a[..6] && (a + b)[6..] == s1;
    assert s1[..6] == a[6..] + b[..4] && s1[6..] == b[4..];
    ValueAppend(a[6..], b[..4]);
    ValuePadded(b[4..], 2);
    assert Pow2(4) == 16 && Pow2(2) == 4;
    assert Sextets(b[4..]) == [Value(b[4..] + Zeros(2))];
    assert Sextets(s1) == [Value(a[6..] + b[..4])] + Sextets(b[4..]);
    assert Sextets(a + b) == [Value(a[..6])] + Sextets(s1);
  }

  /** The reference encoding of one byte is `Final1`. */
  lemma {:induction false} ReferenceFinal1(b0: byte)
    ensures Reference([b0]) == Final1(b0)
  {
    var xs := Sextets(Bits([b0]));
    SextetsOfFinal1(b0);
    CharsAt(xs, 0);
    CharsAt(xs, 1);
  }

  /** The reference encoding of two bytes is `Final2`. */
  lemma {:induction false} ReferenceFinal2(b0: byte, b1: byte)
    ensures Reference([b0, b1]) == Final2(b0, b1)
  {
    var xs := Sextets(Bits([b0, b1]));
    SextetsOfFinal2(b0, b1);
    CharsAt(xs, 0);
    CharsAt(xs, 1);
    CharsAt(xs, 2);
  }

  /** Four more characters leave the number of `=` needed unchanged. */
  lemma {:induction false} PadShift(n: nat)
    ensures Pads(n + 4) == Pads(n)
  {
    assert (4 - (n + 4) % 4) % 4 == (4 - n % 4) % 4;
  }

  /** The characters written for the bits of a full group are `Group`. */
  lemma {:induction false} CharsOfGroup(b0: byte, b1: byte, b2: byte)
    ensures Chars(Sextets(Bits([b0, b1, b2]))) == Group(b0, b1, b2)
  {
    var xs := Sextets(Bits([b0, b1, b2]));
    SextetsOfGroup(b0, b1, b2);
    CharsAt(xs, 0);
    CharsAt(xs, 1);
    CharsAt(xs, 2);
    CharsAt(xs, 3);
  }

  /** A full group in front of the rest contributes its four characters and leaves the padding to the rest. */
  lemma {:induction false} ReferenceGroup(s: seq<byte>)
    requires |s| >= 3
    ensures Reference(s) == Group(s[0], s[1], s[2]) + Reference(s[3..])
  {
    var g := [s[0], s[1], s[2]];
    assert s == g + s[3..];
    BitsAppend(g, s[3..]);
    SextetsAppend(Bits(g), Bits(s[3..]));
    var xs, ys := Sextets(Bits(g)), Sextets(Bits(s[3..]));
    CharsOfGroup(s[0], s[1], s[2]);
    CharsAppend(xs, ys);
    PadShift(|ys|);
    assert |xs + ys| == |ys| + 4;
  }

  /** The encoder the program uses is the encoding process of section 4 of RFC 4648. */
  lemma {:induction false} EncodeIsReference(s: seq<byte>)
    ensures Encode(s) == Reference(s)
    decreases |s|
  {
    if |s| == 1 {
      assert s == [s[0]];
      ReferenceFinal1(s[0]);
    } else if |s| == 2 {
      assert s == [s[0], s[1]];
      ReferenceFinal2(s[0], s[1]);
    } else if |s| >= 3 {
      ReferenceGroup(s);
      EncodeIsReference(s[3..]);
    }
  }
}
