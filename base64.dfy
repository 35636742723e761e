/**
  The standard base 64 encoding of section 4 of RFC 4648, with `=` padding:
  the behaviour of Go's `base64.StdEncoding.EncodeToString`, which BasicAuth
  uses to build the credential it expects.
*/
module Base64 {
  import opened Bytes

  /** The pad character `=`. */
  const Pad: byte := '=' as int as byte

  /** The character that stands for the 6-bit value `i` in the alphabet of RFC 4648, section 4, Table 1. */
  function Sym(i: nat): (c: byte)
    requires i < 64
  {
    if i < 26 then (i + 65) as byte          // 'A' to 'Z'
    else if i < 52 then (i - 26 + 97) as byte  // 'a' to 'z'
    else if i < 62 then (i - 52 + 48) as byte  // '0' to '9'
    else if i == 62 then 43                    // '+'
    else 47                                    // '/'
  }

  /** The 64 characters of the alphabet: `A`-`Z`, `a`-`z`, `0`-`9`, `+` and `/`. */
  predicate IsSymbol(c: byte) {
    var ch := c as int as char;
    ('A' <= ch <= 'Z') || ('a' <= ch <= 'z') || ('0' <= ch <= '9') || ch == '+' || ch == '/'
  }

  /** The 6-bit value a character of the alphabet stands for, or -1 for any other byte. */
  function Index(c: byte): (r: int)
    ensures -1 <= r < 64
    ensures r >= 0 <==> IsSymbol(c)
    ensures r >= 0 ==> Sym(r) == c
  {
    var ch := c as int as char;
    if 'A' <= ch <= 'Z' then ch as int - 'A' as int
    else if 'a' <= ch <= 'z' then ch as int - 'a' as int + 26
    else if '0' <= ch <= '9' then ch as int - '0' as int + 52
    else if ch == '+' then 62
    else if ch == '/' then 63
    else -1
  }

  /** Every value of the alphabet is written with a distinct character that `Index` reads back. */
  lemma {:induction false} IndexSym(i: nat)
    requires i < 64
    ensures IsSymbol(Sym(i)) && Index(Sym(i)) == i
  {
  }

  /** The four characters for a full 24-bit group of three bytes. */
  function Group(b0: byte, b1: byte, b2: byte): seq<byte> {
    [Sym(b0 as int / 4),
     Sym(b0 as int % 4 * 16 + b1 as int / 16),
     Sym(b1 as int % 16 * 4 + b2 as int / 64),
     Sym(b2 as int % 64)]
  }

  /** A final group of one byte: two characters, the second filled with zero bits, then `==`. */
  function Final1(b0: byte): seq<byte> {
    [Sym(b0 as int / 4), Sym(b0 as int % 4 * 16), Pad, Pad]
  }

  /** A final group of two bytes: three characters, the third filled with zero bits, then `=`. */
  function Final2(b0: byte, b1: byte): seq<byte> {
    [Sym(b0 as int / 4), Sym(b0 as int % 4 * 16 + b1 as int / 16), Sym(b1 as int % 16 * 4), Pad]
  }

  /** `base64.StdEncoding.EncodeToString(s)`: 4 characters for every 3 bytes, the last group padded. */
  function Encode(s: seq<byte>): (r: seq<byte>)
    ensures |r| == 4 * ((|s| + 2) / 3)
    decreases |s|
  {
    if |s| == 0 then []
    else if |s| == 1 then Final1(s[0])
    else if |s| == 2 then Final2(s[0], s[1])
    else Group(s[0], s[1], s[2]) + Encode(s[3..])
  }

  /** How many `=` end the encoding of `n` bytes: two when n mod 3 = 1, one when n mod 3 = 2, none otherwise. */
  function PadCount(n: nat): nat {
    if n % 3 == 1 then 2 else if n % 3 == 2 then 1 else 0
  }

  /**
    The shape of an encoding `r` that ends in `p` pad characters: the
    characters before the last `p` are all from the alphabet, the last `p` are all `=`.
  */
  predicate Shaped(r: seq<byte>, p: nat) {
    p <= |r| &&
    (forall i :: 0 <= i < |r| - p ==> IsSymbol(r[i])) &&
    (forall i :: |r| - p <= i < |r| ==> r[i] == Pad)
  }

  /** The four characters of a full group are all from the alphabet. */
  lemma {:induction false} GroupShape(b0: byte, b1: byte, b2: byte)
    ensures Shaped(Group(b0, b1, b2), 0)
  {
    IndexSym(b0 as int / 4);
    IndexSym(b0 as int % 4 * 16 + b1 as int / 16);
    IndexSym(b1 as int % 16 * 4 + b2 as int / 64);
    IndexSym(b2 as int % 64);
  }

  /** A final group of one byte is two characters of the alphabet and `==`. */
  lemma {:induction false} Final1Shape(b0: byte)
    ensures Shaped(Final1(b0), 2)
  {
    IndexSym(b0 as int / 4);
    IndexSym(b0 as int % 4 * 16);
  }

  /** A final group of two bytes is three characters of the alphabet and `=`. */
  lemma {:induction false} Final2Shape(b0: byte, b1: byte)
    ensures Shaped(Final2(b0, b1), 1)
  {
    IndexSym(b0 as int / 4);
    IndexSym(b0 as int % 4 * 16 + b1 as int / 16);
    IndexSym(b1 as int % 16 * 4);
  }

  /** Four characters of the alphabet in front of a shaped encoding keep its shape. */
  lemma {:induction false} ShapedThen(g: seq<byte>, r: seq<byte>, p: nat)
    requires Shaped(g, 0) && Shaped(r, p)
    ensures Shaped(g + r, p)
  {
    var t := g + r;
    forall i | 0 <= i < |t| - p ensures IsSymbol(t[i]) {
      if i >= |g| { assert t[i] == r[i - |g|]; }
    }
    forall i | |t| - p <= i < |t| ensures t[i] == Pad {
      assert t[i] == r[i - |g|];
    }
  }

  /** Every encoding of `s` ends in exactly `PadCount(|s|)` pad characters, all before them from the alphabet. */
  lemma {:induction false} EncodeShape(s: seq<byte>)
    ensures Shaped(Encode(s), PadCount(|s|))
    decreases |s|
  {
    if |s| >= 3 {
      EncodeShape(s[3..]);
      GroupShape(s[0], s[1], s[2]);
      ShapedThen(Group(s[0], s[1], s[2]), Encode(s[3..]), PadCount(|s| - 3));
    } else if |s| == 2 {
      Final2Shape(s[0], s[1]);
    } else if |s| == 1 {
      Final1Shape(s[0]);
    }
  }

  /** The pad character is not a character of the alphabet, so the two parts of an encoding never overlap. */
  lemma PadIsNotSymbol()
    ensures !IsSymbol(Pad)
  {
  }

  /** The byte whose high six bits are sextet `i0` and whose low two bits are the high two of `i1`. */
  function Byte0(i0: nat, i1: nat): byte
    requires i0 < 64 && i1 < 64
  {
    (i0 * 4 + i1 / 16) as byte
  }

  /** The byte made of the low four bits of sextet `i1` and the high four bits of `i2`. */
  function Byte1(i1: nat, i2: nat): byte
    requires i1 < 64 && i2 < 64
  {
    (i1 % 16 * 16 + i2 / 4) as byte
  }

  /** The byte made of the low two bits of sextet `i2` and all six bits of `i3`. */
  function Byte2(i2: nat, i3: nat): byte
    requires i2 < 64 && i3 < 64
  {
    (i2 % 4 * 64 + i3) as byte
  }

  /** Four characters of the alphabet read back as the three bytes of a full group. */
  ghost function DecodeGroup(c0: byte, c1: byte, c2: byte, c3: byte): Option<seq<byte>> {
    var i0, i1, i2, i3 := Index(c0), Index(c1), Index(c2), Index(c3);
    if i0 < 0 || i1 < 0 || i2 < 0 || i3 < 0 then None
    else Some([Byte0(i0, i1), Byte1(i1, i2), Byte2(i2, i3)])
  }

  /**
    A final group ending in `=`: `xx==` is one byte and `xxx=` two; the bits
    the padding discards must be zero (RFC 4648, section 3.5).
  */
  ghost function DecodeFinal(c0: byte, c1: byte, c2: byte): Option<seq<byte>> {
    var i0, i1, i2 := Index(c0), Index(c1), Index(c2);
    if i0 < 0 || i1 < 0 then None
    else if c2 == Pad then
      if i1 % 16 == 0 then Some([Byte0(i0, i1)]) else None
    else if i2 < 0 || i2 % 4 != 0 then None
    else Some([Byte0(i0, i1), Byte1(i1, i2)])
  }

  /**
    Strict decoding of the canonical encodings of RFC 4648: the length is a
    multiple of 4, `=` appears only as final padding, and the bits the padding
    discards are zero. The program never decodes; this is the inverse that the
    round-trip lemmas below relate `Encode` to.
  */
  ghost function Decode(t: seq<byte>): Option<seq<byte>>
    decreases |t|
  {
    if |t| == 0 then Some([])
    else if |t| < 4 then None
    else if |t| == 4 && t[3] == Pad then DecodeFinal(t[0], t[1], t[2])
    else
      match DecodeGroup(t[0], t[1], t[2], t[3])
      case None => None
      case Some(g) =>
        match Decode(t[4..])
        case None => None
        case Some(rest) => Some(g + rest)
  }

  /** The first two sextets of a group give its first byte back. */
  lemma {:induction false} BytesOfSextets01(b0: byte, b1: byte)
    ensures Byte0(b0 as int / 4, b0 as int % 4 * 16 + b1 as int / 16) == b0
  {
  }

  /** The second and third sextets of a group give its second byte back. */
  lemma {:induction false} BytesOfSextets1(b0: byte, b1: byte, b2: byte)
    ensures Byte1(b0 as int % 4 * 16 + b1 as int / 16, b1 as int % 16 * 4 + b2 as int / 64) == b1
  {
    var x0, x1, x2 := b0 as int, b1 as int, b2 as int;
    var i1, i2 := x0 % 4 * 16 + x1 / 16, x1 % 16 * 4 + x2 / 64;
    assert i1 % 16 == x1 / 16;
    assert i2 / 4 == x1 % 16;
  }

  /** The third and fourth sextets of a group give its third byte back. */
  lemma {:induction false} BytesOfSextets2(b1: byte, b2: byte)
    ensures Byte2(b1 as int % 16 * 4 + b2 as int / 64, b2 as int % 64) == b2
  {
    var x1, x2 := b1 as int, b2 as int;
    var i2 := x1 % 16 * 4 + x2 / 64;
    assert i2 % 4 == x2 / 64;
  }

  /** The first byte decoded from sextets `i0`, `i1` holds all of `i0` and the high two bits of `i1`. */
  lemma {:induction false} SextetsOfByte0(i0: nat, i1: nat)
    requires i0 < 64 && i1 < 64
    ensures Byte0(i0, i1) as int / 4 == i0 && Byte0(i0, i1) as int % 4 == i1 / 16
  {
  }

  /** The second byte decoded from sextets `i1`, `i2` holds the low four bits of `i1` and the high four of `i2`. */
  lemma {:induction false} SextetsOfByte1(i1: nat, i2: nat)
    requires i1 < 64 && i2 < 64
    ensures Byte1(i1, i2) as int / 16 == i1 % 16 && Byte1(i1, i2) as int % 16 == i2 / 4
  {
  }

  /** The third byte decoded from sextets `i2`, `i3` holds the low two bits of `i2` and all of `i3`. */
  lemma {:induction false} SextetsOfByte2(i2: nat, i3: nat)
    requires i2 < 64 && i3 < 64
    ensures Byte2(i2, i3) as int / 64 == i2 % 4 && Byte2(i2, i3) as int % 64 == i3
  {
  }

  /** Re-encoding the bytes decoded from four sextets gives those sextets back. */
  lemma {:induction false} GroupOfSextets(i0: nat, i1: nat, i2: nat, i3: nat)
    requires i0 < 64 && i1 < 64 && i2 < 64 && i3 < 64
    ensures Group(Byte0(i0, i1), Byte1(i1, i2), Byte2(i2, i3)) == [Sym(i0), Sym(i1), Sym(i2), Sym(i3)]
  {
    SextetsOfByte0(i0, i1);
    SextetsOfByte1(i1, i2);
    SextetsOfByte2(i2, i3);
  }

  /** Re-encoding the byte decoded from two sextets, the second with its low four bits zero, gives them back. */
  lemma {:induction false} Final1OfSextets(i0: nat, i1: nat)
    requires i0 < 64 && i1 < 64 && i1 % 16 == 0
    ensures Final1(Byte0(i0, i1)) == [Sym(i0), Sym(i1), Pad, Pad]
  {
    SextetsOfByte0(i0, i1);
    var b0 := Byte0(i0, i1) as int;
    assert b0 % 4 * 16 == i1 / 16 * 16 == i1;
  }

  /** Re-encoding the bytes decoded from three sextets, the third with its low two bits zero, gives them back. */
  lemma {:induction false} Final2OfSextets(i0: nat, i1: nat, i2: nat)
    requires i0 < 64 && i1 < 64 && i2 < 64 && i2 % 4 == 0
    ensures Final2(Byte0(i0, i1), Byte1(i1, i2)) == [Sym(i0), Sym(i1), Sym(i2), Pad]
  {
    SextetsOfByte0(i0, i1);
    SextetsOfByte1(i1, i2);
    var b1 := Byte1(i1, i2) as int;
    assert b1 % 16 * 4 == i2 / 4 * 4 == i2;
  }

  /** A full group decodes to its three bytes. */
  lemma {:induction false} DecodeGroupOfGroup(b0: byte, b1: byte, b2: byte)
    ensures var g := Group(b0, b1, b2); DecodeGroup(g[0], g[1], g[2], g[3]) == Some([b0, b1, b2])
  {
    IndexSym(b0 as int / 4);
    IndexSym(b0 as int % 4 * 16 + b1 as int / 16);
    IndexSym(b1 as int % 16 * 4 + b2 as int / 64);
    IndexSym(b2 as int % 64);
    BytesOfSextets01(b0, b1);
    BytesOfSextets1(b0, b1, b2);
    BytesOfSextets2(b1, b2);
  }

  /** A final group of one byte decodes to that byte. */
  lemma {:induction false} DecodeFinalOfFinal1(b0: byte)
    ensures Decode(Final1(b0)) == Some([b0])
  {
    IndexSym(b0 as int / 4);
    IndexSym(b0 as int % 4 * 16);
    BytesOfSextets01(b0, 0);
  }

  /** A final group of two bytes decodes to those bytes. */
  lemma {:induction false} DecodeFinalOfFinal2(b0: byte, b1: byte)
    ensures Decode(Final2(b0, b1)) == Some([b0, b1])
  {
    IndexSym(b0 as int / 4);
    IndexSym(b0 as int % 4 * 16 + b1 as int / 16);
    IndexSym(b1 as int % 16 * 4);
    PadIsNotSymbol();
    BytesOfSextets01(b0, b1);
    BytesOfSextets1(b0, b1, 0);
  }

  /** A full group in front of a decodable token decodes to its three bytes in front of the token's bytes. */
  lemma {:induction false} DecodeGroupThen(b0: byte, b1: byte, b2: byte, u: seq<byte>, x: seq<byte>)
    requires Decode(u) == Some(x)
    ensures Decode(Group(b0, b1, b2) + u) == Some([b0, b1, b2] + x)
  {
    var g := Group(b0, b1, b2);
    var t := g + u;
    IndexSym(b2 as int % 64);
    PadIsNotSymbol();
    assert t[3] != Pad;
    DecodeGroupOfGroup(b0, b1, b2);
    assert t[..4] == g && t[4..] == u;
  }

  /** Decoding the encoding of one or two bytes gives them back. */
  lemma {:induction false} DecodeEncodeFinal(s: seq<byte>)
    requires 1 <= |s| <= 2
    ensures Decode(Encode(s)) == Some(s)
  {
    if |s| == 1 {
      DecodeFinalOfFinal1(s[0]);
      assert s == [s[0]];
    } else {
      DecodeFinalOfFinal2(s[0], s[1]);
      assert s == [s[0], s[1]];
    }
  }

  /** If the rest of the input survives the round trip, so does the input with its first full group. */
  lemma {:induction false} DecodeEncodeGroup(s: seq<byte>)
    requires |s| >= 3 && Decode(Encode(s[3..])) == Some(s[3..])
    ensures Decode(Encode(s)) == Some(s)
  {
    DecodeGroupThen(s[0], s[1], s[2], Encode(s[3..]), s[3..]);
    assert s == [s[0], s[1], s[2]] + s[3..];
  }

  /** Decoding an encoding gives back the bytes: the encoding loses nothing. */
  lemma {:induction false} DecodeEncode(s: seq<byte>)
    ensures Decode(Encode(s)) == Some(s)
    decreases |s|
  {
    if |s| >= 3 {
      DecodeEncode(s[3..]);
      DecodeEncodeGroup(s);
    } else if |s| > 0 {
      DecodeEncodeFinal(s);
    }
  }

  /** Four characters that decode as a full group are the encoding of the bytes they decode to. */
  lemma {:induction false} GroupOfDecodeGroup(c0: byte, c1: byte, c2: byte, c3: byte)
    requires DecodeGroup(c0, c1, c2, c3).Some?
    ensures var b := DecodeGroup(c0, c1, c2, c3).value; Group(b[0], b[1], b[2]) == [c0, c1, c2, c3]
  {
    GroupOfSextets(Index(c0), Index(c1), Index(c2), Index(c3));
  }

  /** A final group that decodes is the padded encoding of the bytes it decodes to. */
  lemma {:induction false} FinalOfDecodeFinal(c0: byte, c1: byte, c2: byte)
    requires DecodeFinal(c0, c1, c2).Some?
    ensures var b := DecodeFinal(c0, c1, c2).value;
      (|b| == 1 ==> Final1(b[0]) == [c0, c1, Pad, Pad]) &&
      (|b| == 2 ==> Final2(b[0], b[1]) == [c0, c1, c2, Pad]) &&
      (|b| == 1 || |b| == 2) && (|b| == 1 <==> c2 == Pad)
  {
    if c2 == Pad {
      Final1OfSextets(Index(c0), Index(c1));
    } else {
      Final2OfSextets(Index(c0), Index(c1), Index(c2));
    }
  }

  /** A single padded group that decodes is the encoding of what it decodes to. */
  lemma {:induction false} EncodeDecodeFinal(t: seq<byte>)
    requires |t| == 4 && t[3] == Pad && Decode(t).Some?
    ensures Encode(Decode(t).value) == t
  {
    FinalOfDecodeFinal(t[0], t[1], t[2]);
    var b := DecodeFinal(t[0], t[1], t[2]).value;
    if |b| == 1 {
      assert t == [t[0], t[1], Pad, Pad];
    } else {
      assert t == [t[0], t[1], t[2], Pad];
    }
  }

  /** A full group in front of the encoding of `x` is the encoding of the group's bytes followed by `x`. */
  lemma {:induction false} EncodeDecodeGroup(t: seq<byte>, x: seq<byte>)
    requires |t| >= 4 && DecodeGroup(t[0], t[1], t[2], t[3]).Some? && Encode(x) == t[4..]
    ensures Encode(DecodeGroup(t[0], t[1], t[2], t[3]).value + x) == t
  {
    GroupOfDecodeGroup(t[0], t[1], t[2], t[3]);
    var g := DecodeGroup(t[0], t[1], t[2], t[3]).value;
    assert (g + x)[3..] == x;
    assert t == [t[0], t[1], t[2], t[3]] + t[4..];
  }

  /** Every canonical token is the encoding of what it decodes to: there is one token per byte string. */
  lemma {:induction false} EncodeDecode(t: seq<byte>)
    requires Decode(t).Some?
    ensures Encode(Decode(t).value) == t
    decreases |t|
  {
    if |t| == 4 && t[3] == Pad {
      EncodeDecodeFinal(t);
    } else if |t| > 0 {
      EncodeDecode(t[4..]);
      EncodeDecodeGroup(t, Decode(t[4..]).value);
    }
  }

  /** The test vectors of section 10 of RFC 4648 whose input is one full group or less. */
  lemma ShortVectors()
    ensures Encode(Ascii("")) == Ascii("")
    ensures Encode(Ascii("f")) == Ascii("Zg==")
    ensures Encode(Ascii("fo")) == Ascii("Zm8=")
    ensures Encode(Ascii("foo")) == Ascii("Zm9v")
  {
    assert Ascii("foo") == [102, 111, 111];
    assert Ascii("foo")[3..] == [];
  }

  /** A test vector of section 10 of RFC 4648: one group, then one byte padded with `==`. */
  lemma VectorFoob()
    ensures Encode(Ascii("foob")) == Ascii("Zm9vYg==")
  {
    var s := Ascii("foob");
    assert s == [102, 111, 111, 98];
    assert s[3..] == [98];
  }

  /** A test vector of section 10 of RFC 4648: one group, then two bytes padded with `=`. */
  lemma VectorFooba()
    ensures Encode(Ascii("fooba")) == Ascii("Zm9vYmE=")
  {
    var s := Ascii("fooba");
    assert s == [102, 111, 111, 98, 97];
    assert s[3..] == [98, 97];
  }

  /** An input of three bytes or more encodes as its first full group followed by the encoding of the rest. */
  lemma {:induction false} EncodeGroupThen(b0: byte, b1: byte, b2: byte, u: seq<byte>)
    ensures Encode([b0, b1, b2] + u) == Group(b0, b1, b2) + Encode(u)
  {
    assert ([b0, b1, b2] + u)[3..] == u;
  }

  /** The groups of the longer test vectors below, byte by byte. */
  lemma VectorGroups()
    ensures Group(102, 111, 111) == [90, 109, 57, 118]    // "foo" is "Zm9v"
    ensures Group(98, 97, 114) == [89, 109, 70, 121]      // "bar" is "YmFy"
    ensures Group(117, 115, 101) == [100, 88, 78, 108]    // "use" is "dXNl"
    ensures Group(114, 58, 112) == [99, 106, 112, 119]    // "r:p" is "cjpw"
    ensures Group(97, 115, 115) == [89, 88, 78, 122]      // "ass" is "YXNz"
    ensures Group(58, 98, 97) == [79, 109, 74, 104]       // ":ba" is "OmJh"
    ensures Final1(114) == [99, 103, 61, 61]              // "r" is "cg=="
  {
  }

  /** A test vector of section 10 of RFC 4648: two full groups, no padding. */
  lemma VectorFoobar()
    ensures Encode(Ascii("foobar")) == Ascii("Zm9vYmFy")
  {
    assert Ascii("foobar") == [102, 111, 111] + ([98, 97, 114] + []);
    assert Ascii("Zm9vYmFy") == [90, 109, 57, 118] + ([89, 109, 70, 121] + []);
    VectorGroups();
    EncodeGroupThen(98, 97, 114, []);
    EncodeGroupThen(102, 111, 111, [98, 97, 114] + []);
  }

  /** The bytes of `user:pass` encode as the bytes of `dXNlcjpwYXNz`. */
  lemma EncodeUserPassBytes()
    ensures Encode([117, 115, 101, 114, 58, 112, 97, 115, 115]) == [100, 88, 78, 108, 99, 106, 112, 119, 89, 88, 78, 122]
  {
    VectorGroups();
    EncodeGroupThen(97, 115, 115, []);
    EncodeGroupThen(114, 58, 112, [97, 115, 115]);
    EncodeGroupThen(117, 115, 101, [114, 58, 112, 97, 115, 115]);
    assert [117, 115, 101, 114, 58, 112, 97, 115, 115] == [117, 115, 101] + [114, 58, 112, 97, 115, 115];
    assert [114, 58, 112, 97, 115, 115] == [114, 58, 112] + [97, 115, 115];
    assert [97, 115, 115] == [97, 115, 115] + [];
  }

  /** The token of the test suite's `user` / `pass` credentials. */
  lemma VectorUserPass()
    ensures Encode(Ascii("user:pass")) == Ascii("dXNlcjpwYXNz")
  {
    assert Ascii("user:pass") == [117, 115, 101, 114, 58, 112, 97, 115, 115];
    assert Ascii("dXNlcjpwYXNz") == [100, 88, 78, 108, 99, 106, 112, 119, 89, 88, 78, 122];
    EncodeUserPassBytes();
  }

  /** The bytes of `foo:bar` encode as the bytes of `Zm9vOmJhcg==`. */
  lemma EncodeFooBarBytes()
    ensures Encode([102, 111, 111, 58, 98, 97, 114]) == [90, 109, 57, 118, 79, 109, 74, 104, 99, 103, 61, 61]
  {
    VectorGroups();
    EncodeGroupThen(58, 98, 97, [114]);
    EncodeGroupThen(102, 111, 111, [58, 98, 97, 114]);
    assert [102, 111, 111, 58, 98, 97, 114] == [102, 111, 111] + [58, 98, 97, 114];
    assert [58, 98, 97, 114] == [58, 98, 97] + [114];
  }

  /** The token of the test suite's `foo` / `bar` credentials. */
  lemma VectorFooBar()
    ensures Encode(Ascii("foo:bar")) == Ascii("Zm9vOmJhcg==")
  {
    assert Ascii("foo:bar") == [102, 111, 111, 58, 98, 97, 114];
    assert Ascii("Zm9vOmJhcg==") == [90, 109, 57, 118, 79, 109, 74, 104, 99, 103, 61, 61];
    EncodeFooBarBytes();
  }

  /** Distinct byte strings have distinct encodings. */
  lemma {:induction false} EncodeInjective(a: seq<byte>, b: seq<byte>)
    ensures Encode(a) == Encode(b) <==> a == b
  {
    DecodeEncode(a);
    DecodeEncode(b);
  }
}
