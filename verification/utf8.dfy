/** UTF-8 (RFC 3629) over Dafny strings.

    A Dafny `char` is a Unicode scalar value, so a `string` is exactly the kind of
    text `Encoding.UTF8.GetBytes` encodes without substitution.  Decoding follows
    `Encoding.UTF8.GetString`: it never fails; each maximal ill-formed subpart is
    replaced by one U+FFFD, the substitution practice of section 3.9 of the
    Unicode Standard that .NET follows. */
module Utf8 {

  type byte = b: int | 0 <= b < 0x100

  const Replacement: char := '\U{FFFD}'

  // ---------------------------------------------------------------------------
  // Encoding

  /** The UTF-8 form of one scalar value: 1 to 4 bytes, the lead byte carrying
      the top bits and each continuation byte six more. */
  function EncodeScalar(c: char): (r: seq<byte>)
    ensures 1 <= |r| <= 4
    ensures (|r| == 1) == (c as int < 0x80)
  {
    var v := c as int;
    if v < 0x80 then [v]
    else if v < 0x800 then [0xC0 + v / 64, 0x80 + v % 64]
    else if v < 0x1_0000 then [0xE0 + v / 4096, 0x80 + (v / 64) % 64, 0x80 + v % 64]
    else [0xF0 + v / 262144, 0x80 + (v / 4096) % 64, 0x80 + (v / 64) % 64, 0x80 + v % 64]
  }

  /** `Encoding.UTF8.GetBytes`: the concatenation of the scalars' encodings (no byte order mark). */
  function Encode(s: string): (r: seq<byte>)
    ensures |s| <= |r| <= 4 * |s|
  {
    if |s| == 0 then [] else EncodeScalar(s[0]) + Encode(s[1..])
  }

  // ---------------------------------------------------------------------------
  // Well-formedness (Table 3-7 of the Unicode Standard, section 4 of RFC 3629)

  /** Length of the well-formed sequence a lead byte opens, 0 if none can start with it. */
  function SequenceLength(b0: byte): (n: nat)
  {
    if b0 < 0x80 then 1
    else if 0xC2 <= b0 <= 0xDF then 2
    else if 0xE0 <= b0 <= 0xEF then 3
    else if 0xF0 <= b0 <= 0xF4 then 4
    else 0
  }

  /** The range the second byte must fall in after a multi-byte lead byte; it
      rules out overlong forms, surrogates and values above U+10FFFF. */
  function SecondLow(b0: byte): (lo: byte)
  {
    if b0 == 0xE0 then 0xA0 else if b0 == 0xF0 then 0x90 else 0x80
  }

  function SecondHigh(b0: byte): (hi: byte)
  {
    if b0 == 0xED then 0x9F else if b0 == 0xF4 then 0x8F else 0xBF
  }

  predicate IsContinuation(b: byte)
  {
    0x80 <= b <= 0xBF
  }

  /** `b` starts with a complete well-formed sequence. */
  predicate StartsWellFormed(b: seq<byte>)
  {
    && |b| > 0
    && var n := SequenceLength(b[0]);
    && 1 <= n <= |b|
    && (n >= 2 ==> SecondLow(b[0]) <= b[1] <= SecondHigh(b[0]))
    && (n >= 3 ==> IsContinuation(b[2]))
    && (n >= 4 ==> IsContinuation(b[3]))
  }

  /** `b` is a concatenation of well-formed sequences. */
  predicate WellFormed(b: seq<byte>)
    decreases |b|
  {
    |b| == 0 || (StartsWellFormed(b) && WellFormed(b[SequenceLength(b[0])..]))
  }

  // ---------------------------------------------------------------------------
  // Decoding with substitution

  /** The first character `Encoding.UTF8.GetString` produces from `b` and the
      number of bytes it consumes: a scalar for a well-formed sequence, otherwise
      U+FFFD for the maximal subpart (the longest prefix of some well-formed
      sequence, at least one byte). */
  function DecodeFirst(b: seq<byte>): (d: (char, nat))
    requires |b| > 0
    ensures 1 <= d.1 <= |b|
    ensures StartsWellFormed(b) ==> d.1 == SequenceLength(b[0])
    ensures !StartsWellFormed(b) ==> d.0 == Replacement && d.1 < 4
  {
    var n := SequenceLength(b[0]);
    if n == 1 then (b[0] as char, 1)
    else if n == 0 || |b| < 2 || !(SecondLow(b[0]) <= b[1] <= SecondHigh(b[0])) then (Replacement, 1)
    else if n == 2 then (Combine2(b[0], b[1]) as char, 2)
    else if |b| < 3 || !IsContinuation(b[2]) then (Replacement, 2)
    else if n == 3 then (Combine3(b[0], b[1], b[2]) as char, 3)
    else if |b| < 4 || !IsContinuation(b[3]) then (Replacement, 3)
    else (Combine4(b[0], b[1], b[2], b[3]) as char, 4)
  }

  /** The scalar value a well-formed two-, three- or four-byte sequence carries. */
  function Combine2(b0: byte, b1: byte): (v: int)
    requires 0xC2 <= b0 <= 0xDF && IsContinuation(b1)
    ensures 0x80 <= v < 0x800
  {
    (b0 as int - 0xC0) * 64 + (b1 as int - 0x80)
  }

  function Combine3(b0: byte, b1: byte, b2: byte): (v: int)
    requires 0xE0 <= b0 <= 0xEF && SecondLow(b0) <= b1 <= SecondHigh(b0) && IsContinuation(b2)
    ensures 0x800 <= v < 0xD800 || 0xE000 <= v < 0x1_0000
  {
    (b0 as int - 0xE0) * 4096 + (b1 as int - 0x80) * 64 + (b2 as int - 0x80)
  }

  function Combine4(b0: byte, b1: byte, b2: byte, b3: byte): (v: int)
    requires 0xF0 <= b0 <= 0xF4 && SecondLow(b0) <= b1 <= SecondHigh(b0)
    requires IsContinuation(b2) && IsContinuation(b3)
    ensures 0x1_0000 <= v < 0x11_0000
  {
    (b0 as int - 0xF0) * 262144 + (b1 as int - 0x80) * 4096 + (b2 as int - 0x80) * 64 + (b3 as int - 0x80)
  }

  /** `Encoding.UTF8.GetString`: total, one character per decoded step. */
  function Decode(b: seq<byte>): (s: string)
    ensures |s| <= |b|
    decreases |b|
  {
    if |b| == 0 then "" else var d := DecodeFirst(b); [d.0] + Decode(b[d.1..])
  }

  // ---------------------------------------------------------------------------
  // Round trips

  // Euclidean division by the radices the encoding uses, stated once.
  lemma DivMod64(q: int, r: int)
    requires q >= 0 && 0 <= r < 64
    ensures (q * 64 + r) / 64 == q && (q * 64 + r) % 64 == r
  {
  }

  lemma DivMod4096(q: int, r: int)
    requires q >= 0 && 0 <= r < 4096
    ensures (q * 4096 + r) / 4096 == q
  {
  }

  lemma DivMod262144(q: int, r: int)
    requires q >= 0 && 0 <= r < 262144
    ensures (q * 262144 + r) / 262144 == q
  {
  }

  /** Splitting a scalar into 6-bit groups and recombining them gives it back. */
  lemma SplitThree(v: int)
    requires 0 <= v
    ensures v == (v / 4096) * 4096 + ((v / 64) % 64) * 64 + v % 64
  {
    var h, m, l := v / 4096, (v / 64) % 64, v % 64;
    assert v == (v / 64) * 64 + l;
    assert v / 64 == (v / 64 / 64) * 64 + m;
    DivMod4096(v / 64 / 64, m * 64 + l);
  }

  lemma SplitFour(v: int)
    requires 0 <= v
    ensures v == (v / 262144) * 262144 + ((v / 4096) % 64) * 4096 + ((v / 64) % 64) * 64 + v % 64
  {
    SplitThree(v);
    var t := v / 4096;
    assert t == (t / 64) * 64 + t % 64;
    DivMod262144(t / 64, (t % 64) * 4096 + (v % 4096));
    assert v == t * 4096 + v % 4096;
  }

  /** Decoding the encoding of one scalar gives it back and consumes exactly its bytes. */
  lemma DecodeFirstEncodeScalar(c: char, rest: seq<byte>)
    ensures StartsWellFormed(EncodeScalar(c) + rest)
    ensures DecodeFirst(EncodeScalar(c) + rest) == (c, |EncodeScalar(c)|)
  {
    var v := c as int;
    if v < 0x80 {
    } else if v < 0x800 {
      DecodeFirstTwo(c, rest);
    } else if v < 0x1_0000 {
      DecodeFirstThree(c, rest);
    } else {
      DecodeFirstFour(c, rest);
    }
  }

  lemma DecodeFirstTwo(c: char, rest: seq<byte>)
    requires 0x80 <= c as int < 0x800
    ensures StartsWellFormed(EncodeScalar(c) + rest)
    ensures DecodeFirst(EncodeScalar(c) + rest) == (c, 2)
  {
    var b := EncodeScalar(c) + rest;
    var v := c as int;
    assert b[0] == 0xC0 + v / 64 && b[1] == 0x80 + v % 64;
    assert Combine2(b[0], b[1]) == v;
  }

  lemma DecodeFirstThree(c: char, rest: seq<byte>)
    requires 0x800 <= c as int < 0x1_0000
    ensures StartsWellFormed(EncodeScalar(c) + rest)
    ensures DecodeFirst(EncodeScalar(c) + rest) == (c, 3)
  {
    var b := EncodeScalar(c) + rest;
    var v := c as int;
    assert b[0] == 0xE0 + v / 4096 && b[1] == 0x80 + (v / 64) % 64 && b[2] == 0x80 + v % 64;
    SplitThree(v);
    assert Combine3(b[0], b[1], b[2]) == v;
  }

  lemma DecodeFirstFour(c: char, rest: seq<byte>)
    requires 0x1_0000 <= c as int
    ensures StartsWellFormed(EncodeScalar(c) + rest)
    ensures DecodeFirst(EncodeScalar(c) + rest) == (c, 4)
  {
    var b := EncodeScalar(c) + rest;
    var v := c as int;
    assert b[0] == 0xF0 + v / 262144 && b[1] == 0x80 + (v / 4096) % 64;
    assert b[2] == 0x80 + (v / 64) % 64 && b[3] == 0x80 + v % 64;
    SplitFour(v);
    assert Combine4(b[0], b[1], b[2], b[3]) == v;
  }

  /** Every encoding is well-formed, and decoding it returns the original text. */
  lemma {:induction false} DecodeEncode(s: string)
    ensures WellFormed(Encode(s))
    ensures Decode(Encode(s)) == s
    decreases |s|
  {
    if |s| > 0 {
      var e, t := EncodeScalar(s[0]), Encode(s[1..]);
      var b := Encode(s);
      assert b == e + t;
      DecodeFirstEncodeScalar(s[0], t);
      assert b[|e|..] == t;
      assert SequenceLength(b[0]) == |e|;
      DecodeEncode(s[1..]);
      assert WellFormed(b);
      assert Decode(b) == [s[0]] + Decode(t);
      assert s == [s[0]] + s[1..];
    }
  }

  /** Re-encoding the scalar decoded from a well-formed start gives back its bytes. */
  lemma EncodeScalarDecodeFirst(b: seq<byte>)
    requires StartsWellFormed(b)
    ensures EncodeScalar(DecodeFirst(b).0) == b[..SequenceLength(b[0])]
  {
    var n := SequenceLength(b[0]);
    if n == 2 {
      EncodeScalarDecodeTwo(b);
    } else if n == 3 {
      EncodeScalarDecodeThree(b);
    } else if n == 4 {
      EncodeScalarDecodeFour(b);
    }
  }

  lemma EncodeScalarDecodeTwo(b: seq<byte>)
    requires StartsWellFormed(b) && SequenceLength(b[0]) == 2
    ensures EncodeScalar(DecodeFirst(b).0) == b[..2]
  {
    DivMod64(b[0] as int - 0xC0, b[1] as int - 0x80);
  }

  lemma EncodeScalarDecodeThree(b: seq<byte>)
    requires StartsWellFormed(b) && SequenceLength(b[0]) == 3
    ensures EncodeScalar(DecodeFirst(b).0) == b[..3]
  {
    var v := DecodeFirst(b).0 as int;
    var h: int, m: int, l: int := b[0] - 0xE0, b[1] - 0x80, b[2] - 0x80;
    assert v == (h * 64 + m) * 64 + l;
    DivMod64(h * 64 + m, l);
    DivMod64(h, m);
    DivMod4096(h, m * 64 + l);
  }

  lemma EncodeScalarDecodeFour(b: seq<byte>)
    requires StartsWellFormed(b) && SequenceLength(b[0]) == 4
    ensures EncodeScalar(DecodeFirst(b).0) == b[..4]
  {
    var v := DecodeFirst(b).0 as int;
    var h: int, m1: int, m2: int, l: int := b[0] - 0xF0, b[1] - 0x80, b[2] - 0x80, b[3] - 0x80;
    assert v == ((h * 64 + m1) * 64 + m2) * 64 + l;
    assert v / 64 == (h * 64 + m1) * 64 + m2 && v % 64 == l by {
      DivMod64((h * 64 + m1) * 64 + m2, l);
    }
    assert (v / 64) % 64 == m2 by {
      DivMod64(h * 64 + m1, m2);
    }
    assert v / 4096 == h * 64 + m1 by {
      DivMod4096(h * 64 + m1, m2 * 64 + l);
    }
    assert (v / 4096) % 64 == m1 by {
      DivMod64(h, m1);
    }
    assert v / 262144 == h by {
      DivMod262144(h, (m1 * 64 + m2) * 64 + l);
    }
    assert v >= 0x1_0000;
  }

  /** Well-formed bytes are exactly the encoding of what they decode to, so
      `Encode` maps onto the well-formed byte strings and nothing else. */
  lemma {:induction false} EncodeDecode(b: seq<byte>)
    requires WellFormed(b)
    ensures Encode(Decode(b)) == b
    decreases |b|
  {
    if |b| > 0 {
      var n := SequenceLength(b[0]);
      EncodeDecode(b[n..]);
      EncodeDecodeJoin(b);
    }
  }

  lemma EncodeDecodeJoin(b: seq<byte>)
    requires StartsWellFormed(b)
    requires Encode(Decode(b[SequenceLength(b[0])..])) == b[SequenceLength(b[0])..]
    ensures Encode(Decode(b)) == b
  {
    var n := SequenceLength(b[0]);
    EncodeDecodeStep(b);
    assert b == b[..n] + b[n..];
  }

  /** One step of `EncodeDecode`: the first decoded character re-encodes to the first sequence. */
  lemma EncodeDecodeStep(b: seq<byte>)
    requires StartsWellFormed(b)
    ensures Encode(Decode(b)) == b[..SequenceLength(b[0])] + Encode(Decode(b[SequenceLength(b[0])..]))
  {
    var n := SequenceLength(b[0]);
    var d := DecodeFirst(b);
    assert Decode(b) == [d.0] + Decode(b[n..]);
    assert Decode(b)[1..] == Decode(b[n..]);
    EncodeScalarDecodeFirst(b);
  }
}
