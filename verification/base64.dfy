/** Base64 with the standard alphabet of section 4 of RFC 4648 ('+', '/', '='
    padding), as produced by `Convert.ToBase64String` and accepted by
    `Convert.FromBase64String`.

    The codec is stated in two layers: bytes to 6-bit values (pure arithmetic)
    and 6-bit values to alphabet characters (one character each).

    The decoder follows .NET rather than the RFC's strictest reading: the
    whitespace characters space, tab, CR and LF are ignored wherever they occur,
    an input that is empty once whitespace is removed decodes to no bytes, and
    the unused low bits of the last digit before padding are not checked. */
module Base64 {
  import opened Wrappers
  import Utf8

  /** The same octets `Utf8` produces and consumes. */
  type byte = Utf8.byte

  type Sextet = v: int | 0 <= v < 64

  // ---------------------------------------------------------------------------
  // Alphabet

  /** The digit for a 6-bit value: A-Z, a-z, 0-9, '+', '/'. */
  function Digit(v: Sextet): (c: char)
    ensures IsDigit(c) && Value(c) == v
  {
    if v < 26 then ('A' as int + v) as char
    else if v < 52 then ('a' as int + (v - 26)) as char
    else if v < 62 then ('0' as int + (v - 52)) as char
    else if v == 62 then '+'
    else '/'
  }

  predicate IsDigit(c: char)
  {
    'A' <= c <= 'Z' || 'a' <= c <= 'z' || '0' <= c <= '9' || c == '+' || c == '/'
  }

  /** The 6-bit value of a digit. */
  function Value(c: char): (v: Sextet)
    requires IsDigit(c)
  {
    if 'A' <= c <= 'Z' then c as int - 'A' as int
    else if 'a' <= c <= 'z' then c as int - 'a' as int + 26
    else if '0' <= c <= '9' then c as int - '0' as int + 52
    else if c == '+' then 62
    else 63
  }

  const Pad: char := '='

  /** The characters `Convert.FromBase64String` skips. */
  predicate IsWhitespace(c: char)
  {
    c == ' ' || c == '\t' || c == '\r' || c == '\n'
  }

  predicate AllDigits(s: string)
  {
    forall i | 0 <= i < |s| :: IsDigit(s[i])
  }

  /** The digits spelling a sequence of sextets. */
  function Digits(vs: seq<Sextet>): (s: string)
    ensures |s| == |vs| && AllDigits(s)
  {
    seq(|vs|, i requires 0 <= i < |vs| => Digit(vs[i]))
  }

  /** The sextets a run of digits spells. */
  function Values(s: string): (vs: seq<Sextet>)
    requires AllDigits(s)
    ensures |vs| == |s|
  {
    seq(|s|, i requires 0 <= i < |s| && IsDigit(s[i]) => Value(s[i]))
  }

  lemma ValuesDigits(vs: seq<Sextet>)
    ensures Values(Digits(vs)) == vs
  {
  }

  // ---------------------------------------------------------------------------
  // Bytes and sextets

  /** Each 3-byte group becomes four sextets; a final group of one or two
      bytes becomes two or three sextets whose unused low bits are zero. */
  function ToSextets(b: seq<byte>): (vs: seq<Sextet>)
    ensures |vs| == (4 * |b| + 2) / 3
    decreases |b|
  {
    if |b| == 0 then []
    else if |b| == 1 then [b[0] / 4, (b[0] % 4) * 16]
    else if |b| == 2 then [b[0] / 4, (b[0] % 4) * 16 + b[1] / 16, (b[1] % 16) * 4]
    else [b[0] / 4, (b[0] % 4) * 16 + b[1] / 16, (b[1] % 16) * 4 + b[2] / 64, b[2] % 64] + ToSextets(b[3..])
  }

  /** Each group of four sextets becomes three bytes; a final group of two or
      three sextets becomes one or two bytes, dropping the leftover bits. */
  function FromSextets(vs: seq<Sextet>): (b: seq<byte>)
    requires |vs| % 4 != 1
    ensures |b| == 3 * |vs| / 4
    decreases |vs|
  {
    if |vs| == 0 then []
    else if |vs| < 4 then
      if |vs| == 2 then [First(vs[0], vs[1])]
      else [First(vs[0], vs[1]), Second(vs[1], vs[2])]
    else
      ByteCount(|vs|);
      [First(vs[0], vs[1]), Second(vs[1], vs[2]), Third(vs[2], vs[3])] + FromSextets(vs[4..])
  }

  /** Each group of four sextets accounts for three bytes. */
  lemma ByteCount(n: nat)
    requires n >= 4
    ensures (n - 4) % 4 == n % 4
    ensures 3 * n / 4 == 3 + 3 * (n - 4) / 4
  {
    assert n == (n - 4) + 4;
    assert 3 * n == 3 * (n - 4) + 12;
  }

  /** The first byte of a group: six bits of `v0`, the high two of `v1`. */
  function First(v0: Sextet, v1: Sextet): (b: byte)
    ensures b / 4 == v0 && b % 4 == v1 / 16
  {
    v0 as int * 4 + v1 as int / 16
  }

  /** The second byte of a group: the low four bits of `v1`, the high four of `v2`. */
  function Second(v1: Sextet, v2: Sextet): (b: byte)
    ensures b / 16 == v1 % 16 && b % 16 == v2 / 4
  {
    (v1 as int % 16) * 16 + v2 as int / 4
  }

  /** The third byte of a group: the low two bits of `v2`, all of `v3`. */
  function Third(v2: Sextet, v3: Sextet): (b: byte)
    ensures b / 64 == v2 % 4 && b % 64 == v3
  {
    (v2 as int % 4) * 64 + v3 as int
  }

  /** Regrouping sextets into bytes undoes the split of bytes into sextets. */
  lemma {:induction false} FromSextetsToSextets(b: seq<byte>)
    ensures |ToSextets(b)| % 4 != 1
    ensures FromSextets(ToSextets(b)) == b
    decreases |b|
  {
    SextetCount(|b|);
    if |b| == 1 {
      RegroupOne(b[0]);
    } else if |b| == 2 {
      RegroupTwo(b[0], b[1]);
    } else if |b| >= 3 {
      var x, y, z, rest := b[0], b[1], b[2], b[3..];
      var v0, v1, v2, v3 := x / 4, (x % 4) * 16 + y / 16, (y % 16) * 4 + z / 64, z % 64;
      var vs := ToSextets(b);
      assert vs == [v0, v1, v2, v3] + ToSextets(rest);
      assert vs[4..] == ToSextets(rest);
      FromSextetsToSextets(rest);
      RegroupThree(x, y, z);
      assert FromSextets(vs) == [x, y, z] + rest;
      assert b == [x, y, z] + rest;
    }
  }

  /** `n` bytes never make a number of sextets one more than a multiple of four. */
  lemma SextetCount(n: nat)
    ensures (4 * n + 2) / 3 % 4 != 1
  {
    var q, r := n / 3, n % 3;
    assert 4 * n + 2 == 3 * (4 * q) + (4 * r + 2);
    assert (4 * n + 2) / 3 == 4 * q + (4 * r + 2) / 3;
  }

  /** A final lone byte survives its split into two sextets. */
  lemma RegroupOne(x: byte)
    ensures First(x / 4, (x % 4) * 16) == x
  {
  }

  /** A final pair of bytes survives its split into three sextets. */
  lemma RegroupTwo(x: byte, y: byte)
    ensures First(x / 4, (x % 4) * 16 + y / 16) == x
    ensures Second((x % 4) * 16 + y / 16, (y % 16) * 4) == y
  {
  }

  /** A group of three bytes survives its split into four sextets. */
  lemma RegroupThree(x: byte, y: byte, z: byte)
    ensures First(x / 4, (x % 4) * 16 + y / 16) == x
    ensures Second((x % 4) * 16 + y / 16, (y % 16) * 4 + z / 64) == y
    ensures Third((y % 16) * 4 + z / 64, z % 64) == z
  {
  }

  // ---------------------------------------------------------------------------
  // Encoding

  /** Number of '=' that end the encoding of `n` bytes. */
  function PadCount(n: nat): (p: nat)
  {
    (3 - n % 3) % 3
  }

  function Pads(k: nat): (s: string)
    ensures |s| == k && forall i | 0 <= i < k :: s[i] == Pad
  {
    seq(k, _ => Pad)
  }

  /** `Convert.ToBase64String`: the digits of the sextets, padded with '=' to a
      multiple of four characters.  No line breaks are inserted. */
  function Encode(b: seq<byte>): (s: string)
    ensures |s| == 4 * ((|b| + 2) / 3)
  {
    EncodedLength(|b|);
    Digits(ToSextets(b)) + Pads(PadCount(|b|))
  }

  lemma EncodedLength(n: nat)
    ensures (4 * n + 2) / 3 + PadCount(n) == 4 * ((n + 2) / 3)
  {
    var q, r := n / 3, n % 3;
    assert n == 3 * q + r;
    if r == 0 {
      assert (4 * n + 2) / 3 == 4 * q;
      assert (n + 2) / 3 == q;
    } else if r == 1 {
      assert (4 * n + 2) / 3 == 4 * q + 2;
      assert (n + 2) / 3 == q + 1;
    } else {
      assert (4 * n + 2) / 3 == 4 * q + 3;
      assert (n + 2) / 3 == q + 1;
    }
  }

  lemma MultipleOfFour(k: nat)
    ensures (4 * k) % 4 == 0
  {
  }

  /** The encoding of `b` is digits followed by exactly `PadCount(|b|)` '='. */
  lemma EncodeShape(b: seq<byte>)
    ensures var s := Encode(b); |s| >= PadCount(|b|)
    ensures var s := Encode(b); AllDigits(s[..|s| - PadCount(|b|)])
    ensures var s := Encode(b); forall i | |s| - PadCount(|b|) <= i < |s| :: s[i] == Pad
  {
    var s, d, p := Encode(b), Digits(ToSextets(b)), Pads(PadCount(|b|));
    assert s[..|d|] == d;
    forall i | |d| <= i < |s| ensures s[i] == Pad {
      assert s[i] == p[i - |d|];
    }
  }

  // ---------------------------------------------------------------------------
  // Decoding

  /** `s` with the ignorable whitespace removed, order kept. */
  function Strip(s: string): (t: string)
    ensures |t| <= |s|
    ensures forall i | 0 <= i < |t| :: !IsWhitespace(t[i])
    ensures forall c | c in s && !IsWhitespace(c) :: c in t
    ensures forall c | c in t :: c in s
    decreases |s|
  {
    if |s| == 0 then ""
    else if IsWhitespace(s[0]) then Strip(s[1..])
    else [s[0]] + Strip(s[1..])
  }

  /** A single character survives `Strip` exactly when it is not whitespace. */
  lemma StripChar(c: char)
    ensures Strip([c]) == if IsWhitespace(c) then "" else [c]
  {
    assert [c][1..] == "";
  }

  /** `Strip` works character by character and keeps the order: together
      with `StripChar` this pins down `Strip` on every text. */
  lemma {:induction false} StripAppend(s: string, u: string)
    ensures Strip(s + u) == Strip(s) + Strip(u)
    decreases |s|
  {
    if |s| == 0 {
      assert s + u == u;
    } else {
      assert (s + u)[0] == s[0];
      assert (s + u)[1..] == s[1..] + u;
      StripAppend(s[1..], u);
    }
  }

  /** How many of the last two characters are padding. */
  function TrailingPads(t: string): (p: nat)
    ensures p <= 2 && p <= |t|
  {
    if |t| >= 1 && t[|t| - 1] == Pad then
      if |t| >= 2 && t[|t| - 2] == Pad then 2 else 1
    else 0
  }

  /** `Convert.FromBase64String`: `None` where .NET throws `FormatException`
      (a length, ignoring whitespace, that is not a multiple of four; a
      character outside the alphabet; '=' anywhere but the last two places). */
  function Decode(s: string): (r: Option<seq<byte>>)
    ensures r.Some? ==> |r.value| == 3 * (|Strip(s)| / 4) - TrailingPads(Strip(s))
  {
    var t := Strip(s);
    var p := TrailingPads(t);
    if |t| % 4 != 0 || !AllDigits(t[..|t| - p]) then None
    else Some(FromSextets(Values(t[..|t| - p])))
  }

  // ---------------------------------------------------------------------------
  // What counts as Base64: an independent definition

  /** Once whitespace is removed: a multiple of four characters, all digits
      except for at most two '=' that end the text. */
  predicate WellFormed(s: string)
  {
    var t := Strip(s);
    && |t| % 4 == 0
    && forall i | 0 <= i < |t| :: IsDigit(t[i]) || (t[i] == Pad && |t| - 2 <= i && forall j | i < j < |t| :: t[j] == Pad)
  }

  // ---------------------------------------------------------------------------
  // Lemmas

  /** Whitespace-free text is its own stripped form. */
  lemma {:induction false} StripNoWhitespace(s: string)
    requires forall i | 0 <= i < |s| :: !IsWhitespace(s[i])
    ensures Strip(s) == s
    decreases |s|
  {
    if |s| > 0 {
      StripNoWhitespace(s[1..]);
      assert s == [s[0]] + s[1..];
    }
  }

  /** The padding at the end of an encoding is exactly what the decoder counts. */
  lemma TrailingPadsEncode(b: seq<byte>)
    ensures TrailingPads(Encode(b)) == PadCount(|b|)
  {
    EncodeShape(b);
    TrailingPadsOf(Encode(b), PadCount(|b|));
  }

  /** Digits followed by at most two '=' : the decoder counts exactly those '='. */
  lemma TrailingPadsOf(s: string, p: nat)
    requires p <= 2 && p <= |s|
    requires AllDigits(s[..|s| - p])
    requires forall i | |s| - p <= i < |s| :: s[i] == Pad
    ensures TrailingPads(s) == p
  {
    var n := |s|;
    if p == 0 && n > 0 {
      assert IsDigit(s[..n][n - 1]);
    } else if p == 1 && n >= 2 {
      assert IsDigit(s[..n - 1][n - 2]);
    }
  }

  /** An encoding holds no whitespace, so decoding sees it unchanged. */
  lemma StripEncode(b: seq<byte>)
    ensures Strip(Encode(b)) == Encode(b)
  {
    var s := Encode(b);
    var p := PadCount(|b|);
    EncodeShape(b);
    forall i | 0 <= i < |s| ensures !IsWhitespace(s[i]) {
      if i < |s| - p {
        assert IsDigit(s[..|s| - p][i]);
      }
    }
    StripNoWhitespace(s);
  }

  /** Round trip: `Convert.FromBase64String(Convert.ToBase64String(b)) == b`. */
  lemma DecodeEncode(b: seq<byte>)
    ensures Decode(Encode(b)) == Some(b)
  {
    var s := Encode(b);
    var p := PadCount(|b|);
    var vs := ToSextets(b);
    var body := s[..|s| - p];
    assert Strip(s) == s by { StripEncode(b); }
    assert |s| % 4 == 0 by { MultipleOfFour((|b| + 2) / 3); }
    assert TrailingPads(s) == p by { TrailingPadsEncode(b); }
    assert body == Digits(vs);
    assert AllDigits(body);
    assert Values(body) == vs by { ValuesDigits(vs); }
    assert FromSextets(vs) == b by { FromSextetsToSextets(b); }
  }

  /** Every encoding is well-formed Base64. */
  lemma EncodeWellFormed(b: seq<byte>)
    ensures WellFormed(Encode(b))
  {
    var s := Encode(b);
    DecodeEncode(b);
    DecodeSucceedsIff(s);
  }

  /** Distinct byte strings have distinct encodings. */
  lemma EncodeInjective(a: seq<byte>, b: seq<byte>)
    requires Encode(a) == Encode(b)
    ensures a == b
  {
    DecodeEncode(a);
    DecodeEncode(b);
  }

  /** `Convert.FromBase64String` succeeds exactly on well-formed text. */
  lemma DecodeSucceedsIff(s: string)
    ensures Decode(s).Some? <==> WellFormed(s)
  {
    var t := Strip(s);
    var p := TrailingPads(t);
    var n := |t|;
    if n % 4 == 0 {
      if AllDigits(t[..n - p]) {
        forall i | 0 <= i < n
          ensures IsDigit(t[i]) || (t[i] == Pad && n - 2 <= i && forall j | i < j < n :: t[j] == Pad)
        {
          if i < n - p {
            assert t[i] == t[..n - p][i];
          }
        }
      }
      if WellFormed(s) {
        var body := t[..n - p];
        forall i | 0 <= i < |body| ensures IsDigit(body[i]) {
          assert body[i] == t[i];
        }
      }
    }
  }

  /** Text whose length, ignoring whitespace, is not a multiple of four is rejected. */
  lemma DecodeRejectsLength(s: string)
    requires |Strip(s)| % 4 != 0
    ensures Decode(s) == None
  {
  }

  /** Text holding a character that is neither a digit, '=' nor whitespace is rejected. */
  lemma DecodeRejectsForeign(s: string, i: nat)
    requires i < |s| && !IsDigit(s[i]) && s[i] != Pad && !IsWhitespace(s[i])
    ensures Decode(s) == None
  {
    var t := Strip(s);
    assert s[i] in s;
    var k :| 0 <= k < |t| && t[k] == s[i];
    DecodeSucceedsIff(s);
  }
}
