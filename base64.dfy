/** Base64 with the standard alphabet of RFC 4648, section 4 (Table 1), in the variant
    Go's `base64.StdEncoding` implements:
    - encoding pads the final quantum with `=` (section 3.2 of RFC 4648);
    - decoding skips every CR and LF byte, requires the padded length (a multiple of
      four), allows `=` only at the end of the last quantum, and ignores the unused
      low bits of a padded final quantum (Go's decoder is not in strict mode). */
module Base64 {
  import opened Wrappers

  /** A Go string is a sequence of bytes; one `char` below 256 stands for one byte. */
  type Octet = c: char | c as int < 256
  type Bytes = seq<Octet>

  const Pad: Octet := '='

  /** Table 1 of RFC 4648: the alphabet character for the 6-bit value `v`. */
  function Digit(v: nat): (c: Octet)
    requires v < 64
  {
    if v < 26 then ('A' as int + v) as char
    else if v < 52 then ('a' as int + (v - 26)) as char
    else if v < 62 then ('0' as int + (v - 52)) as char
    else if v == 62 then '+'
    else '/'
  }

  /** `c` belongs to the standard alphabet (the padding character does not). */
  predicate IsDigit(c: Octet) {
    ('A' <= c <= 'Z') || ('a' <= c <= 'z') || ('0' <= c <= '9') || c == '+' || c == '/'
  }

  /** The 6-bit value of an alphabet character: the inverse of `Digit`. */
  function SextetOf(c: Octet): (v: nat)
    requires IsDigit(c)
    ensures v < 64
  {
    if 'A' <= c <= 'Z' then c as int - 'A' as int
    else if 'a' <= c <= 'z' then c as int - 'a' as int + 26
    else if '0' <= c <= '9' then c as int - '0' as int + 52
    else if c == '+' then 62
    else 63
  }

  lemma SextetDigit(c: Octet)
    requires IsDigit(c)
    ensures Digit(SextetOf(c)) == c
  {
  }

  lemma DigitSextet(v: nat)
    requires v < 64
    ensures IsDigit(Digit(v)) && SextetOf(Digit(v)) == v
  {
  }

  function Byte(v: int): Octet
    requires 0 <= v < 256
  {
    v as char
  }

  // ---------------------------------------------------------------- encoding

  /** Three input bytes become four alphabet characters. */
  function EncodeBlock(a: Octet, b: Octet, c: Octet): Bytes {
    [Digit(a as int / 4), Digit(a as int % 4 * 16 + b as int / 16),
     Digit(b as int % 16 * 4 + c as int / 64), Digit(c as int % 64)]
  }

  /** A final group of two bytes: three characters and one padding character. */
  function EncodeTwo(a: Octet, b: Octet): Bytes {
    [Digit(a as int / 4), Digit(a as int % 4 * 16 + b as int / 16), Digit(b as int % 16 * 4), Pad]
  }

  /** A final group of one byte: two characters and two padding characters. */
  function EncodeOne(a: Octet): Bytes {
    [Digit(a as int / 4), Digit(a as int % 4 * 16), Pad, Pad]
  }

  /** `base64.StdEncoding.EncodeToString`. */
  function Encode(s: Bytes): (r: Bytes)
    ensures |r| == (|s| + 2) / 3 * 4
    decreases |s|
  {
    if |s| >= 3 then
      assert (|s| + 2) / 3 == (|s| - 3 + 2) / 3 + 1;
      EncodeBlock(s[0], s[1], s[2]) + Encode(s[3..])
    else if |s| == 2 then EncodeTwo(s[0], s[1])
    else if |s| == 1 then EncodeOne(s[0])
    else []
  }

  // ---------------------------------------------------------------- decoding

  predicate IsNewline(c: Octet) {
    c == '\r' || c == '\n'
  }

  /** The input with every CR and LF removed, the rest in order. */
  function StripNewlines(s: Bytes): (r: Bytes)
    ensures |r| <= |s|
    ensures forall c :: c in r <==> c in s && !IsNewline(c)
    ensures forall i | 0 <= i < |r| :: !IsNewline(r[i])
  {
    if |s| == 0 then []
    else if IsNewline(s[0]) then StripNewlines(s[1..])
    else [s[0]] + StripNewlines(s[1..])
  }

  /** A single character is dropped when it is CR or LF and kept otherwise. */
  lemma StripNewlinesOne(c: Octet)
    ensures StripNewlines([c]) == if IsNewline(c) then [] else [c]
  {
    assert [c][1..] == [];
  }

  /** Stripping works character by character: on a concatenation it strips each part, so
      the characters kept stay in order and keep their multiplicity. */
  lemma {:induction false} StripNewlinesAppend(a: Bytes, b: Bytes)
    ensures StripNewlines(a + b) == StripNewlines(a) + StripNewlines(b)
    decreases |a|
  {
    if |a| > 0 {
      StripNewlinesAppend(a[1..], b);
      assert (a + b)[0] == a[0];
      assert (a + b)[1..] == a[1..] + b;
    } else {
      assert a + b == b;
    }
  }

  predicate IsFullQuantum(q: Bytes)
    requires |q| == 4
  {
    IsDigit(q[0]) && IsDigit(q[1]) && IsDigit(q[2]) && IsDigit(q[3])
  }

  /** Four alphabet characters become three bytes. */
  function DecodeBlock(q: Bytes): Bytes
    requires |q| == 4 && IsFullQuantum(q)
  {
    var v0, v1, v2, v3 := SextetOf(q[0]), SextetOf(q[1]), SextetOf(q[2]), SextetOf(q[3]);
    [Byte(v0 * 4 + v1 / 16), Byte(v1 % 16 * 16 + v2 / 4), Byte(v2 % 4 * 64 + v3)]
  }

  /** A final quantum `xxx=`: two bytes. */
  predicate IsThreeQuantum(q: Bytes)
    requires |q| == 4
  {
    IsDigit(q[0]) && IsDigit(q[1]) && IsDigit(q[2]) && q[3] == Pad
  }

  /** A final quantum `xx==`: one byte. */
  predicate IsTwoQuantum(q: Bytes)
    requires |q| == 4
  {
    IsDigit(q[0]) && IsDigit(q[1]) && q[2] == Pad && q[3] == Pad
  }

  /** The low 2 bits of the third character are dropped without being checked. */
  function DecodeThree(q: Bytes): Bytes
    requires |q| == 4 && IsThreeQuantum(q)
  {
    var v0, v1, v2 := SextetOf(q[0]), SextetOf(q[1]), SextetOf(q[2]);
    [Byte(v0 * 4 + v1 / 16), Byte(v1 % 16 * 16 + v2 / 4)]
  }

  /** The low 4 bits of the second character are dropped without being checked. */
  function DecodeTwo(q: Bytes): Bytes
    requires |q| == 4 && IsTwoQuantum(q)
  {
    var v0, v1 := SextetOf(q[0]), SextetOf(q[1]);
    [Byte(v0 * 4 + v1 / 16)]
  }

  /** The last quantum: four characters, `xxx=` or `xx==`. */
  function DecodeLast(q: Bytes): Option<Bytes>
    requires |q| == 4
  {
    if IsFullQuantum(q) then Some(DecodeBlock(q))
    else if IsThreeQuantum(q) then Some(DecodeThree(q))
    else if IsTwoQuantum(q) then Some(DecodeTwo(q))
    else None
  }

  /** Decoding of input that holds no CR or LF. */
  function DecodeQuanta(t: Bytes): Option<Bytes>
    decreases |t|
  {
    if |t| > 4 then
      if IsFullQuantum(t[..4]) then
        match DecodeQuanta(t[4..])
        case None => None
        case Some(rest) => Some(DecodeBlock(t[..4]) + rest)
      else None
    else if |t| == 4 then DecodeLast(t)
    else if |t| == 0 then Some([])
    else None
  }

  /** `base64.StdEncoding.DecodeString`; `None` is the non-nil error. It succeeds exactly
      on input whose newline-free form is well formed. */
  function Decode(s: Bytes): (r: Option<Bytes>)
    ensures r.Some? <==> WellFormed(StripNewlines(s))
  {
    DecodeQuantaAccepts(StripNewlines(s));
    DecodeQuanta(StripNewlines(s))
  }

  // ---------------------------------------------------------------- what decoding accepts

  /** A last quantum the decoder accepts. */
  ghost predicate IsPaddedQuantum(q: Bytes) {
    |q| == 4 && IsDigit(q[0]) && IsDigit(q[1]) &&
    ((IsDigit(q[2]) && (IsDigit(q[3]) || q[3] == Pad)) || (q[2] == Pad && q[3] == Pad))
  }

  /** The shape of newline-free input that decodes: whole quanta, alphabet characters
      only, except for padding at the end of the last one. */
  ghost predicate WellFormed(t: Bytes) {
    && |t| % 4 == 0
    && (forall i | 0 <= i < |t| - 4 :: IsDigit(t[i]))
    && (|t| > 0 ==> IsPaddedQuantum(t[|t| - 4..]))
  }

  /** Unfolds `DecodeQuanta` on input longer than one quantum. */
  lemma DecodeQuantaLong(t: Bytes)
    requires |t| > 4
    ensures DecodeQuanta(t).Some? <==> IsFullQuantum(t[..4]) && DecodeQuanta(t[4..]).Some?
    ensures DecodeQuanta(t).Some? ==> DecodeQuanta(t) == Some(DecodeBlock(t[..4]) + DecodeQuanta(t[4..]).value)
  {
  }

  lemma WellFormedLong(t: Bytes)
    requires |t| > 4
    ensures WellFormed(t) <==> IsFullQuantum(t[..4]) && WellFormed(t[4..])
  {
    var rest := t[4..];
    if |t| % 4 != 0 { return; }
    assert rest[|rest| - 4..] == t[|t| - 4..];
    assert t[0] == t[..4][0] && t[1] == t[..4][1] && t[2] == t[..4][2] && t[3] == t[..4][3];
    if WellFormed(t) {
      assert forall i | 0 <= i < |rest| - 4 :: rest[i] == t[i + 4];
    }
    if IsFullQuantum(t[..4]) && WellFormed(rest) {
      forall i | 0 <= i < |t| - 4 ensures IsDigit(t[i]) {
        if i >= 4 { assert t[i] == rest[i - 4]; }
      }
    }
  }

  lemma DecodeLastAccepts(q: Bytes)
    requires |q| == 4
    ensures DecodeLast(q).Some? <==> IsPaddedQuantum(q)
  {
  }

  lemma {:induction false} DecodeQuantaAccepts(t: Bytes)
    ensures DecodeQuanta(t).Some? <==> WellFormed(t)
    decreases |t|
  {
    if |t| == 4 {
      DecodeLastAccepts(t);
      assert t[|t| - 4..] == t;
    } else if |t| > 4 {
      DecodeQuantaAccepts(t[4..]);
      DecodeQuantaLong(t);
      WellFormedLong(t);
    }
  }

  // ---------------------------------------------------------------- round trip

  lemma BlockRoundTrip(a: Octet, b: Octet, c: Octet)
    ensures IsFullQuantum(EncodeBlock(a, b, c))
    ensures DecodeBlock(EncodeBlock(a, b, c)) == [a, b, c]
  {
    var v0, v1, v2, v3 := a as int / 4, a as int % 4 * 16 + b as int / 16,
                          b as int % 16 * 4 + c as int / 64, c as int % 64;
    var q := [Digit(v0), Digit(v1), Digit(v2), Digit(v3)];
    assert EncodeBlock(a, b, c) == q;
    DecodeDigits(v0, v1, v2, v3);
    BlockArithmetic(a as int, b as int, c as int, v0, v1, v2, v3);
  }

  /** Four encoded 6-bit values decode to the bytes they pack. */
  lemma DecodeDigits(v0: nat, v1: nat, v2: nat, v3: nat)
    requires v0 < 64 && v1 < 64 && v2 < 64 && v3 < 64
    ensures IsFullQuantum([Digit(v0), Digit(v1), Digit(v2), Digit(v3)])
    ensures DecodeBlock([Digit(v0), Digit(v1), Digit(v2), Digit(v3)]) ==
              [Byte(v0 * 4 + v1 / 16), Byte(v1 % 16 * 16 + v2 / 4), Byte(v2 % 4 * 64 + v3)]
  {
    DigitSextet(v0); DigitSextet(v1); DigitSextet(v2); DigitSextet(v3);
  }

  /** Splitting three bytes into four 6-bit values and packing them again is the identity. */
  lemma BlockArithmetic(a: int, b: int, c: int, v0: int, v1: int, v2: int, v3: int)
    requires 0 <= a < 256 && 0 <= b < 256 && 0 <= c < 256
    requires v0 == a / 4 && v1 == a % 4 * 16 + b / 16 && v2 == b % 16 * 4 + c / 64 && v3 == c % 64
    ensures v0 * 4 + v1 / 16 == a && v1 % 16 * 16 + v2 / 4 == b && v2 % 4 * 64 + v3 == c
  {
  }

  lemma TwoRoundTrip(a: Octet, b: Octet)
    ensures DecodeLast(EncodeTwo(a, b)) == Some([a, b])
  {
    var v0, v1, v2 := a as int / 4, a as int % 4 * 16 + b as int / 16, b as int % 16 * 4;
    DigitSextet(v0); DigitSextet(v1); DigitSextet(v2);
    assert v0 * 4 + v1 / 16 == a as int;
    assert v1 % 16 * 16 + v2 / 4 == b as int;
  }

  lemma OneRoundTrip(a: Octet)
    ensures DecodeLast(EncodeOne(a)) == Some([a])
  {
    var v0, v1 := a as int / 4, a as int % 4 * 16;
    DigitSextet(v0); DigitSextet(v1);
    assert v0 * 4 + v1 / 16 == a as int;
  }

  lemma {:induction false} DecodeQuantaEncode(s: Bytes)
    ensures DecodeQuanta(Encode(s)) == Some(s)
    decreases |s|
  {
    if |s| > 3 {
      DecodeQuantaEncode(s[3..]);
      EncodeLongStep(s);
    } else if |s| == 3 {
      EncodeThreeStep(s);
    } else if |s| == 2 {
      TwoRoundTrip(s[0], s[1]);
      assert [s[0], s[1]] == s;
    } else if |s| == 1 {
      OneRoundTrip(s[0]);
      assert [s[0]] == s;
    }
  }

  lemma EncodeThreeStep(s: Bytes)
    requires |s| == 3
    ensures DecodeQuanta(Encode(s)) == Some(s)
  {
    BlockOfPrefix(s);
    EncodeThree(s);
    DecodeSingle(s, Encode(s), EncodeBlock(s[0], s[1], s[2]));
  }

  lemma EncodeThree(s: Bytes)
    requires |s| == 3
    ensures Encode(s) == EncodeBlock(s[0], s[1], s[2])
  {
    assert Encode(s[3..]) == [];
  }

  /** A lone full quantum decodes to its block. */
  lemma DecodeSingle(s: Bytes, e: Bytes, q: Bytes)
    requires |s| == 3 && e == q
    requires |q| == 4 && IsFullQuantum(q) && DecodeBlock(q) == s[..3]
    ensures DecodeQuanta(e) == Some(s)
  {
    assert s[..3] == s;
  }

  lemma DecodeQuantaPrepend(q: Bytes, rest: Bytes, x: Bytes)
    requires |q| == 4 && IsFullQuantum(q)
    requires |rest| > 0 && DecodeQuanta(rest) == Some(x)
    ensures DecodeQuanta(q + rest) == Some(DecodeBlock(q) + x)
  {
    var t := q + rest;
    assert t[..4] == q;
    assert t[4..] == rest;
    DecodeQuantaLong(t);
  }

  lemma BlockOfPrefix(s: Bytes)
    requires |s| >= 3
    ensures IsFullQuantum(EncodeBlock(s[0], s[1], s[2]))
    ensures DecodeBlock(EncodeBlock(s[0], s[1], s[2])) == s[..3]
  {
    BlockRoundTrip(s[0], s[1], s[2]);
    assert [s[0], s[1], s[2]] == s[..3];
  }

  lemma EncodeUnfold(s: Bytes)
    requires |s| >= 3
    ensures Encode(s) == EncodeBlock(s[0], s[1], s[2]) + Encode(s[3..])
  {
  }

  lemma EncodeLongStep(s: Bytes)
    requires |s| > 3
    requires DecodeQuanta(Encode(s[3..])) == Some(s[3..])
    ensures DecodeQuanta(Encode(s)) == Some(s)
  {
    EncodeUnfold(s);
    EncodeNonEmpty(s[3..]);
    BlockOfPrefix(s);
    DecodeChain(s, Encode(s), EncodeBlock(s[0], s[1], s[2]), Encode(s[3..]));
  }

  /** Decoding a quantum for the first three bytes followed by the decodable rest. */
  lemma DecodeChain(s: Bytes, e: Bytes, q: Bytes, rest: Bytes)
    requires |s| > 3 && e == q + rest
    requires |q| == 4 && IsFullQuantum(q) && DecodeBlock(q) == s[..3]
    requires |rest| > 0 && DecodeQuanta(rest) == Some(s[3..])
    ensures DecodeQuanta(e) == Some(s)
  {
    DecodeQuantaPrepend(q, rest, s[3..]);
    assert s[..3] + s[3..] == s;
  }

  lemma EncodeNonEmpty(s: Bytes)
    requires |s| > 0
    ensures |Encode(s)| > 0
  {
  }

  lemma {:induction false} StripNewlinesIdentity(s: Bytes)
    requires forall i | 0 <= i < |s| :: !IsNewline(s[i])
    ensures StripNewlines(s) == s
    decreases |s|
  {
    if |s| > 0 {
      StripNewlinesIdentity(s[1..]);
      assert [s[0]] + s[1..] == s;
    }
  }

  /** Encoding produces alphabet characters and padding only. */
  lemma {:induction false} EncodeAlphabet(s: Bytes)
    ensures forall i | 0 <= i < |Encode(s)| :: IsDigit(Encode(s)[i]) || Encode(s)[i] == Pad
    decreases |s|
  {
    if |s| >= 3 {
      EncodeAlphabet(s[3..]);
      EncodeUnfold(s);
    }
  }

  /** Decoding undoes encoding, for every byte string. */
  lemma DecodeEncode(s: Bytes)
    ensures Decode(Encode(s)) == Some(s)
  {
    EncodeAlphabet(s);
    StripNewlinesIdentity(Encode(s));
    DecodeQuantaEncode(s);
  }
}
