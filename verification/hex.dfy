/** The two text-to-number conversions `MemInput::parse_from_arg` relies on:
    base16 decoding of the `init` bytes (the `hex` crate, the encoding of
    section 8 of RFC 4648, accepting either case) and
    `usize::from_str_radix(_, 16)` for `addr` and `size`. */
module Hex {
  import opened Machine

  predicate IsHexDigit(c: char)
  {
    '0' <= c <= '9' || 'a' <= c <= 'f' || 'A' <= c <= 'F'
  }

  /** The value of one hexadecimal digit of either case. */
  function DigitValue(c: char): (v: nat)
    requires IsHexDigit(c)
    ensures v < 16
  {
    if '0' <= c <= '9' then c as int - '0' as int
    else if 'a' <= c <= 'f' then c as int - 'a' as int + 10
    else c as int - 'A' as int + 10
  }

  /** The lower-case digit `hex::encode` writes for a value below 16. */
  function DigitChar(v: nat): (c: char)
    requires v < 16
    ensures IsHexDigit(c) && DigitValue(c) == v
    ensures '0' <= c <= '9' || 'a' <= c <= 'f'
  {
    if v < 10 then ('0' as int + v) as char else ('a' as int + v - 10) as char
  }

  predicate AllHexDigits(s: string)
  {
    forall i :: 0 <= i < |s| ==> IsHexDigit(s[i])
  }

  /** The byte spelled by the two digits at `2 * k` and `2 * k + 1`. */
  function PairValue(s: string, k: nat): u8
    requires 2 * k + 1 < |s| && AllHexDigits(s)
  {
    16 * DigitValue(s[2 * k]) + DigitValue(s[2 * k + 1])
  }

  /** `hex::decode`: an odd length or any non-digit is an error (`None`);
      otherwise every two digits give one byte, high nibble first. */
  function DecodeBase16(s: string): (r: Option<bytes>)
    ensures r.Some? <==> |s| % 2 == 0 && AllHexDigits(s)
    ensures r.Some? ==> |r.value| == |s| / 2
    ensures r.Some? ==> forall k :: 0 <= k < |r.value| ==> r.value[k] == PairValue(s, k)
  {
    if |s| % 2 != 0 then None else DecodePairs(s)
  }

  function DecodePairs(s: string): (r: Option<bytes>)
    requires |s| % 2 == 0
    ensures r.Some? <==> AllHexDigits(s)
    ensures r.Some? ==> |r.value| == |s| / 2
    ensures r.Some? ==> forall k :: 0 <= k < |r.value| ==> r.value[k] == PairValue(s, k)
    decreases |s|
  {
    if |s| == 0 then Some([])
    else if !IsHexDigit(s[0]) || !IsHexDigit(s[1]) then None
    else
      match DecodePairs(s[2..])
      case None =>
        assert !AllHexDigits(s[2..]);
        None
      case Some(rest) =>
        var b := 16 * DigitValue(s[0]) + DigitValue(s[1]);
        assert forall i :: 0 <= i < |s| ==> IsHexDigit(s[i]) by {
          forall i | 0 <= i < |s| ensures IsHexDigit(s[i]) {
            if i >= 2 { assert s[i] == s[2..][i - 2]; }
          }
        }
        assert forall k :: 0 <= k < |rest| ==> rest[k] == PairValue(s, k + 1) by {
          forall k | 0 <= k < |rest| ensures rest[k] == PairValue(s, k + 1) {
            assert s[2..][2 * k] == s[2 * (k + 1)];
            assert s[2..][2 * k + 1] == s[2 * (k + 1) + 1];
          }
        }
        Some([b] + rest)
  }

  /** `hex::encode`: two lower-case digits per byte, high nibble first. */
  function EncodeBase16(b: bytes): (s: string)
    ensures |s| == 2 * |b|
  {
    if |b| == 0 then "" else [DigitChar(b[0] / 16), DigitChar(b[0] % 16)] + EncodeBase16(b[1..])
  }

  /** Decoding undoes encoding. */
  lemma {:induction false} DecodeEncode(b: bytes)
    ensures DecodeBase16(EncodeBase16(b)) == Some(b)
  {
    if |b| > 0 {
      DecodeEncode(b[1..]);
      var s := EncodeBase16(b);
      assert s[2..] == EncodeBase16(b[1..]);
      assert DecodePairs(s[2..]) == Some(b[1..]);
      assert b == [b[0]] + b[1..];
    }
  }

  predicate IsLowerHexDigit(c: char)
  {
    '0' <= c <= '9' || 'a' <= c <= 'f'
  }

  /** Encoding undoes decoding on lower-case text: the two are inverse. */
  lemma {:induction false} EncodeDecode(s: string)
    requires |s| % 2 == 0
    requires forall i :: 0 <= i < |s| ==> IsLowerHexDigit(s[i])
    ensures DecodeBase16(s).Some? && EncodeBase16(DecodeBase16(s).value) == s
  {
    if |s| > 0 {
      EncodeDecode(s[2..]);
      var b := DecodeBase16(s).value;
      assert DecodePairs(s[2..]) == Some(b[1..]);
      var hi, lo := DigitValue(s[0]), DigitValue(s[1]);
      assert b[0] == 16 * hi + lo;
      assert b[0] / 16 == hi && b[0] % 16 == lo;
      assert DigitChar(hi) == s[0];
      assert DigitChar(lo) == s[1];
      assert s == [s[0], s[1]] + s[2..];
    }
  }

  /** The number the digits spell, most significant digit first. */
  function DigitsValue(s: string): nat
    requires AllHexDigits(s)
  {
    if |s| == 0 then 0 else 16 * DigitsValue(s[..|s| - 1]) + DigitValue(s[|s| - 1])
  }

  /** `usize::from_str_radix(s, 16)`: an optional leading `+`, then at least
      one hexadecimal digit, and a value that fits in 64 bits; `None` stands
      for every `ParseIntError`. */
  function ParseUsizeHex(s: string): (r: Option<usize>)
    ensures var digits := if |s| > 0 && s[0] == '+' then s[1..] else s;
      && (r.Some? <==> |digits| > 0 && AllHexDigits(digits) && DigitsValue(digits) <= U64_MAX)
      && (r.Some? ==> r.value == DigitsValue(digits))
  {
    var digits := if |s| > 0 && s[0] == '+' then s[1..] else s;
    if |digits| == 0 || !AllHexDigits(digits) then None
    else
      var v := DigitsValue(digits);
      if v <= U64_MAX then Some(v) else None
  }

  /** `format!("{:x}", n)`: lower-case digits, no leading zeros. */
  function FormatHex(n: nat): (s: string)
    ensures |s| > 0 && AllHexDigits(s)
    ensures s[0] != '+'
  {
    if n < 16 then [DigitChar(n)] else FormatHex(n / 16) + [DigitChar(n % 16)]
  }

  /** Parsing a formatted address gives it back. */
  lemma {:induction false} ParseFormatHex(n: usize)
    ensures ParseUsizeHex(FormatHex(n)) == Some(n)
  {
    FormatValue(n);
  }

  lemma {:induction false} FormatValue(n: nat)
    ensures DigitsValue(FormatHex(n)) == n
  {
    if n >= 16 {
      FormatValue(n / 16);
      var s := FormatHex(n);
      assert s[..|s| - 1] == FormatHex(n / 16);
    }
  }

  /** A single leading `+` is accepted and ignored; a second one is not. */
  lemma PlusSignIgnored(t: string)
    requires |t| > 0 && t[0] != '+'
    ensures ParseUsizeHex("+" + t) == ParseUsizeHex(t)
    ensures ParseUsizeHex("++" + t).None?
  {
    assert ("+" + t)[1..] == t;
    assert ("++" + t)[1..][0] == '+';
  }
}
