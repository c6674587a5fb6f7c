/**
 Base-36 text form of the public redirect identifiers: `encode_base36` and
 `decode_base36` of src/main.rs.  Digits are `0-9` then `a-z`, most
 significant first.  Decoding accepts either letter case and works on
 unsigned 64-bit values with checked arithmetic: a value that would not fit
 in 64 bits is rejected instead of wrapping.
 */
module Base36 {
  import opened Wrappers

  const RADIX: nat := 36
  /** 2^64: every value of Rust's `u64` is below this bound. */
  const U64_LIMIT: nat := 0x1_0000_0000_0000_0000

  type u64 = n: nat | n < U64_LIMIT

  predicate IsDecimal(c: char) { '0' <= c <= '9' }
  predicate IsLower(c: char) { 'a' <= c <= 'z' }
  predicate IsUpper(c: char) { 'A' <= c <= 'Z' }

  /** A character `encode_base36` may produce. */
  predicate IsLowerDigit(c: char) { IsDecimal(c) || IsLower(c) }

  /** A character `decode_base36` accepts. */
  predicate IsDigit(c: char) { IsDecimal(c) || IsLower(c) || IsUpper(c) }

  predicate AllDigits(s: string) {
    forall i :: 0 <= i < |s| ==> IsDigit(s[i])
  }

  /** The digit a character stands for, with `a-z` and `A-Z` both meaning 10..35. */
  function DigitValue(c: char): (d: Option<nat>)
    ensures d.Some? <==> IsDigit(c)
    ensures d.Some? ==> d.value < RADIX
  {
    if IsDecimal(c) then Some(c as int - '0' as int)
    else if IsLower(c) then Some(c as int - 'a' as int + 10)
    else if IsUpper(c) then Some(c as int - 'A' as int + 10)
    else None
  }

  /** The character `encode_base36` writes for digit `d`. */
  function DigitChar(d: nat): (c: char)
    requires d < RADIX
    ensures IsLowerDigit(c)
    ensures DigitValue(c) == Some(d)
  {
    if d < 10 then ('0' as int + d) as char else ('a' as int + d - 10) as char
  }

  /**
   The unbounded positional value of a string of base-36 digits.  This is the
   reference meaning of the text, independent of any width limit.
   */
  function Value(s: string): nat
    requires AllDigits(s)
  {
    if |s| == 0 then 0 else Value(s[..|s| - 1]) * RADIX + DigitValue(s[|s| - 1]).value
  }

  /**
   One turn of the `decode_base36` loop: multiply the accumulator by 36 and
   add the digit, failing when either step leaves the u64 range or the
   character is not a digit.
   */
  function Push(acc: Option<u64>, c: char): (r: Option<u64>)
    ensures r.Some? <==> acc.Some? && IsDigit(c) && acc.value * RADIX + DigitValue(c).value < U64_LIMIT
    ensures r.Some? ==> r.value == acc.value * RADIX + DigitValue(c).value
  {
    match acc
    case None => None
    case Some(a) =>
      if a * RADIX >= U64_LIMIT then None                     // checked_mul
      else match DigitValue(c)
        case None => None                                      // not [0-9a-zA-Z]
        case Some(d) =>
          if a * RADIX + d >= U64_LIMIT then None else Some(a * RADIX + d)  // checked_add
  }

  /**
   `decode_base36`: a left fold of `Push` over the characters starting from
   0, so the empty string decodes to 0.  It succeeds exactly on digit strings
   whose value fits in 64 bits, and then yields that value.
   */
  function DecodeBase36(s: string): (r: Option<u64>)
    ensures r.Some? <==> AllDigits(s) && Value(s) < U64_LIMIT
    ensures r.Some? ==> r.value == Value(s)
    decreases |s|
  {
    if |s| == 0 then Some(0)
    else
      var prefix := s[..|s| - 1];
      assert AllDigits(s) ==> AllDigits(prefix);
      Push(DecodeBase36(prefix), s[|s| - 1])
  }

  /** The digits of `n`, most significant first, with no leading zero; empty for 0. */
  function Digits(n: nat): (r: string)
    ensures forall i :: 0 <= i < |r| ==> IsLowerDigit(r[i])
    ensures AllDigits(r) && Value(r) == n
    ensures n > 0 ==> |r| > 0 && r[0] != '0'
    ensures n == 0 <==> |r| == 0
    decreases n
  {
    if n == 0 then []
    else
      var r := Digits(n / RADIX) + [DigitChar(n % RADIX)];
      assert r[..|r| - 1] == Digits(n / RADIX);
      r
  }

  /**
   `encode_base36`: "0" for zero, otherwise the lowercase digits of `n` with
   no leading zero.  Decoding the result gives back `n` for every u64.
   */
  function EncodeBase36(n: nat): (r: string)
    ensures |r| > 0
    ensures n == 0 <==> r == "0"
    ensures forall i :: 0 <= i < |r| ==> IsLowerDigit(r[i])
    ensures n > 0 ==> r[0] != '0'
    ensures AllDigits(r) && Value(r) == n
    ensures n < U64_LIMIT ==> DecodeBase36(r) == Some(n)
  {
    if n == 0 then "0" else Digits(n)
  }

  /** Every u64 encodes in at most 13 characters (the capacity `encode_base36` reserves). */
  lemma {:induction false} EncodeFitsCapacity(n: u64)
    ensures |EncodeBase36(n)| <= 13
  {
    if n > 0 {
      DigitsLength(n, 13);
    }
  }

  function Pow36(k: nat): (p: nat)
    ensures p > 0
  {
    if k == 0 then 1 else RADIX * Pow36(k - 1)
  }

  lemma {:induction false} DigitsLength(n: nat, k: nat)
    requires n < Pow36(k)
    ensures |Digits(n)| <= k
    decreases k
  {
    if n > 0 {
      assert k > 0;
      assert n / RADIX < Pow36(k - 1);
      DigitsLength(n / RADIX, k - 1);
    }
  }

  /** ASCII lower-casing, the identity on everything but `A-Z`. */
  function ToLower(c: char): char {
    if IsUpper(c) then (c as int - 'A' as int + 'a' as int) as char else c
  }

  function LowerAll(s: string): (r: string)
    ensures |r| == |s|
    ensures forall i :: 0 <= i < |s| ==> r[i] == ToLower(s[i])
  {
    if |s| == 0 then [] else LowerAll(s[..|s| - 1]) + [ToLower(s[|s| - 1])]
  }

  /** Decoding does not depend on letter case. */
  lemma {:induction false} DecodeIgnoresCase(s: string)
    ensures DecodeBase36(LowerAll(s)) == DecodeBase36(s)
    decreases |s|
  {
    if |s| > 0 {
      var p := s[..|s| - 1];
      DecodeIgnoresCase(p);
      assert LowerAll(s)[..|s| - 1] == LowerAll(p);
      assert DigitValue(ToLower(s[|s| - 1])) == DigitValue(s[|s| - 1]);
      assert Push(DecodeBase36(p), ToLower(s[|s| - 1])) == Push(DecodeBase36(p), s[|s| - 1]);
    }
  }

  /** The form `encode_base36` writes: lowercase digits, no leading zero except "0" itself. */
  predicate Canonical(s: string) {
    && |s| > 0
    && (forall i :: 0 <= i < |s| ==> IsLowerDigit(s[i]))
    && (s[0] == '0' ==> s == "0")
  }

  /**
   Encoding is the inverse of decoding on canonical text: a canonical text is
   the encoding of its own value, so two different canonical texts never name
   the same id.
   */
  lemma {:induction false} EncodeDecodeCanonical(s: string)
    requires Canonical(s)
    requires DecodeBase36(s).Some?
    ensures EncodeBase36(DecodeBase36(s).value) == s
  {
    if s != "0" {
      DigitsOfValue(s);
    }
  }

  lemma {:induction false} DigitsOfValue(s: string)
    requires |s| > 0 && s[0] != '0'
    requires forall i :: 0 <= i < |s| ==> IsLowerDigit(s[i])
    ensures AllDigits(s) && Digits(Value(s)) == s
    decreases |s|
  {
    var p := s[..|s| - 1];
    var d := DigitValue(s[|s| - 1]).value;
    assert DigitChar(d) == s[|s| - 1];
    if |p| == 0 {
      assert Value(s) == d;
      assert d != 0;
      assert Digits(d) == Digits(0) + [DigitChar(d)];
    } else {
      DigitsOfValue(p);
      var v := Value(p);
      assert Value(s) == v * RADIX + d;
      assert (v * RADIX + d) / RADIX == v;
      assert (v * RADIX + d) % RADIX == d;
      assert s == p + [s[|s| - 1]];
    }
  }
}
