/**
 * The text formats the block hash is built from, over bytes (Go strings are byte
 * sequences): strconv.Itoa, fmt.Sprintf("%x", i) for a non-negative counter, and
 * hex.EncodeToString. Each formatter comes with the parser that inverts it.
 */
module Encoding {
  import opened Wrappers

  newtype byte = x: int | 0 <= x < 256
  type Bytes = seq<byte>

  const Zero: byte := 48   // '0'
  const Minus: byte := 45  // '-'

  predicate IsBase(base: nat) { base == 10 || base == 16 }

  /** The character Go prints for digit d: '0'..'9', then lower-case 'a'..'f'. */
  function DigitChar(d: nat): (c: byte)
    requires d < 16
    ensures c != Minus
    ensures (c == Zero) == (d == 0)
  {
    if d < 10 then (48 + d) as byte else (87 + d) as byte
  }

  /** The digit a character stands for in the given base, if any. */
  function DigitValue(c: byte, base: nat): (r: Option<nat>)
    requires IsBase(base)
    ensures r.Some? ==> r.value < base && DigitChar(r.value) == c
  {
    if 48 <= c as int < 58 then Some(c as int - 48)
    else if base == 16 && 97 <= c as int < 103 then Some(c as int - 87)
    else None
  }

  lemma DigitValueOfChar(d: nat, base: nat)
    requires IsBase(base) && d < base
    ensures DigitValue(DigitChar(d), base) == Some(d)
  {
  }

  /** The digits of n in the given base, most significant first, without leading zeros. */
  function Digits(n: nat, base: nat): (r: Bytes)
    requires IsBase(base)
    ensures |r| >= 1
    ensures forall k :: 0 <= k < |r| ==> DigitValue(r[k], base).Some?
    ensures r[0] != Minus
    ensures (r[0] == Zero) == (n == 0)
    decreases n
  {
    if n < base then [DigitChar(n)]
    else Digits(n / base, base) + [DigitChar(n % base)]
  }

  /** Reads a non-empty digit string in the given base; None on any other character. */
  function ParseDigits(s: Bytes, base: nat): (r: Option<nat>)
    requires IsBase(base)
    decreases |s|
  {
    if |s| == 0 then None
    else
      var d := DigitValue(s[|s| - 1], base);
      if d.None? then None
      else if |s| == 1 then d
      else match ParseDigits(s[..|s| - 1], base)
        case None => None
        case Some(p) => Some(p * base + d.value)
  }

  lemma {:induction false} ParseDigitsOfDigits(n: nat, base: nat)
    requires IsBase(base)
    ensures ParseDigits(Digits(n, base), base) == Some(n)
    decreases n
  {
    if n < base {
      DigitValueOfChar(n, base);
    } else {
      var s := Digits(n, base);
      var front := Digits(n / base, base);
      assert s == front + [DigitChar(n % base)];
      assert s[..|s| - 1] == front;
      ParseDigitsOfDigits(n / base, base);
      DigitValueOfChar(n % base, base);
      assert n == (n / base) * base + n % base;
    }
  }

  /** strconv.Itoa: decimal, with a leading '-' for negative numbers. */
  function Itoa(n: int): (r: Bytes)
    ensures |r| >= 1
    ensures (r[0] == Minus) == (n < 0)
  {
    if n < 0 then [Minus] + Digits(-n, 10) else Digits(n, 10)
  }

  /** The decimal reading that inverts Itoa. */
  function Atoi(s: Bytes): Option<int>
  {
    if |s| > 0 && s[0] == Minus then
      match ParseDigits(s[1..], 10)
      case None => None
      case Some(v) => Some(-(v as int))
    else ParseDigits(s, 10)
  }

  lemma ItoaRoundTrip(n: int)
    ensures Atoi(Itoa(n)) == Some(n)
  {
    if n < 0 {
      assert Itoa(n)[1..] == Digits(-n, 10);
      ParseDigitsOfDigits(-n, 10);
    } else {
      ParseDigitsOfDigits(n, 10);
    }
  }

  /** fmt.Sprintf("%x", i) for a non-negative counter: lower-case hex, no leading zeros. */
  function FormatHex(i: nat): (r: Bytes)
    ensures |r| >= 1
  {
    Digits(i, 16)
  }

  /** The hex reading that inverts FormatHex. */
  function ParseHex(s: Bytes): Option<nat>
  {
    ParseDigits(s, 16)
  }

  lemma FormatHexRoundTrip(i: nat)
    ensures ParseHex(FormatHex(i)) == Some(i)
  {
    ParseDigitsOfDigits(i, 16);
  }

  /** Distinct counters give distinct nonces. */
  lemma FormatHexInjective(i: nat, j: nat)
    requires FormatHex(i) == FormatHex(j)
    ensures i == j
  {
    FormatHexRoundTrip(i);
    FormatHexRoundTrip(j);
  }

  /** hex.EncodeToString: two lower-case hex characters per byte, high nibble first. */
  function HexEncode(bs: Bytes): (r: Bytes)
    ensures |r| == 2 * |bs|
    ensures forall k :: 0 <= k < |r| ==> DigitValue(r[k], 16).Some?
  {
    if bs == [] then []
    else [DigitChar(bs[0] as int / 16), DigitChar(bs[0] as int % 16)] + HexEncode(bs[1..])
  }

  /** The reading that inverts HexEncode; None on an odd length or a non-hex character. */
  function HexDecode(s: Bytes): Option<Bytes>
    decreases |s|
  {
    if |s| == 0 then Some([])
    else if |s| == 1 then None
    else
      match (DigitValue(s[0], 16), DigitValue(s[1], 16), HexDecode(s[2..]))
      case (Some(hi), Some(lo), Some(rest)) => Some([(hi * 16 + lo) as byte] + rest)
      case _ => None
  }

  lemma {:induction false} HexRoundTrip(bs: Bytes)
    ensures HexDecode(HexEncode(bs)) == Some(bs)
  {
    if bs != [] {
      var s := HexEncode(bs);
      assert s[2..] == HexEncode(bs[1..]);
      HexRoundTrip(bs[1..]);
      DigitValueOfChar(bs[0] as int / 16, 16);
      DigitValueOfChar(bs[0] as int % 16, 16);
      assert [bs[0]] + bs[1..] == bs;
    }
  }
}
