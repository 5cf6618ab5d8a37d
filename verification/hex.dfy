/** PHP `bin2hex` and its inverse: two lower-case hex digits per byte. */
module Hex {
  import opened Wrappers
  import opened Text

  const Digits: string := "0123456789abcdef"

  function DigitOf(n: int): (c: char)
    requires 0 <= n < 16
  {
    Digits[n]
  }

  /** The value of a lower-case hex digit, or None for any other character. */
  function ValueOf(c: char): (r: Option<int>)
    ensures r.Some? ==> 0 <= r.value < 16 && DigitOf(r.value) == c
  {
    if '0' <= c <= '9' then Some(c as int - '0' as int)
    else if 'a' <= c <= 'f' then Some(c as int - 'a' as int + 10)
    else None
  }

  lemma ValueOfDigit(n: int)
    requires 0 <= n < 16
    ensures ValueOf(DigitOf(n)) == Some(n)
  {
  }

  /** `bin2hex`: high nibble first, then low nibble, for every byte in order. */
  function ToHex(bs: seq<byte>): (r: string)
    ensures |r| == 2 * |bs|
    decreases |bs|
  {
    if |bs| == 0 then ""
    else [DigitOf(bs[0] as int / 16), DigitOf(bs[0] as int % 16)] + ToHex(bs[1..])
  }

  /** Byte `i` of the input becomes characters `2i` and `2i + 1` of the
      text: its high nibble, then its low nibble. */
  lemma {:induction false} ToHexAt(bs: seq<byte>, i: int)
    requires 0 <= i < |bs|
    ensures ToHex(bs)[2 * i] == DigitOf(bs[i] as int / 16)
    ensures ToHex(bs)[2 * i + 1] == DigitOf(bs[i] as int % 16)
    decreases i
  {
    if i > 0 {
      ToHexAt(bs[1..], i - 1);
    }
  }

  /** Reads pairs of lower-case hex digits back into bytes; None on an odd
      length or a character that is not a lower-case hex digit. */
  function FromHex(s: string): (r: Option<seq<byte>>)
    ensures r.Some? ==> 2 * |r.value| == |s|
    decreases |s|
  {
    if |s| == 0 then Some([])
    else if |s| == 1 then None
    else match (ValueOf(s[0]), ValueOf(s[1]), FromHex(s[2..]))
      case (Some(hi), Some(lo), Some(rest)) => Some([(hi * 16 + lo) as byte] + rest)
      case _ => None
  }

  /** The hex text of a byte string decodes to exactly that byte string. */
  lemma {:induction false} FromToHex(bs: seq<byte>)
    ensures FromHex(ToHex(bs)) == Some(bs)
    decreases |bs|
  {
    if |bs| > 0 {
      FromToHex(bs[1..]);
      HexPair(bs[0], ToHex(bs[1..]), bs[1..]);
      assert [bs[0]] + bs[1..] == bs;
    }
  }

  /** One byte's two digits in front of hex text that decodes to `rest`
      decode to that byte in front of `rest`. */
  lemma HexPair(b: byte, text: string, rest: seq<byte>)
    requires FromHex(text) == Some(rest)
    ensures FromHex([DigitOf(b as int / 16), DigitOf(b as int % 16)] + text) == Some([b] + rest)
  {
    var hi, lo := b as int / 16, b as int % 16;
    var s := [DigitOf(hi), DigitOf(lo)] + text;
    ValueOfDigit(hi);
    ValueOfDigit(lo);
    assert s[0] == DigitOf(hi) && s[1] == DigitOf(lo) && s[2..] == text;
    FromHexCons(s, hi, lo, rest);
    assert (hi * 16 + lo) as byte == b;
  }

  /** One step of `FromHex`: two digits, then the rest. */
  lemma FromHexCons(s: string, hi: int, lo: int, rest: seq<byte>)
    requires |s| >= 2
    requires ValueOf(s[0]) == Some(hi) && ValueOf(s[1]) == Some(lo)
    requires FromHex(s[2..]) == Some(rest)
    ensures 0 <= hi * 16 + lo < 256
    ensures FromHex(s) == Some([(hi * 16 + lo) as byte] + rest)
  {
  }

  /** Every character of hex text is a lower-case hex digit. */
  lemma {:induction false} ToHexDigits(bs: seq<byte>)
    ensures forall i :: 0 <= i < |ToHex(bs)| ==> ValueOf(ToHex(bs)[i]).Some?
    decreases |bs|
  {
    if |bs| > 0 {
      ValueOfDigit(bs[0] as int / 16);
      ValueOfDigit(bs[0] as int % 16);
      ToHexDigits(bs[1..]);
    }
  }
}
