/** Hexadecimal text of byte strings.

    Encoding is the web tools' `buf2hex` (two lowercase digits per byte); the
    same text is what Python's `bytes.hex` and `secrets.token_hex` produce, so
    the session salt uses it too. Decoding is `hex2buf`, which parses each
    two-character slice with JavaScript's `parseInt(_, 16)` and stores the
    result into a `Uint8Array`. */
module Hex {
  import opened Common

  type nibble = x: int | 0 <= x < 16

  /** The lowercase digit that `Number.prototype.toString(16)` writes. */
  function Digit(d: nibble): char {
    if d < 10 then ('0' as int + d) as char else ('a' as int + (d - 10)) as char
  }

  predicate IsLowerHexDigit(c: char) {
    '0' <= c <= '9' || 'a' <= c <= 'f'
  }

  /** `n.toString(16)`: the shortest lowercase radix-16 numeral of `n`. */
  function Radix16(n: nat): (s: seq<char>)
    ensures 1 <= |s|
    ensures n < 16 <==> |s| == 1
    ensures 16 <= n < 256 <==> |s| == 2
    ensures forall i :: 0 <= i < |s| ==> IsLowerHexDigit(s[i])
    decreases n
  {
    if n < 16 then [Digit(n)] else Radix16(n / 16) + [Digit(n % 16)]
  }

  /** `buf2hex`'s per-byte text: `('00' + x.toString(16)).slice(-2)`. */
  function SliceFormat(x: byte): seq<char> {
    var t := "00" + Radix16(x);
    t[|t| - 2..]
  }

  /** `generateRandomKey`'s per-byte text: `b.toString(16).padStart(2, '0')`. */
  function PadFormat(x: byte): seq<char> {
    var t := Radix16(x);
    if |t| < 2 then seq(2 - |t|, _ => '0') + t else t
  }

  /** The two ways the web tools format a byte agree, and both give the high
      digit then the low digit. */
  lemma FormatsAgree(x: byte)
    ensures SliceFormat(x) == PadFormat(x) == [Digit(x / 16), Digit(x % 16)]
  {
    if x >= 16 {
      assert Radix16(x / 16) == [Digit(x / 16)];
    }
  }

  /** `buf2hex`. */
  function Buf2Hex(b: seq<byte>): (s: seq<char>)
    ensures |s| == 2 * |b|
    ensures forall i :: 0 <= i < |b| ==> s[2 * i] == Digit(b[i] / 16) && s[2 * i + 1] == Digit(b[i] % 16)
    ensures forall j :: 0 <= j < |s| ==> IsLowerHexDigit(s[j])
    decreases |b|
  {
    if |b| == 0 then []
    else
      FormatsAgree(b[0]);
      var rest := Buf2Hex(b[1..]);
      PrependPair(b, rest);
      SliceFormat(b[0]) + rest
  }

  /** The step of `Buf2Hex`: the first byte's two digits in front of the
      rest's. */
  lemma PrependPair(b: seq<byte>, rest: seq<char>)
    requires |b| > 0 && |rest| == 2 * (|b| - 1)
    requires forall i :: 0 <= i < |b| - 1 ==>
               rest[2 * i] == Digit(b[i + 1] / 16) && rest[2 * i + 1] == Digit(b[i + 1] % 16)
    requires forall j :: 0 <= j < |rest| ==> IsLowerHexDigit(rest[j])
    ensures var s := [Digit(b[0] / 16), Digit(b[0] % 16)] + rest;
      && (forall i :: 0 <= i < |b| ==> s[2 * i] == Digit(b[i] / 16) && s[2 * i + 1] == Digit(b[i] % 16))
      && (forall j :: 0 <= j < |s| ==> IsLowerHexDigit(s[j]))
  {
    var s := [Digit(b[0] / 16), Digit(b[0] % 16)] + rest;
    forall i | 1 <= i < |b|
      ensures s[2 * i] == Digit(b[i] / 16) && s[2 * i + 1] == Digit(b[i] % 16)
    {
      var k := i - 1;
      assert s[2 * i] == rest[2 * k] && s[2 * i + 1] == rest[2 * k + 1];
    }
    forall j | 0 <= j < |s| ensures IsLowerHexDigit(s[j]) {
      if j >= 2 {
        assert s[j] == rest[j - 2];
      }
    }
  }

  /** The value of a hexadecimal digit in either case. */
  function DigitValue(c: char): (r: Option<nibble>)
    ensures IsLowerHexDigit(c) ==> r.Some? && Digit(r.value) == c
  {
    if '0' <= c <= '9' then Some(c as int - '0' as int)
    else if 'a' <= c <= 'f' then Some(c as int - 'a' as int + 10)
    else if 'A' <= c <= 'F' then Some(c as int - 'A' as int + 10)
    else None
  }

  /** JavaScript's white space and line terminators, which `parseInt` skips
      at the start of its argument. */
  predicate IsJsSpace(c: char) {
    c in {'\t', '\n', '\U{000B}', '\U{000C}', '\r', ' ', '\U{00A0}', '\U{1680}',
          '\U{2028}', '\U{2029}', '\U{202F}', '\U{205F}', '\U{3000}', '\U{FEFF}'}
    || '\U{2000}' <= c <= '\U{200A}'
  }

  /** `parseInt(s, 16)` for a two-character `s`, with None for NaN: leading
      white space and a sign are accepted, a `0x`/`0X` prefix is removed
      (leaving no digits), and parsing stops at the first non-digit. */
  function ParsePair(c0: char, c1: char): (r: Option<int>)
    ensures DigitValue(c0).Some? && DigitValue(c1).Some? ==>
              r == Some(16 * DigitValue(c0).value + DigitValue(c1).value)
    ensures DigitValue(c0).None? && DigitValue(c1).None? ==> r.None?
  {
    if c0 == '0' && (c1 == 'x' || c1 == 'X') then None
    else match (DigitValue(c0), DigitValue(c1))
      case (Some(h), Some(l)) => Some(16 * (h as int) + l)
      case (Some(h), None) => Some(h)
      case (None, Some(l)) =>
        if IsJsSpace(c0) || c0 == '+' then Some(l)
        else if c0 == '-' then Some(0 - l as int)
        else None
      case (None, None) => None
  }

  /** Storing a number into a `Uint8Array`: NaN becomes 0, everything else is
      reduced modulo 256. */
  function ToUint8(v: Option<int>): byte {
    match v
    case None => 0
    case Some(n) => n % 256
  }

  /** `hex2buf`: `new Uint8Array(hex.length / 2)` truncates the length, then
      slot `i` receives the parse of characters `2i` and `2i+1`. */
  function Hex2Buf(h: seq<char>): (b: seq<byte>)
    ensures |b| == |h| / 2
    ensures forall i :: 0 <= i < |b| && DigitValue(h[2 * i]).Some? && DigitValue(h[2 * i + 1]).Some? ==>
              b[i] == 16 * DigitValue(h[2 * i]).value + DigitValue(h[2 * i + 1]).value
  {
    seq(|h| / 2, i requires 0 <= i < |h| / 2 => ToUint8(ParsePair(h[2 * i], h[2 * i + 1])))
  }

  /** `hex2buf(buf2hex(b))` gives back `b`. */
  lemma Hex2BufBuf2Hex(b: seq<byte>)
    ensures Hex2Buf(Buf2Hex(b)) == b
  {
    var s := Buf2Hex(b);
    var r := Hex2Buf(s);
    assert |s| / 2 == |b|;
    forall i | 0 <= i < |b| ensures r[i] == b[i] {
      var hi, lo := b[i] / 16, b[i] % 16;
      DigitValueDigit(hi);
      DigitValueDigit(lo);
      assert s[2 * i] == Digit(hi) && s[2 * i + 1] == Digit(lo);
    }
    assert r == b;
  }

  lemma DigitValueDigit(d: nibble)
    ensures DigitValue(Digit(d)) == Some(d)
  {
  }
}
