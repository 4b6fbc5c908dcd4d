/** Least-significant-bit steganography in the red channel of an RGB image.

    An image is its size and its pixels after `convert("RGB")`, in the order
    the loops visit them: row by row, left to right within a row (the pixel
    at `(x, y)` has index `y * width + x`). Opening, converting and saving
    the PNG are left out; a PNG round trip is lossless, so the decoder sees
    the pixels the encoder wrote. */
module Stegano {
  import opened Common

  type bit = x: int | 0 <= x < 2

  datatype Pixel = Pixel(r: byte, g: byte, b: byte)

  datatype Image = Image(width: nat, height: nat, pixels: seq<Pixel>)

  predicate WellFormed(img: Image) {
    |img.pixels| == img.width * img.height
  }

  /** Fifteen ones and a zero, appended after the message. */
  const Delimiter: seq<bit> := [1, 1, 1, 1, 1, 1, 1, 1, 1, 1, 1, 1, 1, 1, 1, 0]

  const NotFound: seq<char> := "No hidden message found or image too large/corrupted."

  /** The shortest binary numeral of `n`, most significant bit first. */
  function Binary(n: nat): (bs: seq<bit>)
    ensures |bs| >= 1
    decreases n
  {
    if n < 2 then [n] else Binary(n / 2) + [n % 2]
  }

  /** The value of a binary numeral, as `int(s, 2)` reads it. */
  function Value(bs: seq<bit>): nat {
    if |bs| == 0 then 0 else 2 * Value(bs[..|bs| - 1]) + bs[|bs| - 1]
  }

  /** `format(n, "0<k>b")`: the binary numeral of `n` with leading zeros up
      to width `k`; a longer numeral is left as it is. */
  function Pad(k: nat, bs: seq<bit>): (r: seq<bit>)
    ensures |r| == if |bs| < k then k else |bs|
  {
    if |bs| < k then seq(k - |bs|, _ => 0) + bs else bs
  }

  /** `format(ord(c), "08b")`: exactly eight bits for a code below 256, more
      for every wider character. */
  function CharBits(c: char): (bs: seq<bit>)
    ensures |bs| >= 8
    ensures c as int < 256 <==> |bs| == 8
  {
    PaddedWidth(c as int);
    Pad(8, Binary(c as int))
  }

  lemma PaddedWidth(n: nat)
    ensures n < 256 <==> |Pad(8, Binary(n))| == 8
  {
    assert Pow2(8) == 256;
    var b := Binary(n);
    if n < 256 {
      PadBinary(8, n);
    } else if |b| <= 8 {
      BinaryValue(n);
      ValueBound(b);
      Pow2Monotone(|b|, 8);
      assert false;
    }
  }

  /** The bits of the message itself. */
  function TextBits(text: seq<char>): seq<bit> {
    if |text| == 0 then [] else CharBits(text[0]) + TextBits(text[1..])
  }

  /** Everything `encode_lsb` embeds: the message, then the delimiter. */
  function MessageBits(text: seq<char>): (bs: seq<bit>)
    ensures EndsWith(bs, Delimiter)
  {
    TextBits(text) + Delimiter
  }

  /** `r &= ~1` for a zero bit, `r |= 1` for a one bit. */
  function SetLsb(p: Pixel, b: bit): (q: Pixel)
    ensures q.r % 2 == b && q.r / 2 == p.r / 2
    ensures q.g == p.g && q.b == p.b
  {
    p.(r := p.r - p.r % 2 + b)
  }

  /** `encode_lsb`: pixel `k` carries bit `k` in the low bit of its red
      channel; pixels past the last bit are untouched; bits past the last
      pixel are silently dropped. */
  function Encode(img: Image, text: seq<char>): (out: Image)
    ensures out.width == img.width && out.height == img.height
    ensures |out.pixels| == |img.pixels|
    ensures WellFormed(img) ==> WellFormed(out)
    ensures forall k :: 0 <= k < |img.pixels| && k < |MessageBits(text)| ==>
              out.pixels[k] == SetLsb(img.pixels[k], MessageBits(text)[k])
    ensures forall k :: |MessageBits(text)| <= k < |img.pixels| ==> out.pixels[k] == img.pixels[k]
  {
    var bits := MessageBits(text);
    img.(pixels := seq(|img.pixels|, k requires 0 <= k < |img.pixels| =>
      if k < |bits| then SetLsb(img.pixels[k], bits[k]) else img.pixels[k]))
  }

  /** The low bits of the red channels, in visiting order. */
  function Lsbs(pixels: seq<Pixel>): (bs: seq<bit>)
    ensures |bs| == |pixels| && forall k :: 0 <= k < |pixels| ==> bs[k] == pixels[k].r % 2
  {
    seq(|pixels|, k requires 0 <= k < |pixels| => pixels[k].r % 2)
  }

  /** After reading `n` bits, the last sixteen of them are the delimiter. */
  predicate DelimiterEndsAt(bits: seq<bit>, n: nat) {
    16 <= n <= |bits| && bits[n - 16..n] == Delimiter
  }

  /** The first length `n >= from` after which the decoder sees the
      delimiter. */
  function FirstDelimiter(bits: seq<bit>, from: nat): (r: Option<nat>)
    ensures r.Some? ==> from <= r.value && DelimiterEndsAt(bits, r.value)
    ensures r.Some? ==> forall n :: from <= n < r.value ==> !DelimiterEndsAt(bits, n)
    ensures r.None? ==> forall n :: from <= n ==> !DelimiterEndsAt(bits, n)
    decreases |bits| + 1 - from
  {
    if from > |bits| then None
    else if DelimiterEndsAt(bits, from) then Some(from)
    else FirstDelimiter(bits, from + 1)
  }

  /** `chr(int(byte, 2))` over successive eight-bit slices; the last slice
      may be shorter. */
  function Chunks(bits: seq<bit>): (text: seq<char>)
    ensures |text| == (|bits| + 7) / 8
    decreases |bits|
  {
    if |bits| == 0 then []
    else
      var n := if |bits| < 8 then |bits| else 8;
      ChunkValueBound(bits[..n]);
      [Value(bits[..n]) as char] + Chunks(bits[n..])
  }

  lemma {:induction false} ChunkValueBound(bs: seq<bit>)
    requires |bs| <= 8
    ensures Value(bs) < 256
  {
    ValueBound(bs);
    assert Pow2(|bs|) <= 256 by { Pow2Monotone(|bs|, 8); }
  }

  function Pow2(k: nat): (p: nat)
    ensures p >= 1
  {
    if k == 0 then 1 else 2 * Pow2(k - 1)
  }

  lemma {:induction false} Pow2Monotone(j: nat, k: nat)
    requires j <= k
    ensures Pow2(j) <= Pow2(k)
    decreases k
  {
    if j < k {
      Pow2Monotone(j, k - 1);
    }
  }

  lemma {:induction false} ValueBound(bs: seq<bit>)
    ensures Value(bs) < Pow2(|bs|)
    decreases |bs|
  {
    if |bs| > 0 {
      ValueBound(bs[..|bs| - 1]);
    }
  }

  /** `decode_lsb` as written: the delimiter is looked for after every bit,
      and the bits before its first occurrence are the message. */
  function Decode(img: Image): (text: seq<char>)
    ensures (forall n :: !DelimiterEndsAt(Lsbs(img.pixels), n)) ==> text == NotFound
    ensures var bits := Lsbs(img.pixels);
      forall n: nat :: DelimiterEndsAt(bits, n) && (forall k: nat :: k < n ==> !DelimiterEndsAt(bits, k)) ==>
        text == Chunks(bits[..n - 16])
  {
    var bits := Lsbs(img.pixels);
    match FirstDelimiter(bits, 0)
    case None => NotFound
    case Some(n) => Chunks(bits[..n - 16])
  }

  /** The first length `n >= from` that is a whole number of bytes and after
      which the decoder sees the delimiter. */
  function FirstAlignedDelimiter(bits: seq<bit>, from: nat): (r: Option<nat>)
    ensures r.Some? ==> from <= r.value && r.value % 8 == 0 && DelimiterEndsAt(bits, r.value)
    ensures r.Some? ==> forall n :: from <= n < r.value && n % 8 == 0 ==> !DelimiterEndsAt(bits, n)
    ensures r.None? ==> forall n :: from <= n && n % 8 == 0 ==> !DelimiterEndsAt(bits, n)
    decreases |bits| + 1 - from
  {
    if from > |bits| then None
    else if from % 8 == 0 && DelimiterEndsAt(bits, from) then Some(from)
    else FirstAlignedDelimiter(bits, from + 1)
  }

  /** `decode_lsb` checking for the delimiter every eight bits, as its own
      comment describes. */
  function DecodeAligned(img: Image): (text: seq<char>)
    ensures (forall n :: n % 8 == 0 ==> !DelimiterEndsAt(Lsbs(img.pixels), n)) ==> text == NotFound
    ensures var bits := Lsbs(img.pixels);
      forall n: nat ::
        (n % 8 == 0 && DelimiterEndsAt(bits, n) &&
         forall k: nat :: k < n && k % 8 == 0 ==> !DelimiterEndsAt(bits, k)) ==>
        text == Chunks(bits[..n - 16])
  {
    var bits := Lsbs(img.pixels);
    match FirstAlignedDelimiter(bits, 0)
    case None => NotFound
    case Some(n) => Chunks(bits[..n - 16])
  }

  /** The `k`-bit numeral of `n`, most significant bit first. */
  function Fixed(k: nat, n: nat): (bs: seq<bit>)
    ensures |bs| == k
  {
    if k == 0 then [] else Fixed(k - 1, n / 2) + [n % 2]
  }

  lemma {:induction false} FixedZero(k: nat)
    ensures Fixed(k, 0) == seq(k, _ => 0)
  {
    if k > 0 {
      FixedZero(k - 1);
    }
  }

  lemma {:induction false} ValueFixed(k: nat, n: nat)
    requires n < Pow2(k)
    ensures Value(Fixed(k, n)) == n
  {
    if k > 0 {
      ValueFixed(k - 1, n / 2);
      var f := Fixed(k, n);
      assert f[..k - 1] == Fixed(k - 1, n / 2);
    }
  }

  /** Padding the shortest numeral to a width it fits in gives the
      fixed-width numeral. */
  lemma {:induction false} PadBinary(k: nat, n: nat)
    requires k >= 1 && n < Pow2(k)
    ensures Pad(k, Binary(n)) == Fixed(k, n)
    decreases n
  {
    if n < 2 {
      FixedZero(k - 1);
      assert Fixed(k - 1, n / 2) == seq(k - 1, _ => 0);
    } else {
      assert k >= 2;
      PadBinary(k - 1, n / 2);
      var b := Binary(n / 2);
      assert |b| <= k - 1;
      assert Binary(n) == b + [n % 2];
    }
  }

  /** The shortest numeral reads back as its number and has no leading
      zero. */
  lemma {:induction false} BinaryValue(n: nat)
    ensures Value(Binary(n)) == n
    ensures n > 0 ==> Binary(n)[0] == 1
    decreases n
  {
    if n >= 2 {
      BinaryValue(n / 2);
      var b := Binary(n / 2);
      assert Binary(n)[..|Binary(n)| - 1] == b;
    }
  }

  /** A character below 256 is written as exactly eight bits, which read
      back as its code. */
  lemma ByteCharBits(c: char)
    requires c as int < 256
    ensures CharBits(c) == Fixed(8, c as int)
    ensures Value(CharBits(c)) == c as int
  {
    assert Pow2(8) == 256;
    PadBinary(8, c as int);
    ValueFixed(8, c as int);
  }

  predicate IsByteText(text: seq<char>) {
    forall i :: 0 <= i < |text| ==> text[i] as int < 256
  }

  lemma {:induction false} ByteTextBits(text: seq<char>)
    requires IsByteText(text)
    ensures |TextBits(text)| == 8 * |text|
    ensures forall i, j :: 0 <= i < |text| && 0 <= j < 8 ==> TextBits(text)[8 * i + j] == CharBits(text[i])[j]
  {
    if |text| > 0 {
      ByteCharBits(text[0]);
      ByteTextBits(text[1..]);
      forall i, j | 0 <= i < |text| && 0 <= j < 8
        ensures TextBits(text)[8 * i + j] == CharBits(text[i])[j]
      {
        if i > 0 {
          assert text[1..][i - 1] == text[i];
          assert 8 * i + j == 8 + (8 * (i - 1) + j);
        }
      }
    }
  }

  /** Reading a byte message's bits eight at a time gives the message back. */
  lemma {:induction false} ChunksTextBits(text: seq<char>)
    requires IsByteText(text)
    ensures Chunks(TextBits(text)) == text
  {
    if |text| > 0 {
      ByteCharBits(text[0]);
      ByteTextBits(text[1..]);
      var bits := TextBits(text);
      assert bits[..8] == CharBits(text[0]);
      assert bits[8..] == TextBits(text[1..]);
      ChunksTextBits(text[1..]);
      assert text == [text[0]] + text[1..];
    }
  }

  /** With enough pixels, the low bits read back start with everything the
      encoder embedded. */
  lemma EncodedLsbs(img: Image, text: seq<char>)
    requires |MessageBits(text)| <= |img.pixels|
    ensures Lsbs(Encode(img, text).pixels)[..|MessageBits(text)|] == MessageBits(text)
  {
  }

  /** No delimiter ends before the real one. */
  predicate NoEarlyDelimiter(bits: seq<bit>) {
    forall n :: 0 <= n < |bits| ==> !DelimiterEndsAt(bits, n)
  }

  /** Where the embedded bits start the stream, the first delimiter the
      decoder meets is the real one, provided none ends earlier. */
  lemma FirstDelimiterOfPrefix(bits: seq<bit>, m: seq<bit>)
    requires StartsWith(bits, m) && EndsWith(m, Delimiter) && NoEarlyDelimiter(m)
    ensures FirstDelimiter(bits, 0) == Some(|m|)
  {
    assert DelimiterEndsAt(bits, |m|) by {
      assert bits[|m| - 16..|m|] == m[|m| - 16..];
    }
    PrefixDelimiters(bits, m);
  }

  /** Up to the end of a prefix, the delimiter ends at the same places in the
      prefix as in the whole stream. */
  lemma PrefixDelimiters(bits: seq<bit>, m: seq<bit>)
    requires StartsWith(bits, m)
    ensures forall n :: 0 <= n <= |m| ==> (DelimiterEndsAt(bits, n) <==> DelimiterEndsAt(m, n))
  {
    forall n | 0 <= n <= |m|
      ensures DelimiterEndsAt(bits, n) <==> DelimiterEndsAt(m, n)
    {
      if 16 <= n {
        assert bits[n - 16..n] == bits[..|m|][n - 16..n];
      }
    }
  }

  /** `decode_lsb(encode_lsb(img, text)) == text` as written: for messages
      of characters below 256 that fit in the image and in whose embedded
      bits no delimiter ends early. */
  lemma DecodeEncode(img: Image, text: seq<char>)
    requires IsByteText(text) && |MessageBits(text)| <= |img.pixels|
    requires NoEarlyDelimiter(MessageBits(text))
    ensures Decode(Encode(img, text)) == text
  {
    var m := MessageBits(text);
    var bits := Lsbs(Encode(img, text).pixels);
    EncodedLsbs(img, text);
    FirstDelimiterOfPrefix(bits, m);
    assert bits[..|m| - 16] == TextBits(text);
    ChunksTextBits(text);
  }

  /** The two characters whose bits spell the delimiter. */
  predicate HasDelimiterPair(text: seq<char>) {
    exists i :: 0 <= i < |text| - 1 && text[i] == '\U{FF}' && text[i + 1] == '\U{FE}'
  }

  /** All ones: the k-bit numeral of 2^k - 1. */
  lemma {:induction false} FixedOnes(k: nat)
    ensures Fixed(k, Pow2(k) - 1) == seq(k, _ => 1)
  {
    if k > 0 {
      FixedOnes(k - 1);
      var n := Pow2(k) - 1;
      assert n / 2 == Pow2(k - 1) - 1 && n % 2 == 1;
      assert seq(k, _ => 1) == seq(k - 1, _ => 1) + [1];
    }
  }

  lemma ByteNumerals()
    ensures Fixed(8, 255) == [1, 1, 1, 1, 1, 1, 1, 1]
    ensures Fixed(8, 254) == [1, 1, 1, 1, 1, 1, 1, 0]
    ensures Fixed(8, 252) == [1, 1, 1, 1, 1, 1, 0, 0]
    ensures Fixed(8, 1) == [0, 0, 0, 0, 0, 0, 0, 1]
  {
    assert Pow2(6) == 64 && Pow2(7) == 128 && Pow2(8) == 256;
    FixedOnes(6);
    FixedOnes(7);
    FixedOnes(8);
    FixedZero(7);
    assert Fixed(8, 254) == Fixed(7, 127) + [0];
    assert Fixed(8, 252) == Fixed(7, 126) + [0];
    assert Fixed(7, 126) == Fixed(6, 63) + [0];
    assert Fixed(8, 1) == Fixed(7, 0) + [1];
  }

  lemma DelimiterHalves()
    ensures Delimiter[..8] == Fixed(8, 255)
    ensures Delimiter[8..] == Fixed(8, 254)
  {
    ByteNumerals();
  }

  /** An eight-bit group equal to a fixed-width numeral names that byte. */
  lemma GroupIsByte(c: char, n: nat, g: seq<bit>)
    requires c as int < 256 && n < 256 && g == CharBits(c) && g == Fixed(8, n)
    ensures c as int == n
  {
    ByteCharBits(c);
    assert Pow2(8) == 256;
    ValueFixed(8, n);
  }

  lemma {:induction false} ByteMessageLength(text: seq<char>)
    requires IsByteText(text)
    ensures |TextBits(text)| == 8 * |text|
    ensures |MessageBits(text)| == 8 * |text| + 16
  {
    ByteTextBits(text);
  }

  lemma MessageBitsCons(text: seq<char>)
    requires |text| > 0
    ensures MessageBits(text) == CharBits(text[0]) + MessageBits(text[1..])
  {
  }

  lemma SliceAfter<T>(a: seq<T>, b: seq<T>, lo: int, hi: int)
    requires |a| <= lo <= hi <= |a| + |b|
    ensures (a + b)[lo..hi] == b[lo - |a|..hi - |a|]
  {
  }

  lemma PrefixOfConcat<T>(a: seq<T>, b: seq<T>, c: seq<T>)
    ensures (a + (b + c))[..|a| + |b|] == a + b
  {
  }

  /** The first sixteen bits of a byte message are its first two
      characters. */
  lemma WindowOfFirstPair(text: seq<char>)
    requires IsByteText(text) && 2 <= |text|
    ensures |MessageBits(text)| >= 16
    ensures MessageBits(text)[..16] == CharBits(text[0]) + CharBits(text[1])
  {
    var rest := text[1..];
    ByteCharBits(text[0]);
    ByteCharBits(text[1]);
    MessageBitsCons(text);
    MessageBitsCons(rest);
    PrefixOfConcat(CharBits(text[0]), CharBits(rest[0]), MessageBits(rest[1..]));
  }

  /** Eight bits in front move a window eight places on. */
  lemma ShiftWindow(first: seq<bit>, later: seq<bit>, lo: nat, w: seq<bit>)
    requires |first| == 8 && lo + 16 <= |later| && later[lo..lo + 16] == w
    ensures (first + later)[lo + 8..lo + 24] == w
  {
    SliceAfter(first, later, lo + 8, lo + 24);
  }

  /** The sixteen bits ending after character `k - 1` are the bits of the
      characters `k - 2` and `k - 1`. */
  lemma {:induction false} WindowOfPair(text: seq<char>, k: nat)
    requires IsByteText(text) && 2 <= k <= |text|
    ensures |MessageBits(text)| == 8 * |text| + 16
    ensures MessageBits(text)[8 * k - 16..8 * k] == CharBits(text[k - 2]) + CharBits(text[k - 1])
  {
    ByteMessageLength(text);
    if k == 2 {
      WindowOfFirstPair(text);
    } else {
      var rest := text[1..];
      assert IsByteText(rest);
      WindowOfPair(rest, k - 1);
      assert rest[k - 3] == text[k - 2] && rest[k - 2] == text[k - 1];
      WindowStep(text, k);
    }
  }

  lemma WindowStep(text: seq<char>, k: nat)
    requires IsByteText(text) && 3 <= k <= |text|
    requires 8 * k - 8 <= |MessageBits(text[1..])|
    requires MessageBits(text[1..])[8 * k - 24..8 * k - 8] == CharBits(text[k - 2]) + CharBits(text[k - 1])
    ensures MessageBits(text)[8 * k - 16..8 * k] == CharBits(text[k - 2]) + CharBits(text[k - 1])
  {
    ByteCharBits(text[0]);
    MessageBitsCons(text);
    ShiftWindow(CharBits(text[0]), MessageBits(text[1..]), 8 * k - 24,
      CharBits(text[k - 2]) + CharBits(text[k - 1]));
  }

  /** Two bytes spell the delimiter only if they are U+00FF and U+00FE. */
  lemma PairIsNotDelimiter(a: char, b: char)
    requires a as int < 256 && b as int < 256 && !(a == '\U{FF}' && b == '\U{FE}')
    ensures CharBits(a) + CharBits(b) != Delimiter
  {
    ByteCharBits(a);
    ByteCharBits(b);
    DelimiterHalves();
    if CharBits(a) + CharBits(b) == Delimiter {
      assert CharBits(a) == Delimiter[..8];
      assert CharBits(b) == Delimiter[8..];
      GroupIsByte(a, 255, CharBits(a));
      GroupIsByte(b, 254, CharBits(b));
    }
  }

  /** The window that ends one byte into the delimiter ends in a one, and
      the delimiter ends in a zero. */
  lemma LastWindowIsNotDelimiter(text: seq<char>)
    requires IsByteText(text) && |text| >= 1
    ensures !DelimiterEndsAt(MessageBits(text), 8 * |text| + 8)
  {
    ByteMessageLength(text);
    var t := TextBits(text);
    var m := MessageBits(text);
    var n := 8 * |text|;
    assert |t| == n;
    assert m[n + 7] == Delimiter[7] == 1;
  }

  /** At byte boundaries, a byte message holds a delimiter only where it
      holds the pair U+00FF U+00FE; the delimiter's own first byte can never
      complete one. */
  lemma NoEarlyAlignedDelimiter(text: seq<char>)
    requires IsByteText(text) && !HasDelimiterPair(text)
    ensures forall n: nat :: n < |MessageBits(text)| && n % 8 == 0 ==> !DelimiterEndsAt(MessageBits(text), n)
  {
    var m := MessageBits(text);
    ByteTextBits(text);
    forall n: nat | n < |m| && n % 8 == 0
      ensures !DelimiterEndsAt(m, n)
    {
      if 16 <= n {
        var k := n / 8;
        assert n == 8 * k;
        if k == |text| + 1 {
          LastWindowIsNotDelimiter(text);
        } else {
          WindowOfPair(text, k);
          PairIsNotDelimiter(text[k - 2], text[k - 1]);
        }
      }
    }
  }

  /** The byte-aligned decoder's round trip: every byte message that fits
      and does not contain U+00FF U+00FE comes back. */
  lemma DecodeAlignedEncode(img: Image, text: seq<char>)
    requires IsByteText(text) && |MessageBits(text)| <= |img.pixels|
    requires !HasDelimiterPair(text)
    ensures DecodeAligned(Encode(img, text)) == text
  {
    AlignedDelimiterOfEncoding(img, text);
    ChunksTextBits(text);
  }

  /** In an encoded image the first byte-aligned delimiter ends right after
      the embedded bits, and the message bits come before it. */
  lemma AlignedDelimiterOfEncoding(img: Image, text: seq<char>)
    requires IsByteText(text) && |MessageBits(text)| <= |img.pixels|
    requires !HasDelimiterPair(text)
    ensures var bits := Lsbs(Encode(img, text).pixels);
      var m := MessageBits(text);
      && 16 <= |m| <= |bits|
      && FirstAlignedDelimiter(bits, 0) == Some(|m|)
      && bits[..|m| - 16] == TextBits(text)
  {
    var m := MessageBits(text);
    var bits := Lsbs(Encode(img, text).pixels);
    EncodedLsbs(img, text);
    NoEarlyAlignedDelimiter(text);
    ByteTextBits(text);
    assert |m| % 8 == 0;
    PrefixDelimiters(bits, m);
    assert DelimiterEndsAt(m, |m|);
    assert FirstAlignedDelimiter(bits, 0) == Some(|m|);
    assert bits[..|m| - 16] == TextBits(text);
  }

  const ExampleText: seq<char> := "\U{1}\U{FF}\U{FC}"

  const ExampleStream: seq<bit> :=
    [0, 0, 0, 0, 0, 0, 0, 1, 1, 1, 1, 1, 1, 1, 1, 1, 1, 1, 1, 1, 1, 1, 0, 0] + Delimiter

  lemma TextBitsOfThree(a: char, b: char, c: char)
    ensures TextBits([a, b, c]) == CharBits(a) + CharBits(b) + CharBits(c)
  {
    assert [a, b, c][1..] == [b, c];
    assert [b, c][1..] == [c];
    assert [c][1..] == [];
    assert TextBits([c]) == CharBits(c);
    assert TextBits([b, c]) == CharBits(b) + CharBits(c);
  }

  lemma ExampleBitsOf(a: char, b: char, c: char)
    requires a as int == 1 && b as int == 255 && c as int == 252
    ensures TextBits([a, b, c]) == [0, 0, 0, 0, 0, 0, 0, 1] + [1, 1, 1, 1, 1, 1, 1, 1] + [1, 1, 1, 1, 1, 1, 0, 0]
  {
    TextBitsOfThree(a, b, c);
    ByteCharBits(a);
    ByteCharBits(b);
    ByteCharBits(c);
    ByteNumerals();
  }

  lemma ExampleBits()
    ensures MessageBits(ExampleText) == ExampleStream
  {
    MessageBitsOfExample(ExampleText);
  }

  lemma MessageBitsOfExample(t: seq<char>)
    requires |t| == 3 && t[0] as int == 1 && t[1] as int == 255 && t[2] as int == 252
    ensures MessageBits(t) == ExampleStream
  {
    assert t == [t[0], t[1], t[2]];
    ExampleBitsOf(t[0], t[1], t[2]);
  }

  lemma ExampleFirstDelimiter()
    ensures FirstDelimiter(ExampleStream, 0) == Some(23)
  {
    var m := ExampleStream;
    assert m[7..23] == Delimiter by {
      forall i | 0 <= i < 16
        ensures m[7..23][i] == Delimiter[i]
      {
        assert m[7..23][i] == m[7 + i];
      }
    }
    assert DelimiterEndsAt(m, 23);
    forall n | 0 <= n < 23
      ensures !DelimiterEndsAt(m, n)
    {
      if 16 <= n {
        assert m[n - 16..n][0] == m[n - 16] == 0;
      }
    }
  }

  /** The message U+0001 U+00FF U+00FC: its bits run fifteen ones then a
      zero starting at bit 7, so the decoder as written stops there and
      returns a single U+0000, while the byte-aligned decoder returns the
      message. */
  lemma MisalignedDelimiter(img: Image)
    requires |img.pixels| >= 40
    ensures Decode(Encode(img, ExampleText)) == "\U{0}"
    ensures DecodeAligned(Encode(img, ExampleText)) == ExampleText
  {
    var text := ExampleText;
    var m := MessageBits(text);
    ExampleBits();
    ExampleFirstDelimiter();
    var bits := Lsbs(Encode(img, text).pixels);
    EncodedLsbs(img, text);
    PrefixDelimiters(bits, m);
    assert FirstDelimiter(bits, 0) == Some(23);
    var z := bits[..7];
    assert z == m[..7];
    assert m[..7] == [0, 0, 0, 0, 0, 0, 0];
    FixedZero(7);
    ValueFixed(7, 0);
    assert z == Fixed(7, 0);
    assert z[..7] == z && z[7..] == [];
    assert Chunks(z) == [Value(z) as char] + Chunks([]);
    DecodeAlignedEncode(img, text);
  }
}
