/** Base64 as the vault uses it.

    - Encoding with padding, in the standard alphabet of section 4 of RFC 4648
      (the browser's `btoa`, behind `buf2b64` in the web tools) and the URL-
      and filename-safe alphabet of section 5 (Python's
      `base64.urlsafe_b64encode`, behind key and credential derivation).
    - Decoding as the browser's `atob` does it (the "forgiving-base64 decode"
      of the WHATWG Infra standard): padding is optional, a length of 1
      modulo 4 is refused, and leftover bits of a final partial group are
      dropped.

    Encoding is factored through the sequence of 6-bit values ("sextets"), so
    that the arithmetic and the alphabet are proved about separately. */
module Base64 {
  import opened Common

  datatype Alphabet = Standard | UrlSafe

  type sextet = x: int | 0 <= x < 64

  function Char(a: Alphabet, i: sextet): char {
    if i < 26 then ('A' as int + i) as char
    else if i < 52 then ('a' as int + (i - 26)) as char
    else if i < 62 then ('0' as int + (i - 52)) as char
    else if i == 62 then (if a == Standard then '+' else '-')
    else (if a == Standard then '/' else '_')
  }

  /** The value of an alphabet symbol, or None for any other character. */
  function Index(a: Alphabet, c: char): (r: Option<sextet>)
    ensures r.Some? ==> Char(a, r.value) == c
  {
    if 'A' <= c <= 'Z' then Some(c as int - 'A' as int)
    else if 'a' <= c <= 'z' then Some(c as int - 'a' as int + 26)
    else if '0' <= c <= '9' then Some(c as int - '0' as int + 52)
    else if c == (if a == Standard then '+' else '-') then Some(62)
    else if c == (if a == Standard then '/' else '_') then Some(63)
    else None
  }

  lemma IndexChar(a: Alphabet, i: sextet)
    ensures Index(a, Char(a, i)) == Some(i)
  {
  }

  /** No alphabet symbol is the padding character or the separator `:` that
      the web tools put between two Base64 fields. */
  lemma CharIsNotSpecial(a: Alphabet, i: sextet)
    ensures Char(a, i) != '=' && Char(a, i) != ':'
  {
  }

  /** The `=` characters completing the last four-character group of the
      encoding of `n` bytes. */
  function Padding(n: nat): seq<char> {
    if n % 3 == 1 then "==" else if n % 3 == 2 then "=" else ""
  }

  /** Three bytes as four sextets, most significant bits first. */
  function Group(b0: byte, b1: byte, b2: byte): (x: seq<sextet>)
    ensures |x| == 4
  {
    var x0, x1, x2: int := b0, b1, b2;
    [x0 / 4, (x0 % 4) * 16 + x1 / 16, (x1 % 16) * 4 + x2 / 64, x2 % 64]
  }

  lemma GroupLength(n: nat, k: nat)
    requires n >= 3
    requires k % 4 == (if (n - 3) % 3 == 0 then 0 else (n - 3) % 3 + 1)
    requires k + |Padding(n - 3)| == 4 * ((n - 3 + 2) / 3)
    ensures (4 + k) % 4 == (if n % 3 == 0 then 0 else n % 3 + 1)
    ensures 4 + k + |Padding(n)| == 4 * ((n + 2) / 3)
  {
    assert (n - 3) % 3 == n % 3;
    assert (n + 2) / 3 == (n - 3 + 2) / 3 + 1;
  }

  /** The 6-bit groups of a byte string, most significant bits first; a final
      group of one or two bytes is zero-filled to two or three sextets. */
  function Sextets(b: seq<byte>): (x: seq<sextet>)
    ensures |x| % 4 == (if |b| % 3 == 0 then 0 else |b| % 3 + 1)
    ensures |x| + |Padding(|b|)| == 4 * ((|b| + 2) / 3)
    decreases |b|
  {
    if |b| >= 3 then
      var rest := Sextets(b[3..]);
      GroupLength(|b|, |rest|);
      Group(b[0], b[1], b[2]) + rest
    else if |b| == 2 then
      Group(b[0], b[1], 0)[..3]
    else if |b| == 1 then
      Group(b[0], 0, 0)[..2]
    else []
  }

  function Chars(a: Alphabet, x: seq<sextet>): (s: seq<char>)
    ensures |s| == |x|
  {
    seq(|x|, i requires 0 <= i < |x| => Char(a, x[i]))
  }

  /** Padded Base64 encoding of `b` in alphabet `a`. */
  function Encode(a: Alphabet, b: seq<byte>): (s: seq<char>)
    ensures |s| == 4 * ((|b| + 2) / 3)
    ensures forall i :: 0 <= i < |s| ==> s[i] != ':'
    ensures forall i :: 0 <= i < |s| ==> s[i] == '=' || Index(a, s[i]).Some?
  {
    var body := Chars(a, Sextets(b));
    forall i | 0 <= i < |body| ensures body[i] != ':' && Index(a, body[i]).Some? {
      CharIsNotSpecial(a, Sextets(b)[i]);
      IndexChar(a, Sextets(b)[i]);
    }
    body + Padding(|b|)
  }

  /** Four sextets as three bytes: the inverse of `Group`. */
  function Ungroup(x0: sextet, x1: sextet, x2: sextet, x3: sextet): (b: seq<byte>)
    ensures |b| == 3
  {
    var y0, y1, y2, y3: int := x0, x1, x2, x3;
    [y0 * 4 + y1 / 16, (y1 % 16) * 16 + y2 / 4, (y2 % 4) * 64 + y3]
  }

  /** Reverses `Sextets`; a sextet count of 1 modulo 4 cannot occur, and the
      unused low bits of a final partial group are dropped. */
  function Bytes(x: seq<sextet>): (b: seq<byte>)
    requires |x| % 4 != 1
    decreases |x|
  {
    if |x| >= 4 then Ungroup(x[0], x[1], x[2], x[3]) + Bytes(x[4..])
    else if |x| == 3 then Ungroup(x[0], x[1], x[2], 0)[..2]
    else if |x| == 2 then Ungroup(x[0], x[1], 0, 0)[..1]
    else []
  }


  /** The sextet values of a string, or None if some character is outside the
      alphabet. */
  function Indices(a: Alphabet, s: seq<char>): (r: Option<seq<sextet>>)
    ensures r.Some? ==> |r.value| == |s|
    ensures r.Some? ==> Chars(a, r.value) == s
    ensures r.None? <==> exists i :: 0 <= i < |s| && Index(a, s[i]).None?
    decreases |s|
  {
    if |s| == 0 then Some([])
    else
      match (Index(a, s[0]), Indices(a, s[1..]))
      case (Some(v), Some(vs)) =>
        assert Chars(a, [v] + vs) == [s[0]] + s[1..];
        Some([v] + vs)
      case (None, _) => None
      case (_, None) =>
        var i :| 0 <= i < |s[1..]| && Index(a, s[1..][i]).None?;
        assert Index(a, s[i + 1]).None?;
        None
  }

  /** Drops one or two trailing `=` from a string whose length is a
      multiple of four. */
  function Unpad(s: seq<char>): (t: seq<char>)
    ensures StartsWith(s, t)
  {
    if |s| % 4 == 0 && EndsWith(s, "==") then s[..|s| - 2]
    else if |s| % 4 == 0 && EndsWith(s, "=") then s[..|s| - 1]
    else s
  }

  /** `atob`: strip one or two trailing `=` from a length that is a multiple
      of four, refuse a remainder of one, refuse any character outside the
      standard alphabet, then decode. */
  function Decode(s: seq<char>): (r: Option<seq<byte>>)
    ensures r.Some? ==> forall i :: 0 <= i < |s| && s[i] != '=' ==> Index(Standard, s[i]).Some?
  {
    DecodeIn(Standard, s)
  }

  /** The same decoding over either alphabet; over `UrlSafe` it reads a
      padded key the way `base64.urlsafe_b64decode` does. */
  function DecodeIn(a: Alphabet, s: seq<char>): (r: Option<seq<byte>>)
    ensures r.Some? ==> forall i :: 0 <= i < |s| && s[i] != '=' ==> Index(a, s[i]).Some?
  {
    var t := Unpad(s);
    if |t| % 4 == 1 then None
    else match Indices(a, t)
      case None => None
      case Some(x) =>
        assert forall i :: 0 <= i < |s| && s[i] != '=' ==> i < |t| && s[i] == t[i];
        Some(Bytes(x))
  }

  /** Ungrouping a group gives its bytes back. */
  lemma GroupInverse(b0: byte, b1: byte, b2: byte)
    ensures var x := Group(b0, b1, b2); Ungroup(x[0], x[1], x[2], x[3]) == [b0, b1, b2]
  {
  }

  /** The partial groups: one or two bytes come back from their two or
      three sextets. */
  lemma PartialGroupInverse(b0: byte, b1: byte)
    ensures var x := Sextets([b0, b1]); Bytes(x) == [b0, b1]
    ensures var x := Sextets([b0]); Bytes(x) == [b0]
  {
    GroupInverse(b0, b1, 0);
    GroupInverse(b0, 0, 0);
    var g, h := Group(b0, b1, 0), Group(b0, 0, 0);
    assert Ungroup(g[0], g[1], g[2], 0)[..2] == Ungroup(g[0], g[1], g[2], g[3])[..2];
    assert Ungroup(h[0], h[1], 0, 0)[..1] == Ungroup(h[0], h[1], h[2], h[3])[..1];
  }

  lemma {:induction false} BytesSextets(b: seq<byte>)
    ensures Bytes(Sextets(b)) == b
    decreases |b|
  {
    if |b| >= 3 {
      var x := Sextets(b);
      assert x[..4] == Group(b[0], b[1], b[2]) && x[4..] == Sextets(b[3..]);
      GroupInverse(b[0], b[1], b[2]);
      BytesSextets(b[3..]);
      assert b == [b[0], b[1], b[2]] + b[3..];
    } else if |b| == 2 {
      PartialGroupInverse(b[0], b[1]);
      assert b == [b[0], b[1]];
    } else if |b| == 1 {
      PartialGroupInverse(b[0], 0);
      assert b == [b[0]];
    }
  }



  lemma IndicesChars(a: Alphabet, x: seq<sextet>)
    ensures Indices(a, Chars(a, x)) == Some(x)
  {
    var s := Chars(a, x);
    forall i | 0 <= i < |s| ensures Index(a, s[i]).Some? {
      IndexChar(a, x[i]);
    }
    var y := Indices(a, s).value;
    forall i | 0 <= i < |x| ensures y[i] == x[i] {
      assert Char(a, y[i]) == s[i] == Char(a, x[i]);
      IndexChar(a, x[i]);
      IndexChar(a, y[i]);
    }
    assert y == x;
  }

  lemma UnpadNoPadding(body: seq<char>)
    requires |body| % 4 == 0
    requires |body| > 0 ==> body[|body| - 1] != '='
    ensures Unpad(body) == body
  {
  }

  lemma UnpadTwo(body: seq<char>)
    requires |body| % 4 == 2
    ensures Unpad(body + "==") == body
  {
    var s := body + "==";
    assert s[|s| - 2..] == "==";
    assert s[..|s| - 2] == body;
  }

  lemma UnpadOne(body: seq<char>)
    requires |body| % 4 == 3 && body[|body| - 1] != '='
    ensures Unpad(body + "=") == body
  {
    var s := body + "=";
    assert s[|s| - 2] == body[|body| - 1];
    assert !EndsWith(s, "==");
    assert s[|s| - 1..] == "=";
    assert s[..|s| - 1] == body;
  }

  lemma UnpadEncode(a: Alphabet, b: seq<byte>)
    ensures Unpad(Encode(a, b)) == Chars(a, Sextets(b))
  {
    var x := Sextets(b);
    var body := Chars(a, x);
    if |body| > 0 {
      CharIsNotSpecial(a, x[|x| - 1]);
    }
    if |b| % 3 == 0 {
      assert Encode(a, b) == body;
      UnpadNoPadding(body);
    } else if |b| % 3 == 1 {
      assert Encode(a, b) == body + "==";
      UnpadTwo(body);
    } else {
      assert Encode(a, b) == body + "=";
      UnpadOne(body);
    }
  }

  /** Round trip through `btoa` and `atob`. */
  lemma DecodeEncode(b: seq<byte>)
    ensures Decode(Encode(Standard, b)) == Some(b)
  {
    DecodeInEncode(Standard, b);
  }

  lemma DecodeInEncode(a: Alphabet, b: seq<byte>)
    ensures DecodeIn(a, Encode(a, b)) == Some(b)
  {
    UnpadEncode(a, b);
    IndicesChars(a, Sextets(b));
    BytesSextets(b);
  }

  /** A 32-byte digest (the SHA-256 output) encodes to 44 characters ending
      in a single `=`: the shape of a Fernet key. */
  lemma DigestEncodingShape(a: Alphabet, d: seq<byte>)
    requires |d| == 32
    ensures |Encode(a, d)| == 44
    ensures Encode(a, d)[43] == '=' && Encode(a, d)[42] != '='
  {
    var x := Sextets(d);
    CharIsNotSpecial(a, x[42]);
  }
}
