/** The vault's cryptographic helpers.

    SHA-256 and Fernet are not modelled bit for bit: they are function values
    in a `Primitives` record, and `Valid` states the two facts the vault
    relies on — a SHA-256 digest is 32 bytes, and Fernet decryption under a
    key returns the plaintext that was encrypted under that key. Fernet's own
    randomness (the IV and the creation time in the token) is an explicit
    `FernetNonce` argument. Strings are hashed as their UTF-8 encoding, which
    the `sha256` member subsumes. */
module Crypto {
  import opened Common
  import Hex
  import Base64

  datatype FernetNonce = FernetNonce(iv: seq<byte>, timestamp: int)

  datatype Primitives = Primitives(
    sha256: seq<char> -> seq<byte>,
    encrypt: (seq<char>, FernetNonce, seq<char>) -> seq<byte>,
    decrypt: (seq<char>, seq<byte>) -> Option<seq<char>>)

  ghost predicate Valid(p: Primitives) {
    && (forall s :: |p.sha256(s)| == 32)
    && (forall key, nonce, m :: p.decrypt(key, p.encrypt(key, nonce, m)) == Some(m))
  }

  predicate IsLowerHex(s: seq<char>) {
    forall i :: 0 <= i < |s| ==> Hex.IsLowerHexDigit(s[i])
  }

  /** `generate_salt(n)`: `secrets.token_hex(n)` over the `n` bytes drawn from
      the operating system's random source. */
  function GenerateSalt(random: seq<byte>): (salt: seq<char>)
    ensures |salt| == 2 * |random|
    ensures IsLowerHex(salt)
    ensures Hex.Hex2Buf(salt) == random
  {
    Hex.Hex2BufBuf2Hex(random);
    Hex.Buf2Hex(random)
  }

  /** `generate_session_hash`: hexadecimal SHA-256 of `salt` followed by
      `entropy`. */
  function GenerateSessionHash(p: Primitives, salt: seq<char>, entropy: seq<char>): (h: seq<char>)
    requires Valid(p)
    ensures |h| == 64 && IsLowerHex(h)
    ensures Hex.Hex2Buf(h) == p.sha256(salt + entropy)
  {
    Hex.Hex2BufBuf2Hex(p.sha256(salt + entropy));
    Hex.Buf2Hex(p.sha256(salt + entropy))
  }

  /** Only the concatenation of salt and entropy is hashed, so where one ends
      and the other begins does not matter. */
  lemma SessionHashOfConcatenation(p: Primitives, s1: seq<char>, e1: seq<char>, s2: seq<char>, e2: seq<char>)
    requires Valid(p) && s1 + e1 == s2 + e2
    ensures GenerateSessionHash(p, s1, e1) == GenerateSessionHash(p, s2, e2)
  {
  }

  predicate IsFernetKey(k: seq<char>) {
    && |k| == 44
    && k[43] == '='
    && forall i :: 0 <= i < 43 ==> Base64.Index(Base64.UrlSafe, k[i]).Some?
  }

  /** `derive_key`: URL-safe Base64 of the SHA-256 of the session hash, the
      44-character key text that Fernet accepts; Fernet's own decoding of the
      key gives the digest back. */
  function DeriveKey(p: Primitives, sessionHash: seq<char>): (key: seq<char>)
    requires Valid(p)
    ensures IsFernetKey(key)
    ensures Base64.DecodeIn(Base64.UrlSafe, key) == Some(p.sha256(sessionHash))
  {
    Base64.DigestEncodingShape(Base64.UrlSafe, p.sha256(sessionHash));
    Base64.DecodeInEncode(Base64.UrlSafe, p.sha256(sessionHash));
    Base64.Encode(Base64.UrlSafe, p.sha256(sessionHash))
  }

  /** `secure_wipe`: every element of the buffer becomes zero; its length
      cannot change. */
  method SecureWipe(data: array<byte>)
    modifies data
    ensures forall i :: 0 <= i < data.Length ==> data[i] == 0
  {
    var i := 0;
    while i < data.Length
      invariant 0 <= i <= data.Length
      invariant forall j :: 0 <= j < i ==> data[j] == 0
    {
      data[i] := 0;
      i := i + 1;
    }
  }
}
