/** The web tools' encrypted-message text: `base64(iv) + ':' + base64(ct)`,
    produced by `sendSecureMessage` and `exportVault` and taken apart by
    `decryptReceivedMessage` and `importVaultFile`.

    AES-GCM under the current message key is a `Cipher` parameter; the only
    thing assumed of it is that decryption undoes encryption under the same
    IV (`ValidCipher`). */
module Payload {
  import opened Common
  import Base64

  datatype Cipher = Cipher(
    encrypt: (seq<byte>, seq<byte>) -> seq<byte>,
    decrypt: (seq<byte>, seq<byte>) -> Option<seq<byte>>)

  ghost predicate ValidCipher(c: Cipher) {
    forall iv, m :: c.decrypt(iv, c.encrypt(iv, m)) == Some(m)
  }

  /** Why a received payload yields no plaintext: the format check that
      raises "Invalid message format", an `atob` that throws, or the
      "Decryption failed!" alert. */
  datatype Error = MissingSeparator | BadBase64 | DecryptionFailed

  /** The payload text for an IV and a ciphertext. */
  function Join(iv: seq<byte>, ct: seq<byte>): (p: seq<char>)
    ensures ':' in p
    ensures Split(p, ':') == [Base64.Encode(Base64.Standard, iv), Base64.Encode(Base64.Standard, ct)]
  {
    var a := Base64.Encode(Base64.Standard, iv);
    var b := Base64.Encode(Base64.Standard, ct);
    SplitJoin(a, b, ':');
    assert (a + [':'] + b)[|a|] == ':';
    a + [':'] + b
  }

  /** `payload.includes(':')` guard, then `const [ivB64, ctB64] =
      payload.split(':')` (later pieces are ignored) and `b642buf` of each. */
  function Parse(p: seq<char>): (r: Result<(seq<byte>, seq<byte>), Error>)
    ensures ':' !in p ==> r == Failure(MissingSeparator)
    ensures r.Success? ==> ':' in p
  {
    if ':' !in p then Failure(MissingSeparator)
    else
      var parts := Split(p, ':');
      match (Base64.Decode(parts[0]), Base64.Decode(parts[1]))
      case (Some(iv), Some(ct)) => Success((iv, ct))
      case _ => Failure(BadBase64)
  }

  lemma ParseJoin(iv: seq<byte>, ct: seq<byte>)
    ensures Parse(Join(iv, ct)) == Success((iv, ct))
  {
    Base64.DecodeEncode(iv);
    Base64.DecodeEncode(ct);
  }

  /** Pieces after the second are ignored: `iv:ct:anything` parses as
      `iv:ct`. */
  lemma ParseIgnoresLaterPieces(iv: seq<byte>, ct: seq<byte>, rest: seq<char>)
    ensures Parse(Join(iv, ct) + [':'] + rest) == Success((iv, ct))
  {
    var a := Base64.Encode(Base64.Standard, iv);
    var b := Base64.Encode(Base64.Standard, ct);
    var p := Join(iv, ct) + [':'] + rest;
    assert ':' !in a && ':' !in b;
    assert p == a + [':'] + (b + [':'] + rest);
    SplitCons(a, b + [':'] + rest, ':');
    SplitCons(b, rest, ':');
    assert p[|a|] == ':';
    Base64.DecodeEncode(iv);
    Base64.DecodeEncode(ct);
  }

  /** `sendSecureMessage`: nothing is produced for an empty message. */
  function Send(c: Cipher, iv: seq<byte>, msg: seq<byte>): (r: Option<seq<char>>)
    ensures r.None? <==> |msg| == 0
    ensures r.Some? ==> Parse(r.value) == Success((iv, c.encrypt(iv, msg)))
  {
    if |msg| == 0 then None
    else
      ParseJoin(iv, c.encrypt(iv, msg));
      Some(Join(iv, c.encrypt(iv, msg)))
  }

  /** `decryptReceivedMessage`: the format is checked before the cipher is
      consulted. */
  function Receive(c: Cipher, p: seq<char>): (r: Result<seq<byte>, Error>)
    ensures ':' !in p ==> r == Failure(MissingSeparator)
  {
    match Parse(p)
    case Failure(e) => Failure(e)
    case Success((iv, ct)) =>
      match c.decrypt(iv, ct)
      case Some(m) => Success(m)
      case None => Failure(DecryptionFailed)
  }

  /** A message sent under a cipher is received intact under the same
      cipher. */
  lemma ReceiveSend(c: Cipher, iv: seq<byte>, msg: seq<byte>)
    requires ValidCipher(c)
    requires |msg| > 0
    ensures Send(c, iv, msg).Some?
    ensures Receive(c, Send(c, iv, msg).value) == Success(msg)
  {
    ParseJoin(iv, c.encrypt(iv, msg));
  }

  /** Without a separator the cipher is never consulted: any two ciphers give
      the same outcome. */
  lemma NoSeparatorNoDecryption(c1: Cipher, c2: Cipher, p: seq<char>)
    requires ':' !in p
    ensures Receive(c1, p) == Receive(c2, p) == Failure(MissingSeparator)
  {
  }
}
