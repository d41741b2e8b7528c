/** The payload envelope of the task outbox (utils/encryption.js): AES-256-CBC
    with a fresh IV per call, framed as hex(iv) ':' hex(ciphertext), with a
    pass-through for null and empty text; and the unsalted SHA-256 hash of a
    client IP. The cipher and the digest themselves are foreign code: they are
    function-valued parameters, and the only thing assumed of them is the
    cipher's round trip, stated as the predicate CipherRoundTrips. */
module Encryption {
  import opened Js

  /** IV_LENGTH: the bytes of IV drawn per encrypt call. */
  const IvLength: nat := 16
  /** The key size AES-256 accepts; createCipheriv throws on any other. */
  const KeyLength: nat := 32

  /** The foreign primitives. cipher(key, iv, plaintext) is what
      update(...) followed by final() yields; decipher(key, iv, ciphertext)
      likewise, None when final() rejects the padding. */
  datatype Crypto = Crypto(
    cipher: (seq<Byte>, seq<Byte>, seq<Byte>) -> seq<Byte>,
    decipher: (seq<Byte>, seq<Byte>, seq<Byte>) -> Option<seq<Byte>>,
    sha256: seq<Byte> -> seq<Byte>)

  /** The one property assumed of AES-256-CBC: with a key and IV of the right
      size, deciphering what was enciphered gives the plaintext back. */
  ghost predicate CipherRoundTrips(c: Crypto) {
    forall key: seq<Byte>, iv: seq<Byte>, p: seq<Byte>
      | |key| == KeyLength && |iv| == IvLength ::
      c.decipher(key, iv, c.cipher(key, iv, p)) == Some(p)
  }

  /** What createCipheriv / createDecipheriv / final() throw. */
  datatype CryptoError = InvalidKeyLength | InvalidIv | BadDecrypt

  // ---- hex, as Buffer.toString('hex') and Buffer.from(s, 'hex') do it ----

  /** The lower-case hex digit of d. */
  function HexDigit(d: nat): (c: char)
    requires d < 16
  {
    if d < 10 then ('0' as int + d) as char else ('a' as int + d - 10) as char
  }

  predicate IsLowerHex(c: char) {
    '0' <= c <= '9' || 'a' <= c <= 'f'
  }

  function HexValue(c: char): (v: Option<nat>)
    ensures v.Some? ==> v.value < 16
  {
    if '0' <= c <= '9' then Some(c as int - '0' as int)
    else if 'a' <= c <= 'f' then Some(c as int - 'a' as int + 10)
    else if 'A' <= c <= 'F' then Some(c as int - 'A' as int + 10)
    else None
  }

  /** Buffer.toString('hex'): two lower-case hex digits per byte. */
  function Hex(b: seq<Byte>): (s: string)
    ensures |s| == 2 * |b|
  {
    if b == [] then ""
    else [HexDigit(b[0] / 16), HexDigit(b[0] % 16)] + Hex(b[1..])
  }

  /** Buffer.from(s, 'hex'): reads pairs of hex digits and stops at the first
      pair that is not one, dropping an odd trailing character. */
  function HexDecode(s: string): (b: seq<Byte>)
    ensures 2 * |b| <= |s|
  {
    if |s| < 2 then []
    else match (HexValue(s[0]), HexValue(s[1]))
      case (Some(hi), Some(lo)) => [hi * 16 + lo] + HexDecode(s[2..])
      case _ => []
  }

  lemma {:induction false} HexRoundTrip(b: seq<Byte>)
    ensures HexDecode(Hex(b)) == b
  {
    if b != [] {
      var s := Hex(b);
      assert s[2..] == Hex(b[1..]);
      HexDigitValue(b[0] / 16);
      HexDigitValue(b[0] % 16);
      HexRoundTrip(b[1..]);
    }
  }

  lemma HexDigitValue(d: nat)
    requires d < 16
    ensures HexValue(HexDigit(d)) == Some(d)
  {
  }

  /** Every character of the hex rendering is a lower-case hex digit. */
  lemma {:induction false} HexLowerDigits(b: seq<Byte>)
    ensures forall i | 0 <= i < |Hex(b)| :: IsLowerHex(Hex(b)[i])
  {
    if b != [] {
      HexLowerDigits(b[1..]);
      var s := Hex(b);
      forall i | 0 <= i < |s| ensures IsLowerHex(s[i]) {
        if i >= 2 {
          assert s[i] == Hex(b[1..])[i - 2];
        }
      }
    }
  }

  lemma HexHasNoColon(b: seq<Byte>)
    ensures ':' !in Hex(b)
  {
    HexLowerDigits(b);
    var s := Hex(b);
    forall i | 0 <= i < |s| ensures s[i] != ':' {
      assert IsLowerHex(s[i]);
    }
  }

  // ---- the key ----

  /** The fallback key literal, used when DB_SECRET is unset or empty. */
  const FallbackSecret: string := "a_very_long_fallback_secret_key_32_chars"

  /** ENCRYPTION_KEY as written: DB_SECRET when truthy, else the fallback. */
  function EncryptionKeyAsWritten(dbSecret: Option<string>): (key: string)
    ensures Truthy(dbSecret) ==> key == dbSecret.value
    ensures !Truthy(dbSecret) ==> |Utf8(key)| == 40
  {
    if Truthy(dbSecret) then dbSecret.value
    else
      assert forall i | 0 <= i < 40 :: FallbackSecret[i] as int < 0x80;
      FallbackSecret
  }

  /** The fallback key the literal's name promises: its first 32 characters. */
  const CorrectedFallbackSecret: string := "a_very_long_fallback_secret_key_"

  /** ENCRYPTION_KEY with a fallback of the length AES-256 accepts. */
  function EncryptionKey(dbSecret: Option<string>): (key: string)
    ensures Truthy(dbSecret) ==> key == dbSecret.value
    ensures !Truthy(dbSecret) ==> |Utf8(key)| == KeyLength
  {
    if Truthy(dbSecret) then dbSecret.value
    else
      assert forall i | 0 <= i < 32 :: CorrectedFallbackSecret[i] as int < 0x80;
      CorrectedFallbackSecret
  }

  // ---- encrypt / decrypt / hashIp ----

  /** encrypt(text): falsy text is returned as is; otherwise the UTF-8 bytes
      of text are enciphered under the UTF-8 bytes of secret and the given
      IV, and framed as hex(iv) ':' hex(ciphertext). */
  function Encrypt(c: Crypto, secret: string, iv: seq<Byte>, text: Option<string>)
    : (r: Result<Option<string>, CryptoError>)
    requires |iv| == IvLength
    ensures !Truthy(text) ==> r == Ok(text)
    ensures Truthy(text) ==> (r.Ok? <==> |Utf8(secret)| == KeyLength)
    ensures r.Err? ==> r.error == InvalidKeyLength
  {
    if !Truthy(text) then Ok(text)
    else
      var key := Utf8(secret);
      if |key| != KeyLength then Err(InvalidKeyLength)
      else
        var ct := c.cipher(key, iv, Utf8(text.value));
        Ok(Some(Hex(iv) + ":" + Hex(ct)))
  }

  /** A stored envelope is a non-empty string whose first ':' comes right
      after the IV's hex digits; the hex before it is the IV and the hex after
      it the ciphertext of the text's UTF-8 under the secret's UTF-8. */
  lemma EncryptFramesIv(c: Crypto, secret: string, iv: seq<Byte>, text: Option<string>)
    requires |iv| == IvLength
    requires Truthy(text) && Encrypt(c, secret, iv, text).Ok?
    ensures var e := Encrypt(c, secret, iv, text).value;
            && Truthy(e) && FirstIndex(e.value, ':') == 2 * IvLength
            && EnvelopeIv(e.value) == iv
            && EnvelopeCiphertext(e.value) == c.cipher(Utf8(secret), iv, Utf8(text.value))
  {
    EnvelopeColon(iv, c.cipher(Utf8(secret), iv, Utf8(text.value)));
    EnvelopeRoundTrip(iv, c.cipher(Utf8(secret), iv, Utf8(text.value)));
  }

  /** The first ':' of hex(iv) ':' hex(ct) is right after the IV's digits. */
  lemma EnvelopeColon(iv: seq<Byte>, ct: seq<Byte>)
    ensures FirstIndex(Hex(iv) + ":" + Hex(ct), ':') == 2 * |iv|
  {
    var e := Hex(iv) + ":" + Hex(ct);
    HexHasNoColon(iv);
    assert e[2 * |iv|] == ':';
    forall k | 0 <= k < 2 * |iv| ensures e[k] != ':' {
      assert e[k] == Hex(iv)[k];
    }
    FirstIndexIs(e, ':', 2 * |iv|);
  }

  lemma FirstIndexIs(s: string, c: char, i: nat)
    requires i < |s| && s[i] == c
    requires forall k | 0 <= k < i :: s[k] != c
    ensures FirstIndex(s, c) == i
  {
  }

  /** decrypt(text): falsy text is returned as is; otherwise the text before
      the first ':' is read as the hex IV and the rest, rejoined with ':', as
      the hex ciphertext; the deciphered bytes are decoded as UTF-8. */
  function Decrypt(c: Crypto, secret: string, text: Option<string>)
    : (r: Result<Option<string>, CryptoError>)
    ensures !Truthy(text) ==> r == Ok(text)
    ensures Truthy(text) && r.Ok? ==> r.value.Some? && |Utf8(secret)| == KeyLength
  {
    if !Truthy(text) then Ok(text)
    else
      var parts := Split(text.value, ':');
      var iv := HexDecode(parts[0]);
      var ct := HexDecode(Join(parts[1..], ':'));
      var key := Utf8(secret);
      if |iv| != IvLength then Err(InvalidIv)
      else if |key| != KeyLength then Err(InvalidKeyLength)
      else match c.decipher(key, iv, ct)
        case None => Err(BadDecrypt)
        case Some(p) => Ok(Some(Utf8Decode(p)))
  }

  /** The IV and ciphertext decrypt reads from any text: the hex before the
      first ':' and the hex after it (nothing when there is no ':'). */
  function EnvelopeIv(text: string): seq<Byte> {
    HexDecode(text[..FirstIndex(text, ':')])
  }

  function EnvelopeCiphertext(text: string): seq<Byte> {
    var i := FirstIndex(text, ':');
    HexDecode(if i < |text| then text[i + 1..] else "")
  }

  /** Splitting at every ':' and rejoining all but the first piece is the same
      as cutting at the first ':' only, so decrypt deciphers the ciphertext
      under the IV the envelope holds, whatever other ':' the text contains. */
  lemma DecryptReadsEnvelope(c: Crypto, secret: string, text: string)
    requires text != ""
    ensures var iv, ct, key := EnvelopeIv(text), EnvelopeCiphertext(text), Utf8(secret);
            Decrypt(c, secret, Some(text)) ==
              if |iv| != IvLength then Err(InvalidIv)
              else if |key| != KeyLength then Err(InvalidKeyLength)
              else match c.decipher(key, iv, ct)
                case None => Err(BadDecrypt)
                case Some(p) => Ok(Some(Utf8Decode(p)))
  {
    SplitHeadRest(text, ':');
  }

  /** On encrypt's own output the envelope gives back exactly the IV and the
      ciphertext that were framed. */
  lemma EnvelopeRoundTrip(iv: seq<Byte>, ct: seq<Byte>)
    ensures EnvelopeIv(Hex(iv) + ":" + Hex(ct)) == iv
    ensures EnvelopeCiphertext(Hex(iv) + ":" + Hex(ct)) == ct
  {
    var e := Hex(iv) + ":" + Hex(ct);
    EnvelopeColon(iv, ct);
    EnvelopeHalves(Hex(iv), Hex(ct));
    HexRoundTrip(iv);
    HexRoundTrip(ct);
  }

  lemma EnvelopeHalves(a: string, b: string)
    ensures (a + ":" + b)[..|a|] == a
    ensures (a + ":" + b)[|a| + 1..] == b
  {
    var e := a + ":" + b;
    assert e == a + (":" + b);
    assert e[|a| + 1..] == (":" + b)[1..];
  }

  /** decrypt(encrypt(x)) == x: for falsy x by the pass-through, for any other
      x whenever the key has the length AES-256 requires (otherwise encrypt
      throws) and the cipher round-trips. */
  lemma DecryptEncrypt(c: Crypto, secret: string, iv: seq<Byte>, x: Option<string>)
    requires CipherRoundTrips(c)
    requires |iv| == IvLength
    requires Truthy(x) ==> |Utf8(secret)| == KeyLength
    ensures Encrypt(c, secret, iv, x).Ok?
    ensures Decrypt(c, secret, Encrypt(c, secret, iv, x).value) == Ok(x)
  {
    if Truthy(x) {
      var key := Utf8(secret);
      var ct := c.cipher(key, iv, Utf8(x.value));
      var e := Hex(iv) + ":" + Hex(ct);
      assert Encrypt(c, secret, iv, x) == Ok(Some(e));
      DecryptReadsEnvelope(c, secret, e);
      EnvelopeRoundTrip(iv, ct);
      assert c.decipher(key, iv, ct) == Some(Utf8(x.value));
      Utf8RoundTrip(x.value);
    }
  }

  /** hashIp(ip): the lower-case hex of the SHA-256 digest of ip's UTF-8
      bytes. It is a function of ip alone (no salt), so equal IPs always give
      equal hashes. */
  function HashIp(c: Crypto, ip: string): string
  {
    Hex(c.sha256(Utf8(ip)))
  }

  /** The IP hash has two lower-case hex digits per digest byte. */
  lemma HashIpShape(c: Crypto, ip: string)
    ensures |HashIp(c, ip)| == 2 * |c.sha256(Utf8(ip))|
    ensures forall i | 0 <= i < |HashIp(c, ip)| :: IsLowerHex(HashIp(c, ip)[i])
  {
    HexLowerDigits(c.sha256(Utf8(ip)));
  }

  /** Two encrypt calls under different IVs frame different envelopes, so the
      stored ciphertext of a nickname is never the same twice. */
  lemma EncryptIvVisible(c: Crypto, secret: string, iv1: seq<Byte>, iv2: seq<Byte>, x: Option<string>)
    requires |iv1| == IvLength && |iv2| == IvLength && iv1 != iv2
    requires Truthy(x) && |Utf8(secret)| == KeyLength
    ensures Encrypt(c, secret, iv1, x) != Encrypt(c, secret, iv2, x)
  {
    var key := Utf8(secret);
    EnvelopeRoundTrip(iv1, c.cipher(key, iv1, Utf8(x.value)));
    EnvelopeRoundTrip(iv2, c.cipher(key, iv2, Utf8(x.value)));
  }

  // ---- the fallback key ----

  /** As written, an unset DB_SECRET makes every encrypt of a non-empty text
      throw: the 40-byte fallback is not an AES-256 key. */
  lemma FallbackKeyRejected(c: Crypto, iv: seq<Byte>, x: Option<string>)
    requires |iv| == IvLength && Truthy(x)
    ensures Encrypt(c, EncryptionKeyAsWritten(None), iv, x) == Err(InvalidKeyLength)
  {
  }

  /** With the 32-byte fallback, an unset DB_SECRET still gives a working
      envelope: every non-empty text round-trips. */
  lemma CorrectedFallbackRoundTrips(c: Crypto, iv: seq<Byte>, x: Option<string>)
    requires CipherRoundTrips(c) && |iv| == IvLength
    ensures Encrypt(c, EncryptionKey(None), iv, x).Ok?
    ensures Decrypt(c, EncryptionKey(None), Encrypt(c, EncryptionKey(None), iv, x).value) == Ok(x)
  {
    DecryptEncrypt(c, EncryptionKey(None), iv, x);
  }
}
