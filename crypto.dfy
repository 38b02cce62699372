/** Key derivation and text encryption (`get_fernet_key`, `encrypt_text`,
    `decrypt_text` in app/commands.py).

    MD5 (RFC 1321) is not modelled: it is the parameter `md5`, any function
    from bytes to 16 bytes. Fernet is modelled symbolically: a token is the
    URL-safe base64 of the version byte 0x80, the 32 bytes of key material and
    the plaintext, and a token opens under exactly the material it was sealed
    with. Real Fernet signs with the first 16 bytes of the material only (the
    first 8 digest bytes, in hex) and encrypts with the other 16, so there two
    passphrases whose digests share their first 8 bytes pass the HMAC check,
    and the refusal then rests on AES padding. AES, the timestamp and the
    random IV are not modelled. */
module Crypto {
  import opened Wrappers
  import opened Bytes
  import opened Exceptions
  import Utf8
  import Base16
  import Base64Url

  type Digest = s: seq<byte> | |s| == 16 witness [0, 0, 0, 0, 0, 0, 0, 0, 0, 0, 0, 0, 0, 0, 0, 0]

  /** `text` parameter of `encrypt_text`: a `str` or `bytes`. */
  datatype Text = Str(s: string) | Raw(b: seq<byte>)

  const WrongKeyMessage: string := "Clave incorrecta."
  const NonAsciiMessage: string := "string argument should contain only ASCII characters"

  /** Fernet's version byte. */
  const Version: byte := 0x80

  /** `str.encode()` for a `str`, the bytes themselves for `bytes`. */
  function TextBytes(t: Text): seq<byte>
  {
    match t
    case Str(s) => Utf8.Encode(s)
    case Raw(b) => b
  }

  /** The ASCII bytes of the lowercase hex digest, `hexdigest().encode()`. */
  function HexText(d: Digest): (r: seq<byte>)
    ensures |r| == 32 && IsAsciiBytes(r)
  {
    var h := Base16.Encode(d);
    Base16.EncodeIsAscii(d);
    Utf8.EncodeAscii(h);
    Utf8.Encode(h)
  }

  /** `get_fernet_key`: URL-safe base64 of the hex MD5 digest of the UTF-8
      passphrase. Total: every string has a key. */
  function GetFernetKey(passphrase: string, md5: seq<byte> -> Digest): (k: seq<byte>)
    ensures |k| == 44 && k[43] == Base64Url.Pad
  {
    var hex := HexText(md5(Utf8.Encode(passphrase)));
    EndsWithPad(hex);
    Base64Url.Encode(hex)
  }

  /** A byte string whose length leaves two bytes over encodes to a text
      ending in one `=`. */
  lemma EndsWithPad(s: seq<byte>)
    requires |s| % 3 == 2
    ensures Base64Url.Encode(s)[|Base64Url.Encode(s)| - 1] == Base64Url.Pad
  {
    EndsWithPadGroups(s, |s| / 3);
  }

  /** `EndsWithPad` by induction on the number `k` of full groups. */
  lemma {:induction false} EndsWithPadGroups(s: seq<byte>, k: nat)
    requires |s| == 3 * k + 2
    ensures Base64Url.Encode(s)[|Base64Url.Encode(s)| - 1] == Base64Url.Pad
    decreases k
  {
    var r := Base64Url.Encode(s);
    if k > 0 {
      var head, rest := Base64Url.Group(s[..3]), Base64Url.Encode(s[3..]);
      EndsWithPadGroups(s[3..], k - 1);
      assert r == head + rest;
      assert r[|r| - 1] == rest[|rest| - 1];
    } else {
      assert r == Base64Url.Group(s);
    }
  }

  /** What `Fernet(key)` accepts: base64 text of exactly 32 bytes. */
  predicate ValidFernetKey(k: seq<byte>)
  {
    Base64Url.Decode(k).Some? && |Base64Url.Decode(k).value| == 32
  }

  /** The signing and encryption key material a Fernet key stands for. */
  function Material(k: seq<byte>): (m: seq<byte>)
    requires ValidFernetKey(k)
    ensures |m| == 32
  {
    Base64Url.Decode(k).value
  }

  /** The derived key is a valid Fernet key whose material is the hex digest
      text, so `Fernet(get_fernet_key(key))` never raises. */
  lemma {:induction false} KeyMaterial(passphrase: string, md5: seq<byte> -> Digest)
    ensures ValidFernetKey(GetFernetKey(passphrase, md5))
    ensures Material(GetFernetKey(passphrase, md5)) == HexText(md5(Utf8.Encode(passphrase)))
  {
    Base64Url.DecodeEncode(HexText(md5(Utf8.Encode(passphrase))));
  }

  /** Passphrases whose digests differ have different keys. */
  lemma DistinctKeys(p1: string, p2: string, md5: seq<byte> -> Digest)
    requires md5(Utf8.Encode(p1)) != md5(Utf8.Encode(p2))
    ensures ValidFernetKey(GetFernetKey(p1, md5)) && ValidFernetKey(GetFernetKey(p2, md5))
    ensures Material(GetFernetKey(p1, md5)) != Material(GetFernetKey(p2, md5))
    ensures GetFernetKey(p1, md5) != GetFernetKey(p2, md5)
  {
    var d1, d2 := md5(Utf8.Encode(p1)), md5(Utf8.Encode(p2));
    KeyMaterial(p1, md5);
    KeyMaterial(p2, md5);
    Base16.EncodeIsAscii(d1);
    Base16.EncodeIsAscii(d2);
    if HexText(d1) == HexText(d2) {
      var h1, h2 := Base16.Encode(d1), Base16.Encode(d2);
      Utf8.EncodeAscii(h1);
      Utf8.EncodeAscii(h2);
      assert forall i :: 0 <= i < |h1| ==> h1[i] as int == h2[i] as int;
      assert h1 == h2;
      Base16.EncodeInjective(d1, d2);
    }
  }

  /** `Fernet.encrypt`, symbolically. */
  function Seal(k: seq<byte>, plain: seq<byte>): (token: seq<byte>)
    requires ValidFernetKey(k)
    ensures IsAsciiBytes(token)
  {
    Base64Url.Encode([Version] + Material(k) + plain)
  }

  /** `Fernet.decrypt`, symbolically: `None` is `InvalidToken`. Only a token
      carrying all of this key's material opens, where real Fernet's HMAC
      covers the signing half of it. */
  function Open(k: seq<byte>, token: seq<byte>): (r: Option<seq<byte>>)
    requires ValidFernetKey(k)
    ensures r.Some? <==> (Base64Url.Decode(token).Some? && |Base64Url.Decode(token).value| >= 33
                          && Base64Url.Decode(token).value[..33] == [Version] + Material(k))
    ensures r.Some? ==> Base64Url.Decode(token) == Some([Version] + Material(k) + r.value)
  {
    match Base64Url.Decode(token)
    case None => None
    case Some(raw) =>
      if |raw| >= 33 && raw[0] == Version && raw[1..33] == Material(k) then
        assert raw == [Version] + Material(k) + raw[33..];
        Some(raw[33..])
      else None
  }

  /** `encrypt_text`. */
  function EncryptText(text: Text, passphrase: string, md5: seq<byte> -> Digest): (token: seq<byte>)
    ensures IsAsciiBytes(token)
  {
    var k := GetFernetKey(passphrase, md5);
    KeyMaterial(passphrase, md5);
    Seal(k, TextBytes(text))
  }

  /** `decrypt_text`: `InvalidToken` becomes `ValueError('Clave incorrecta.')`.
      A `str` token must be ASCII, or base64 decoding raises its own
      `ValueError` first. */
  function DecryptText(token: Text, passphrase: string, md5: seq<byte> -> Digest): (r: Result<seq<byte>, Error>)
    ensures r.Err? ==> r.error == ValueError(WrongKeyMessage) || (token.Str? && r.error == ValueError(NonAsciiMessage))
  {
    var k := GetFernetKey(passphrase, md5);
    KeyMaterial(passphrase, md5);
    if token.Str? && !Utf8.IsAscii(token.s) then Err(ValueError(NonAsciiMessage))
    else
      match Open(k, TextBytes(token))
      case Some(plain) => Ok(plain)
      case None => Err(ValueError(WrongKeyMessage))
  }

  /** A successful decryption means the token was sealed under this
      passphrase's key around exactly the returned bytes. */
  lemma Authenticated(token: Text, passphrase: string, md5: seq<byte> -> Digest)
    requires DecryptText(token, passphrase, md5).Ok?
    ensures ValidFernetKey(GetFernetKey(passphrase, md5))
    ensures Base64Url.Decode(TextBytes(token))
         == Some([Version] + HexText(md5(Utf8.Encode(passphrase))) + DecryptText(token, passphrase, md5).value)
  {
    KeyMaterial(passphrase, md5);
  }

  /** `decrypt_text(encrypt_text(t, key), key)` gives back the bytes of `t`. */
  lemma RoundTrip(text: Text, passphrase: string, md5: seq<byte> -> Digest)
    ensures DecryptText(Raw(EncryptText(text, passphrase, md5)), passphrase, md5) == Ok(TextBytes(text))
  {
    var k := GetFernetKey(passphrase, md5);
    KeyMaterial(passphrase, md5);
    var raw := [Version] + Material(k) + TextBytes(text);
    Base64Url.DecodeEncode(raw);
    assert raw[..33] == [Version] + Material(k);
    assert raw[33..] == TextBytes(text);
  }

  /** A token sealed under another passphrase (whose digest differs) is
      refused with 'Clave incorrecta.'. With real Fernet this is certain
      only when the digests differ in their first 8 bytes; otherwise the HMAC
      passes and the refusal is only likely. */
  lemma WrongKey(text: Text, p1: string, p2: string, md5: seq<byte> -> Digest)
    requires md5(Utf8.Encode(p1)) != md5(Utf8.Encode(p2))
    ensures DecryptText(Raw(EncryptText(text, p1, md5)), p2, md5) == Err(ValueError(WrongKeyMessage))
  {
    var k1, k2 := GetFernetKey(p1, md5), GetFernetKey(p2, md5);
    KeyMaterial(p1, md5);
    KeyMaterial(p2, md5);
    DistinctKeys(p1, p2, md5);
    var raw := [Version] + Material(k1) + TextBytes(text);
    Base64Url.DecodeEncode(raw);
    assert raw[1..33] == Material(k1);
    assert ([Version] + Material(k2))[1..] == Material(k2);
  }
}
