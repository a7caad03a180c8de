/** The Fernet token format that `cryptography.fernet.Fernet` produces and
    checks: the url-safe base64 encoding of
      version byte 0x80 ‖ issue time (big-endian unsigned 64-bit seconds) ‖ sealed body.
    AES-CBC and HMAC-SHA256 are not modelled: the sealed body is produced and
    opened by an abstract `Cipher`, and the model relies only on its laws. */
module Fernet {
  import opened Common
  import Base64Url

  const Version: byte := 0x80
  const HeaderLength: nat := 9
  const KeyLength: nat := 32
  const TwoTo64: nat := 0x1_0000_0000_0000_0000

  /** The 32 bytes a Fernet secret decodes to (signing key ‖ encryption key). */
  type Key = k: seq<byte> | |k| == KeyLength witness seq(KeyLength, _ => 0)

  // ---------------------------------------------------------------- big-endian integers

  function Pow256(width: nat): (p: nat)
    ensures p >= 1
  {
    if width == 0 then 1 else 256 * Pow256(width - 1)
  }

  /** The unsigned value of big-endian bytes (`struct.unpack('>Q', ...)` for eight). */
  function FromBigEndian(bs: seq<byte>): (n: nat)
    ensures n < Pow256(|bs|)
    decreases |bs|
  {
    if bs == [] then 0 else FromBigEndian(bs[..|bs| - 1]) * 256 + bs[|bs| - 1]
  }

  /** The `width` low-order bytes of `n`, most significant first
      (`struct.pack('>Q', n)` for width eight). */
  function ToBigEndian(n: nat, width: nat): (bs: seq<byte>)
    ensures |bs| == width
    decreases width
  {
    if width == 0 then [] else ToBigEndian(n / 256, width - 1) + [n % 256]
  }

  lemma {:induction false} FromToBigEndian(n: nat, width: nat)
    requires n < Pow256(width)
    ensures FromBigEndian(ToBigEndian(n, width)) == n
    decreases width
  {
    if width > 0 {
      var bs := ToBigEndian(n, width);
      assert bs[..width - 1] == ToBigEndian(n / 256, width - 1);
      FromToBigEndian(n / 256, width - 1);
    }
  }

  lemma {:induction false} ToFromBigEndian(bs: seq<byte>)
    ensures ToBigEndian(FromBigEndian(bs), |bs|) == bs
    decreases |bs|
  {
    if bs != [] {
      var init := bs[..|bs| - 1];
      var n := FromBigEndian(bs);
      assert n / 256 == FromBigEndian(init) && n % 256 == bs[|bs| - 1];
      ToFromBigEndian(init);
      assert bs == init + [bs[|bs| - 1]];
    }
  }

  // ---------------------------------------------------------------- the abstract cipher

  /** Authenticated encryption of a message under a key, and its checked inverse.
      In Fernet `seal` is AES-128-CBC with a random IV followed by an
      HMAC-SHA256 tag over the whole token; `open` verifies the tag and decrypts. */
  datatype Cipher = Cipher(seal: (Key, seq<byte>) -> seq<byte>, open: (Key, seq<byte>) -> Option<seq<byte>>)

  /** What the model needs of the cipher: opening what was sealed under the same
      key gives the message back; opening under another key fails; and whatever
      opens under a key is the sealing of what it opens to (no forgery). */
  ghost predicate Lawful(c: Cipher)
  {
    && (forall k: Key, m: seq<byte> :: c.open(k, c.seal(k, m)) == Some(m))
    && (forall k: Key, k': Key, m: seq<byte> :: k != k' ==> c.open(k', c.seal(k, m)) == None)
    && (forall k: Key, s: seq<byte> :: c.open(k, s).Some? ==> s == c.seal(k, c.open(k, s).value))
  }

  /** A cipher that meets the laws: it "seals" by prefixing the key. It only
      shows that the laws can be met; it offers no secrecy. */
  function ToySeal(k: Key, m: seq<byte>): seq<byte>
  {
    k + m
  }

  function ToyOpen(k: Key, s: seq<byte>): Option<seq<byte>>
  {
    if |s| >= KeyLength && s[..KeyLength] == k then Some(s[KeyLength..]) else None
  }

  lemma ToyCipherLawful()
    ensures Lawful(Cipher(ToySeal, ToyOpen))
  {
    var c := Cipher(ToySeal, ToyOpen);
    forall k: Key, m: seq<byte> ensures c.open(k, c.seal(k, m)) == Some(m) {
      assert (k + m)[..KeyLength] == k && (k + m)[KeyLength..] == m;
    }
    forall k: Key, k': Key, m: seq<byte> | k != k' ensures c.open(k', c.seal(k, m)) == None {
      assert (k + m)[..KeyLength] == k;
    }
    forall k: Key, s: seq<byte> | c.open(k, s).Some? ensures s == c.seal(k, c.open(k, s).value) {
      assert s == s[..KeyLength] + s[KeyLength..];
    }
  }

  // ---------------------------------------------------------------- keys and tokens

  /** `Fernet(secret)`: the secret must be the url-safe base64 encoding of 32
      bytes; malformed base64 raises TypeError (Python 2's base64), a wrong
      length ValueError. */
  function KeyFromSecret(secret: string): (r: Result<Key, Exception>)
    ensures r.Success? <==> Base64Url.Decode(secret).Some? && |Base64Url.Decode(secret).value| == KeyLength
    ensures r.Success? ==> r.value == Base64Url.Decode(secret).value
  {
    match Base64Url.Decode(secret)
    case None => Failure(TypeError)
    case Some(bs) => if |bs| == KeyLength then Success(bs) else Failure(ValueError)
  }

  /** The version byte and the packed issue time. */
  function Header(t: nat): (h: seq<byte>)
    requires t < TwoTo64
    ensures |h| == HeaderLength
  {
    [Version] + ToBigEndian(t, 8)
  }

  /** The bytes of the token minted under `k` at time `t` for `plaintext`; the
      seal covers the header, so the issue time cannot be altered unnoticed. */
  function Minted(c: Cipher, k: Key, plaintext: seq<byte>, t: nat): seq<byte>
    requires t < TwoTo64
  {
    Header(t) + c.seal(k, Header(t) + plaintext)
  }

  /** `Fernet(k).encrypt(plaintext)` at clock reading `now` (whole seconds);
      `struct.pack` raises for a time outside the unsigned 64-bit range. */
  function Encrypt(c: Cipher, k: Key, plaintext: seq<byte>, now: int): (r: Result<string, Exception>)
    ensures r.Success? <==> 0 <= now < TwoTo64
    ensures r.Failure? ==> r.error == StructError
  {
    if 0 <= now < TwoTo64 then Success(Base64Url.Encode(Minted(c, k, plaintext, now)))
    else Failure(StructError)
  }

  /** The issue time recorded in decoded token bytes. */
  function IssuedAt(data: seq<byte>): nat
    requires |data| >= HeaderLength
  {
    FromBigEndian(data[1..HeaderLength])
  }

  /** `Fernet(k).decrypt(token, ttl)` at clock reading `now`: InvalidToken for
      bad base64, a wrong version byte, a short token, a token older than `ttl`
      seconds, or a failed authenticity check. */
  function Decrypt(c: Cipher, k: Key, token: string, ttl: int, now: int): (r: Result<seq<byte>, Exception>)
    ensures r.Failure? ==> r.error == InvalidToken
  {
    match Base64Url.Decode(token)
    case None => Failure(InvalidToken)
    case Some(data) =>
      if |data| < HeaderLength || data[0] != Version then Failure(InvalidToken)
      else if IssuedAt(data) + ttl < now then Failure(InvalidToken)
      else
        match c.open(k, data[HeaderLength..])
        case None => Failure(InvalidToken)
        case Some(m) =>
          if |m| >= HeaderLength && m[..HeaderLength] == data[..HeaderLength] then Success(m[HeaderLength..])
          else Failure(InvalidToken)
  }

  /** The decoded bytes of a minted token carry its issue time. */
  lemma MintedIssuedAt(c: Cipher, k: Key, plaintext: seq<byte>, t: nat)
    requires t < TwoTo64
    ensures |Minted(c, k, plaintext, t)| >= HeaderLength
    ensures Minted(c, k, plaintext, t)[0] == Version
    ensures IssuedAt(Minted(c, k, plaintext, t)) == t
  {
    var data := Minted(c, k, plaintext, t);
    assert data[1..HeaderLength] == ToBigEndian(t, 8);
    assert Pow256(8) == TwoTo64;
    FromToBigEndian(t, 8);
  }

  /** A token decrypts, under the key it was minted with and within its time to
      live, to the plaintext it was minted for. */
  lemma DecryptEncrypt(c: Cipher, k: Key, plaintext: seq<byte>, t: nat, ttl: int, now: int)
    requires Lawful(c)
    requires t < TwoTo64 && now <= t + ttl
    ensures Encrypt(c, k, plaintext, t).Success?
    ensures Decrypt(c, k, Encrypt(c, k, plaintext, t).value, ttl, now) == Success(plaintext)
  {
    var data := Minted(c, k, plaintext, t);
    Base64Url.DecodeEncode(data);
    MintedIssuedAt(c, k, plaintext, t);
    assert data[HeaderLength..] == c.seal(k, Header(t) + plaintext);
    assert data[..HeaderLength] == Header(t);
    var m := Header(t) + plaintext;
    assert m[..HeaderLength] == Header(t) && m[HeaderLength..] == plaintext;
  }

  /** Past its time to live a token is refused, whatever the key. */
  lemma DecryptExpired(c: Cipher, k: Key, k': Key, plaintext: seq<byte>, t: nat, ttl: int, now: int)
    requires t < TwoTo64 && now > t + ttl
    ensures Encrypt(c, k, plaintext, t).Success?
    ensures Decrypt(c, k', Encrypt(c, k, plaintext, t).value, ttl, now) == Failure(InvalidToken)
  {
    Base64Url.DecodeEncode(Minted(c, k, plaintext, t));
    MintedIssuedAt(c, k, plaintext, t);
  }

  /** A token minted under one key is refused under any other. */
  lemma DecryptWrongKey(c: Cipher, k: Key, k': Key, plaintext: seq<byte>, t: nat, ttl: int, now: int)
    requires Lawful(c)
    requires t < TwoTo64 && k != k'
    ensures Encrypt(c, k, plaintext, t).Success?
    ensures Decrypt(c, k', Encrypt(c, k, plaintext, t).value, ttl, now) == Failure(InvalidToken)
  {
    var data := Minted(c, k, plaintext, t);
    Base64Url.DecodeEncode(data);
    MintedIssuedAt(c, k, plaintext, t);
    assert data[HeaderLength..] == c.seal(k, Header(t) + plaintext);
  }

  /** Only minted tokens decrypt: a token accepted under `k` is the encoding of
      bytes minted under `k` for exactly the returned plaintext, at an issue
      time no more than `ttl` seconds before `now`. */
  lemma DecryptAuthentic(c: Cipher, k: Key, token: string, ttl: int, now: int, plaintext: seq<byte>)
    requires Lawful(c)
    requires Decrypt(c, k, token, ttl, now) == Success(plaintext)
    ensures exists t: nat :: t < TwoTo64 && now <= t + ttl && Base64Url.Decode(token) == Some(Minted(c, k, plaintext, t))
  {
    var data := Base64Url.Decode(token).value;
    var t := IssuedAt(data);
    var m := c.open(k, data[HeaderLength..]).value;
    assert data[HeaderLength..] == c.seal(k, m);
    assert Pow256(8) == TwoTo64;
    ToFromBigEndian(data[1..HeaderLength]);
    assert data[..HeaderLength] == [data[0]] + data[1..HeaderLength];
    assert data[..HeaderLength] == Header(t);
    assert m == Header(t) + plaintext;
    assert data == data[..HeaderLength] + data[HeaderLength..];
    assert Base64Url.Decode(token) == Some(Minted(c, k, plaintext, t));
  }
}
