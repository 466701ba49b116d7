/**
 The sealed body of a seed write: ephemeral point, then the padded and encrypted clear
 text. The primitives are parameters; only padding, lengths and layout are modelled.
 */
module Crypto {
  import opened Bytes

  datatype EncryptError = BadDevicePubkey

  /**
   The cryptographic primitives: key agreement (hash included) on the host and on the
   device, and block encryption under the constant initialisation vector.
   */
  datatype Primitives = Primitives(
    validPoint: seq<byte> -> bool,
    hostPoint: nat -> seq<byte>,
    agree: (nat, seq<byte>) -> seq<byte>,
    deviceAgree: seq<byte> -> seq<byte>,
    encrypt: (seq<byte>, seq<byte>) -> seq<byte>,
    decrypt: (seq<byte>, seq<byte>) -> seq<byte>)

  ghost predicate KeepsLength(p: Primitives) {
    forall k, m :: |m| % 16 == 0 ==> |p.encrypt(k, m)| == |m|
  }

  /** Uncompressed points without their leading byte. */
  ghost predicate ShortPoints(p: Primitives) {
    forall secret :: |p.hostPoint(secret)| == 64
  }

  /** Decryption undoes encryption, and both sides derive the same key. */
  ghost predicate Sound(p: Primitives, devicePub: seq<byte>) {
    && KeepsLength(p) && ShortPoints(p)
    && |devicePub| == 64 && p.validPoint(devicePub)
    && (forall k, m :: |m| % 16 == 0 ==> p.decrypt(k, p.encrypt(k, m)) == m)
    && (forall secret :: p.agree(secret, devicePub) == p.deviceAgree(p.hostPoint(secret)))
  }

  function PadRoom(n: nat): (room: nat)
    ensures 1 <= room <= 16 && (n + room) % 16 == 0
  {
    16 - n % 16
  }

  /** Section 6.3 of RFC 5652. */
  function Pad(m: seq<byte>): (s: seq<byte>)
    ensures |s| % 16 == 0 && |m| < |s| <= |m| + 16
  {
    m + seq(PadRoom(|m|), _ => PadRoom(|m|))
  }

  function Unpad(s: seq<byte>): Option<seq<byte>> {
    if s == [] then None
    else
      var n := s[|s| - 1];
      if 1 <= n <= 16 && n <= |s| && (forall i :: |s| - n <= i < |s| ==> s[i] == n)
      then Some(s[..|s| - n])
      else None
  }

  lemma PadRoomUnique(n: nat, room: nat)
    requires 1 <= room <= 16 && (n + room) % 16 == 0
    ensures room == PadRoom(n)
  {
  }

  /** On whole blocks, unpadding yields `m` exactly when the blocks are `m` padded. */
  lemma UnpadIffPadded(s: seq<byte>, m: seq<byte>)
    requires |s| % 16 == 0
    ensures Unpad(s) == Some(m) <==> s == Pad(m)
  {
    hide PadRoom;
    if Unpad(s) == Some(m) {
      var n := s[|s| - 1];
      PadRoomUnique(|m|, n);
      assert s == m + seq(n, _ => n);
    }
    if s == Pad(m) {
      assert s[|s| - 1] == PadRoom(|m|);
      assert s[..|m|] == m;
    }
  }

  function Seal(p: Primitives, secret: nat, devicePub: seq<byte>, clear: seq<byte>): Result<seq<byte>, EncryptError> {
    if |devicePub| != 64 || !p.validPoint(devicePub) then Err(BadDevicePubkey)
    else Ok(p.hostPoint(secret) + p.encrypt(p.agree(secret, devicePub), Pad(clear)))
  }

  /** Sealing is refused exactly for a key that is not a valid point of 64 bytes; a sealed body is point and ciphertext. */
  lemma SealIff(p: Primitives, secret: nat, devicePub: seq<byte>, clear: seq<byte>)
    ensures Seal(p, secret, devicePub, clear).Err? <==> |devicePub| != 64 || !p.validPoint(devicePub)
    ensures var r := Seal(p, secret, devicePub, clear);
            r.Ok? ==> p.hostPoint(secret) <= r.value &&
                      r.value[|p.hostPoint(secret)|..] == p.encrypt(p.agree(secret, devicePub), Pad(clear))
  {
    hide Pad;
  }

  /** The padding is 1 to 16 bytes up to a whole block, each telling their number. */
  lemma PadBytes(m: seq<byte>)
    ensures var n := 16 - |m| % 16;
            |Pad(m)| == |m| + n && m <= Pad(m) && forall i :: |m| <= i < |m| + n ==> Pad(m)[i] == n
  {
  }

  /** Pads and encrypts a work buffer in place, then lays out the blob. */
  method EncryptSeedPayload(p: Primitives, secret: nat, devicePub: seq<byte>, clear: seq<byte>)
    returns (r: Result<seq<byte>, EncryptError>)
    requires KeepsLength(p)
    ensures r == Seal(p, secret, devicePub, clear)
  {
    if |devicePub| != 64 {
      return Err(BadDevicePubkey);
    }
    if !p.validPoint(devicePub) {
      return Err(BadDevicePubkey);
    }
    var sessionKey := p.agree(secret, devicePub);
    var room := PadRoom(|clear|);
    var work := new byte[|clear| + room](_ => 0);
    forall i | 0 <= i < |clear| {
      work[i] := clear[i];
    }
    forall i | |clear| <= i < work.Length {
      work[i] := room;
    }
    assert work[..] == Pad(clear);
    var ciphertext := p.encrypt(sessionKey, work[..]);
    forall i | 0 <= i < work.Length {
      work[i] := ciphertext[i];
    }
    assert work[..] == ciphertext;
    var blob := p.hostPoint(secret);
    blob := blob + work[..];
    r := Ok(blob);
  }

  /** The device's opening of a sealed body. */
  function Open(p: Primitives, blob: seq<byte>): Option<seq<byte>> {
    if |blob| < 80 || |blob| % 16 != 0 then None
    else Unpad(p.decrypt(p.deviceAgree(blob[..64]), blob[64..]))
  }

  /** The device opens what the host sealed; a sealed body has between 80 and `|clear| + 80` bytes. */
  lemma OpenSealed(p: Primitives, secret: nat, devicePub: seq<byte>, clear: seq<byte>)
    requires Sound(p, devicePub)
    ensures Seal(p, secret, devicePub, clear).Ok?
    ensures var blob := Seal(p, secret, devicePub, clear).value;
            80 <= |blob| <= |clear| + 80 && |blob| % 16 == 0 && Open(p, blob) == Some(clear)
  {
    hide Pad, Unpad;
    var key := p.agree(secret, devicePub);
    var ciphertext := p.encrypt(key, Pad(clear));
    var blob := p.hostPoint(secret) + ciphertext;
    assert |ciphertext| == |Pad(clear)| >= 16;
    assert blob[..64] == p.hostPoint(secret) && blob[64..] == ciphertext;
    UnpadIffPadded(Pad(clear), clear);
  }
}
