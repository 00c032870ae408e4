/** Concealing a subscriber identity and revealing it again (suci_concealment.go and
    suci_deconcealing.go). Annex C of TS 33.501. */
module Suci {
  import opened Types
  import opened Text
  import opened HexText
  import opened Bits

  // ---------- the cryptographic primitives ----------

  type Scalar = nat

  function Zeros(n: nat): (s: seq<u8>)
    ensures |s| == n
  {
    if n == 0 then [] else [0] + Zeros(n - 1)
  }

  type Digest = s: seq<u8> | |s| == 32 witness Zeros(32)

  /** Key agreement on both curves, the two encodings of a P-256 point, the hash, the
      authentication code and the keystream of AES in counter mode, byte by byte. */
  datatype Crypto = Crypto(
    x25519Public: Scalar -> Digest,
    x25519: (Scalar, seq<u8>) -> Option<seq<u8>>,
    p256Public: Scalar -> seq<u8>,
    p256: (Scalar, seq<u8>) -> Option<seq<u8>>,
    compress: seq<u8> -> Option<seq<u8>>,
    uncompress: seq<u8> -> Option<seq<u8>>,
    sha256: seq<u8> -> Digest,
    hmac: (seq<u8>, seq<u8>) -> Digest,
    keystream: (seq<u8>, seq<u8>, nat) -> u8)
  {
    /** The equations the schemes rely on: both sides of a key agreement find the same secret,
        and the two point encodings undo each other. */
    ghost predicate Lawful() {
      && (forall a, b :: x25519(a, x25519Public(b)) == x25519(b, x25519Public(a)))
      && (forall a, b :: p256(a, p256Public(b)) == p256(b, p256Public(a)))
      && (forall u, p :: compress(u) == Some(p) <==> uncompress(p) == Some(u))
      && (forall u, p :: compress(u) == Some(p) ==> |u| == 65 && u[0] == 4 && |p| == 33 && p[0] in [2, 3])
    }
  }

  /** The equations can be met. */
  lemma LawfulExists() returns (c: Crypto)
    ensures c.Lawful()
  {
    var point: seq<u8>, packed: seq<u8> := [4] + Zeros(64), [2] + Zeros(32);
    c := Crypto(k => Zeros(32), (a, q) => Some([]), k => point, (a, q) => Some([]),
                q => if q == point then Some(packed) else None,
                q => if q == packed then Some(point) else None,
                m => Zeros(32), (k, m) => Zeros(32), (k, i, n) => 0);
  }

  // ---------- key derivation and the cipher ----------

  function Be32(x: u32): (r: seq<u8>) { [x / 0x100_0000, x / 0x1_0000 % 256, x / 256 % 256, x % 256] }

  const MAX_ROUNDS: nat := 0xFFFF_FFFF

  /** The first n blocks of the key material. */
  function KdfBlocks(c: Crypto, shared: seq<u8>, pub: seq<u8>, n: nat): (r: seq<u8>)
    requires n <= MAX_ROUNDS
  {
    if n == 0 then [] else KdfBlocks(c, shared, pub, n - 1) + c.sha256(shared + Be32(n) + pub)
  }

  function Rounds(encKeyLen: nat, macKeyLen: nat, hashLen: nat): (r: nat)
    requires hashLen > 0
  {
    (encKeyLen + macKeyLen + hashLen - 1) / hashLen
  }

  /** The fewest hashes that are long enough together. */
  lemma RoundsSuffice(encKeyLen: nat, macKeyLen: nat, hashLen: nat)
    requires hashLen > 0
    ensures var n := Rounds(encKeyLen, macKeyLen, hashLen);
            n * hashLen >= encKeyLen + macKeyLen && (n > 0 ==> (n - 1) * hashLen < encKeyLen + macKeyLen)
  {
    var x := encKeyLen + macKeyLen + hashLen - 1;
    assert x == x / hashLen * hashLen + x % hashLen;
  }

  /** AnsiX963KDF: counts from one and appends. */
  method AnsiX963KDF(c: Crypto, shared: seq<u8>, pub: seq<u8>, encKeyLen: nat, macKeyLen: nat, hashLen: nat)
      returns (key: seq<u8>)
    requires hashLen > 0 && Rounds(encKeyLen, macKeyLen, hashLen) < MAX_ROUNDS
    ensures key == KdfBlocks(c, shared, pub, Rounds(encKeyLen, macKeyLen, hashLen))
  {
    var counter: u32 := 1;
    key := [];
    var rounds := Rounds(encKeyLen, macKeyLen, hashLen);
    var i := 0;
    while i < rounds
      invariant 0 <= i <= rounds && counter == i + 1
      invariant key == KdfBlocks(c, shared, pub, i)
    {
      key := key + c.sha256(shared + Be32(counter) + pub);
      counter := counter + 1;
      i := i + 1;
    }
  }

  const ENC_KEY_LEN: nat := 16
  const ICB_LEN: nat := 16
  const MAC_KEY_LEN: nat := 32
  const HASH_LEN: nat := 32
  const MAC_LEN: nat := 8

  datatype Keys = Keys(encKey: seq<u8>, icb: seq<u8>, macKey: seq<u8>)

  /** Both profiles cut the same two blocks into three keys, with nothing left over. */
  function DerivedKeys(c: Crypto, shared: seq<u8>, pub: seq<u8>): (k: Keys)
    ensures Rounds(ENC_KEY_LEN, MAC_KEY_LEN, HASH_LEN) == 2
    ensures k.encKey + k.icb + k.macKey == KdfBlocks(c, shared, pub, 2)
    ensures |k.encKey| == ENC_KEY_LEN && |k.icb| == ICB_LEN && |k.macKey| == MAC_KEY_LEN
  {
    var key := KdfBlocks(c, shared, pub, 2);
    KdfLength(c, shared, pub);
    Keys(key[..ENC_KEY_LEN], key[ENC_KEY_LEN..ENC_KEY_LEN + ICB_LEN], key[|key| - MAC_KEY_LEN..])
  }

  lemma KdfLength(c: Crypto, shared: seq<u8>, pub: seq<u8>)
    ensures |KdfBlocks(c, shared, pub, 2)| == 64
  {
    assert |KdfBlocks(c, shared, pub, 1)| == 32;
  }

  function XorByte(a: u8, b: u8): (r: u8) {
    assert Power2(4) == 16;
    assert Power2(8) == 256;
    XorTwice(a, b, 8);
    XorBits(a, b, 8)
  }

  lemma XorByteTwice(a: u8, b: u8)
    ensures XorByte(XorByte(a, b), b) == a
  {
    assert Power2(4) == 16;
    assert Power2(8) == 256;
    XorTwice(a, b, 8);
  }

  /** Aes128ctr: the text under the keystream that starts at byte at. */
  function Ctr(c: Crypto, k: Keys, text: seq<u8>, at: nat := 0): (r: seq<u8>)
    ensures |r| == |text|
    decreases |text|
  {
    if text == [] then []
    else [XorByte(text[0], c.keystream(k.encKey, k.icb, at))] + Ctr(c, k, text[1..], at + 1)
  }

  lemma {:induction false} CtrTwice(c: Crypto, k: Keys, text: seq<u8>, at: nat)
    ensures Ctr(c, k, Ctr(c, k, text, at), at) == text
    decreases |text|
  {
    if text == [] {
    } else {
      hide XorByte;
      XorByteTwice(text[0], c.keystream(k.encKey, k.icb, at));
      CtrTwice(c, k, text[1..], at + 1);
      assert Ctr(c, k, text, at)[1..] == Ctr(c, k, text[1..], at + 1);
    }
  }

  /** HmacSha256, cut to the length of the tag. */
  function Tag(c: Crypto, k: Keys, cipherText: seq<u8>): (r: seq<u8>)
    ensures |r| == MAC_LEN
  {
    c.hmac(k.macKey, cipherText)[..MAC_LEN]
  }

  // ---------- the two profiles ----------

  /** What both profiles send: the key, the ciphered number and its tag. */
  function Sealed(c: Crypto, shared: seq<u8>, pub: seq<u8>, plain: seq<u8>): (r: seq<u8>) {
    var k := DerivedKeys(c, shared, pub);
    pub + (Ctr(c, k, plain) + Tag(c, k, Ctr(c, k, plain)))
  }

  function DecryptWithKdf(c: Crypto, shared: seq<u8>, pub: seq<u8>, cipherText: seq<u8>, mac: seq<u8>)
    : (r: Result<seq<u8>>)
  {
    var k := DerivedKeys(c, shared, pub);
    if Tag(c, k, cipherText) == mac then Ok(Ctr(c, k, cipherText)) else Err
  }

  function Packed(msin: string): (r: Result<seq<u8>>) {
    var t := TbcdOf(msin);
    if t == Panic then Panic else
      var plain := HexDecode(t.value);
      if plain.None? then Err else Ok(plain.value)
  }

  function Unpacked(plain: Result<seq<u8>>): (r: Result<string>) {
    if plain.Ok? then TbcdOf(HexEncode(plain.value)) else Err
  }

  /** Without a home network key, ECDH reads through a nil pointer. */
  function ProfileAEncrypt(c: Crypto, msin: string, homePub: Option<seq<u8>>, ephemeral: Scalar): (r: Result<string>) {
    if homePub.None? then Panic
    else
      var shared := c.x25519(ephemeral, homePub.value);
      if shared.None? then Err else
        match Packed(msin)
        case Ok(plain) => Ok(HexEncode(Sealed(c, shared.value, c.x25519Public(ephemeral), plain)))
        case Err => Err
        case Panic => Panic
  }

  function ProfileBEncrypt(c: Crypto, msin: string, homePub: Option<seq<u8>>, ephemeral: Scalar): (r: Result<string>) {
    if homePub.None? then Panic
    else
      var shared, pub := c.p256(ephemeral, homePub.value), c.compress(c.p256Public(ephemeral));
      if shared.None? || pub.None? then Err else
        match Packed(msin)
        case Ok(plain) => Ok(HexEncode(Sealed(c, shared.value, pub.value, plain)))
        case Err => Err
        case Panic => Panic
  }

  /** The three parts of a scheme output. */
  function Opened(c: Crypto, shared: seq<u8>, kdfPub: seq<u8>, s: seq<u8>, keyLen: nat): (r: Result<seq<u8>>)
    requires |s| >= keyLen + MAC_LEN
  {
    DecryptWithKdf(c, shared, kdfPub, s[keyLen..|s| - MAC_LEN], s[|s| - MAC_LEN..])
  }

  function ProfileADecrypt(c: Crypto, input: string, priv: Option<Scalar>): (r: Result<string>) {
    var s := HexDecode(input);
    if s.None? || |s.value| < 32 + MAC_LEN || priv.None? then Err else
      var shared := c.x25519(priv.value, s.value[..32]);
      if shared.None? then Err else Unpacked(Opened(c, shared.value, s.value[..32], s.value, 32))
  }

  /** ecdhP256: the shared secret and the compressed form of the sender's key, which may have
      been sent in either form. */
  function EcdhP256(c: Crypto, priv: Scalar, sent: seq<u8>): (r: Option<(seq<u8>, seq<u8>)>)
    requires sent != [] && sent[0] in [2, 3, 4]
  {
    var point := if sent[0] == 4 then Some(sent) else c.uncompress(sent);
    var kdfPub := if sent[0] == 4 then c.compress(sent) else Some(sent);
    if point.None? || kdfPub.None? then None else
      var shared := c.p256(priv, point.value);
      if shared.None? then None else Some((shared.value, kdfPub.value))
  }

  function ProfileBDecrypt(c: Crypto, input: string, priv: Option<Scalar>): (r: Result<string>) {
    var s := HexDecode(input);
    if s.None? || |s.value| < 1 || s.value[0] !in [2, 3, 4] then Err else
      OpenB(c, s.value, priv)
  }

  function OpenB(c: Crypto, s: seq<u8>, priv: Option<Scalar>): (r: Result<string>)
    requires s != [] && s[0] in [2, 3, 4]
  {
    var keyLen := if s[0] == 4 then 65 else 33;
    if |s| < keyLen + MAC_LEN || priv.None? then Err else
      var agreed := EcdhP256(c, priv.value, s[..keyLen]);
      if agreed.None? then Err else Unpacked(Opened(c, agreed.value.0, agreed.value.1, s, keyLen))
  }

  /** Opening what was sealed gives the text back. */
  lemma OpenSealed(c: Crypto, shared: seq<u8>, pub: seq<u8>, plain: seq<u8>)
    ensures var s := Sealed(c, shared, pub, plain);
            && |s| == |pub| + |plain| + MAC_LEN && s[..|pub|] == pub
            && Opened(c, shared, pub, s, |pub|) == Ok(plain)
  {
    hide Ctr, Tag, DerivedKeys;
    var k := DerivedKeys(c, shared, pub);
    var text := Ctr(c, k, plain);
    var tag := Tag(c, k, text);
    var s := Sealed(c, shared, pub, plain);
    assert s == pub + (text + tag);
    assert s[|pub|..] == text + tag;
    assert s[|pub|..|s| - MAC_LEN] == text && s[|s| - MAC_LEN..] == tag;
    CtrTwice(c, k, plain, 0);
  }

  /** A text opens to exactly what it seals, and nothing else opens. */
  lemma OpenedIff(c: Crypto, shared: seq<u8>, pub: seq<u8>, s: seq<u8>, keyLen: nat, plain: seq<u8>)
    requires |s| >= keyLen + MAC_LEN
    ensures Opened(c, shared, pub, s, keyLen) == Ok(plain) <==> pub + s[keyLen..] == Sealed(c, shared, pub, plain)
    ensures Opened(c, shared, pub, s, keyLen).Ok? || Opened(c, shared, pub, s, keyLen).Err?
  {
    hide Ctr, Tag, DerivedKeys;
    var k := DerivedKeys(c, shared, pub);
    var text, tag := s[keyLen..|s| - MAC_LEN], s[|s| - MAC_LEN..];
    assert s[keyLen..] == text + tag;
    if pub + s[keyLen..] == Sealed(c, shared, pub, plain) {
      var sealedText := Ctr(c, k, plain);
      assert (pub + s[keyLen..])[|pub|..] == s[keyLen..];
      assert s[keyLen..] == sealedText + Tag(c, k, sealedText);
      assert text == sealedText && tag == Tag(c, k, sealedText);
    }
    CtrTwice(c, k, plain, 0);
    CtrTwice(c, k, text, 0);
  }

  /** Profile A: what the home network's private key makes of a number concealed with its public
      key. */
  lemma ProfileARoundTrip(c: Crypto, msin: string, priv: Scalar, ephemeral: Scalar)
    requires c.Lawful()
    requires ProfileAEncrypt(c, msin, Some(c.x25519Public(priv)), ephemeral).Ok?
    ensures msin != "" && AllHex(msin)
    ensures ProfileADecrypt(c, ProfileAEncrypt(c, msin, Some(c.x25519Public(priv)), ephemeral).value, Some(priv))
              == Ok(Recovered(msin))
  {
    var shared := c.x25519(ephemeral, c.x25519Public(priv));
    assert c.x25519(priv, c.x25519Public(ephemeral)) == shared;
    hide Crypto.Lawful, Sealed, Opened, TbcdOf, HexDecode, HexEncode, Recovered;
    var pub, plain := c.x25519Public(ephemeral), Packed(msin).value;
    PackedNonEmpty(msin);
    OpenSealed(c, shared.value, pub, plain);
    DecodeOfEncode(Sealed(c, shared.value, pub, plain));
    TbcdThroughHex(msin);
  }

  lemma PackedNonEmpty(msin: string)
    requires Packed(msin).Ok?
    ensures msin != ""
  {}

  /** Both forms of a point lead to the same secret and the same key material. */
  lemma FormsAgree(c: Crypto, priv: Scalar, point: seq<u8>, packed: seq<u8>)
    requires c.Lawful() && c.compress(point) == Some(packed)
    ensures |point| == 65 && point[0] == 4 && |packed| == 33 && packed[0] in [2, 3]
    ensures EcdhP256(c, priv, point) == EcdhP256(c, priv, packed)
    ensures c.p256(priv, point).Some? ==> EcdhP256(c, priv, packed) == Some((c.p256(priv, point).value, packed))
  {
    assert c.uncompress(packed) == Some(point);
  }

  lemma AgreementB(c: Crypto, priv: Scalar, ephemeral: Scalar, packed: seq<u8>)
    requires c.Lawful() && c.compress(c.p256Public(ephemeral)) == Some(packed)
    requires c.p256(ephemeral, c.p256Public(priv)).Some?
    ensures |packed| == 33 && packed[0] in [2, 3]
    ensures EcdhP256(c, priv, packed) == Some((c.p256(ephemeral, c.p256Public(priv)).value, packed))
  {
    assert c.p256(priv, c.p256Public(ephemeral)) == c.p256(ephemeral, c.p256Public(priv));
    FormsAgree(c, priv, c.p256Public(ephemeral), packed);
  }

  /** A scheme output reads the same whichever form its key was sent in. */
  lemma FormsDecryptAlike(c: Crypto, priv: Option<Scalar>, point: seq<u8>, packed: seq<u8>, rest: seq<u8>)
    requires c.Lawful() && c.compress(point) == Some(packed)
    ensures ProfileBDecrypt(c, HexEncode(point + rest), priv) == ProfileBDecrypt(c, HexEncode(packed + rest), priv)
  {
    hide Crypto.Lawful, HexDecode, HexEncode, EcdhP256, TbcdOf, DecryptWithKdf;
    FormsAgree(c, if priv.Some? then priv.value else 0, point, packed);
    DecodeOfEncode(point + rest);
    DecodeOfEncode(packed + rest);
    var s, t := point + rest, packed + rest;
    assert s[..65] == point && t[..33] == packed && s[0] == point[0] && t[0] == packed[0];
    assert |rest| >= MAC_LEN ==>
        s[65..|s| - MAC_LEN] == rest[..|rest| - MAC_LEN] == t[33..|t| - MAC_LEN] &&
        s[|s| - MAC_LEN..] == rest[|rest| - MAC_LEN..] == t[|t| - MAC_LEN..];
  }

  /** Profile B likewise; the key goes out compressed. */
  lemma ProfileBRoundTrip(c: Crypto, msin: string, priv: Scalar, ephemeral: Scalar)
    requires c.Lawful()
    requires ProfileBEncrypt(c, msin, Some(c.p256Public(priv)), ephemeral).Ok?
    ensures msin != "" && AllHex(msin)
    ensures ProfileBDecrypt(c, ProfileBEncrypt(c, msin, Some(c.p256Public(priv)), ephemeral).value, Some(priv))
              == Ok(Recovered(msin))
  {
    hide Crypto.Lawful, Sealed, Opened, TbcdOf, HexDecode, HexEncode, Recovered, AllHex, EcdhP256;
    var shared, point := c.p256(ephemeral, c.p256Public(priv)), c.p256Public(ephemeral);
    var pub := c.compress(point).value;
    AgreementB(c, priv, ephemeral, pub);
    var plain := Packed(msin).value;
    PackedNonEmpty(msin);
    OpenSealed(c, shared.value, pub, plain);
    var s := Sealed(c, shared.value, pub, plain);
    DecodeOfEncode(s);
    assert s[0] == s[..33][0] == pub[0];
    TbcdThroughHex(msin);
  }

  // ---------- when the code panics ----------

  /** A profile A output that seals the empty text: a key, nothing, and the tag of nothing. */
  predicate SealsNothingA(c: Crypto, input: string, priv: Option<Scalar>) {
    var s := HexDecode(input);
    s.Some? && |s.value| == 32 + MAC_LEN && priv.Some? &&
    var shared := c.x25519(priv.value, s.value[..32]);
    shared.Some? && Tag(c, DerivedKeys(c, shared.value, s.value[..32]), []) == s.value[32..]
  }

  /** The same for profile B, with the key in either form. */
  predicate SealsNothingB(c: Crypto, input: string, priv: Option<Scalar>) {
    var s := HexDecode(input);
    s.Some? && s.value != [] && s.value[0] in [2, 3, 4] && priv.Some? &&
    var keyLen := if s.value[0] == 4 then 65 else 33;
    |s.value| == keyLen + MAC_LEN &&
    var agreed := EcdhP256(c, priv.value, s.value[..keyLen]);
    agreed.Some? && Tag(c, DerivedKeys(c, agreed.value.0, agreed.value.1), []) == s.value[keyLen..]
  }

  /** Opening and unpacking panics exactly on a well-tagged empty text. */
  lemma OpenedPanicsIff(c: Crypto, shared: seq<u8>, kdfPub: seq<u8>, s: seq<u8>, keyLen: nat)
    requires |s| >= keyLen + MAC_LEN
    ensures Unpacked(Opened(c, shared, kdfPub, s, keyLen)) == Panic <==>
              |s| == keyLen + MAC_LEN && Tag(c, DerivedKeys(c, shared, kdfPub), []) == s[keyLen..]
  {
    hide TbcdOf, HexEncode, Tag, DerivedKeys;
    var k, text := DerivedKeys(c, shared, kdfPub), s[keyLen..|s| - MAC_LEN];
    assert |text| == 0 <==> |s| == keyLen + MAC_LEN;
    assert |text| == 0 ==> text == [] && s[|s| - MAC_LEN..] == s[keyLen..];
    UnpackPanicsIff(Ctr(c, k, text));
  }

  lemma ProfileAPanicsIff(c: Crypto, input: string, priv: Option<Scalar>)
    ensures ProfileADecrypt(c, input, priv) == Panic <==> SealsNothingA(c, input, priv)
  {
    hide HexDecode, Opened, Unpacked, Tag, DerivedKeys;
    var s := HexDecode(input);
    if s.Some? && |s.value| >= 32 + MAC_LEN && priv.Some? {
      var shared := c.x25519(priv.value, s.value[..32]);
      if shared.Some? { OpenedPanicsIff(c, shared.value, s.value[..32], s.value, 32); }
    }
  }

  lemma ProfileBPanicsIff(c: Crypto, input: string, priv: Option<Scalar>)
    ensures ProfileBDecrypt(c, input, priv) == Panic <==> SealsNothingB(c, input, priv)
  {
    hide HexDecode, Opened, Unpacked, Tag, DerivedKeys, EcdhP256;
    var s := HexDecode(input);
    if s.Some? && s.value != [] && s.value[0] in [2, 3, 4] {
      var keyLen := if s.value[0] == 4 then 65 else 33;
      if |s.value| >= keyLen + MAC_LEN && priv.Some? {
        var agreed := EcdhP256(c, priv.value, s.value[..keyLen]);
        if agreed.Some? { OpenedPanicsIff(c, agreed.value.0, agreed.value.1, s.value, keyLen); }
      }
    }
  }

  /** Such outputs exist for every key: sealing the empty text gives one. */
  lemma SealedNothingPanics(c: Crypto, priv: Scalar, ephemeral: Scalar)
    requires c.Lawful()
    ensures var pub := c.x25519Public(ephemeral); var shared := c.x25519(priv, pub);
            shared.Some? ==> ProfileADecrypt(c, HexEncode(Sealed(c, shared.value, pub, [])), Some(priv)) == Panic
    ensures var point := c.p256Public(ephemeral); var pub, shared := c.compress(point), c.p256(priv, point);
            pub.Some? && shared.Some? ==>
              ProfileBDecrypt(c, HexEncode(Sealed(c, shared.value, pub.value, [])), Some(priv)) == Panic
  {
    hide Crypto.Lawful, HexDecode, HexEncode, TbcdOf, Sealed, Opened, EcdhP256;
    UnpackPanicsIff([]);
    var pub := c.x25519Public(ephemeral);
    var shared := c.x25519(priv, pub);
    if shared.Some? {
      OpenSealed(c, shared.value, pub, []);
      DecodeOfEncode(Sealed(c, shared.value, pub, []));
    }
    var point := c.p256Public(ephemeral);
    var packed, secret := c.compress(point), c.p256(priv, point);
    if packed.Some? && secret.Some? {
      FormsAgree(c, priv, point, packed.value);
      OpenSealed(c, secret.value, packed.value, []);
      var s := Sealed(c, secret.value, packed.value, []);
      DecodeOfEncode(s);
      assert s[0] == s[..33][0] == packed.value[0];
    }
  }

  // ---------- the textual identity ----------

  datatype SuciText = SuciText(
    supiType: string, mcc: string, mnc: string, homeNetworkId: string, routingIndicator: string,
    protectionScheme: string, publicKeyID: string, schemeOutput: string, raw: string)

  predicate IsMcc(s: string) { |s| == 3 && AllDigits(s) }

  predicate IsMnc(s: string) { 2 <= |s| <= 3 && AllDigits(s) }

  predicate IsRoutingIndicator(s: string) { 1 <= |s| <= 4 && AllDigits(s) }

  predicate IsScheme(s: string) { s in ["0", "1", "2"] }

  predicate IsKeyId(s: string) { AllDigits(s) && (1 <= |s| <= 2 || (|s| == 3 && 100 <= Value(s) <= 255)) }

  predicate IsOutput(s: string) { s != "" && AllHex(s) }

  predicate IsTail(f: seq<string>) {
    |f| == 4 && IsRoutingIndicator(f[0]) && IsScheme(f[1]) && IsKeyId(f[2]) && IsOutput(f[3])
  }

  /** ParseSuci. Only the free text of a network access identifier may hold a separator, so the
      pattern is a matter of the fields between separators. */
  function ParseSuci(input: string): (r: Option<SuciText>) {
    var f := Split(input, '-');
    var n := |f|;
    if n < 7 || f[0] != "suci" || !IsTail(f[n - 4..]) then None
    else if f[1] == "0" && n == 8 && IsMcc(f[2]) && IsMnc(f[3]) then
      Some(SuciText("0-" + f[2] + "-" + f[3], f[2], f[3], "", f[4], f[5], f[6], f[7], input))
    else if f[1] == "1" && (forall p | p in f[2..n - 4] :: '\n' !in p) then
      var id := "1-" + Join(f[2..n - 4], '-');
      Some(SuciText(id, "", "", id, f[n - 4], f[n - 3], f[n - 2], f[n - 1], input))
    else None
  }

  function Fields(x: SuciText): (r: seq<string>) {
    ["suci", "0", x.mcc, x.mnc, x.routingIndicator, x.protectionScheme, x.publicKeyID, x.schemeOutput]
  }

  /** A well-formed identity of the subscriber-number kind. */
  predicate ImsiSuci(x: SuciText) {
    && IsMcc(x.mcc) && IsMnc(x.mnc)
    && IsRoutingIndicator(x.routingIndicator) && IsScheme(x.protectionScheme)
    && IsKeyId(x.publicKeyID) && IsOutput(x.schemeOutput)
    && x.supiType == "0-" + x.mcc + "-" + x.mnc && x.homeNetworkId == ""
    && x.raw == Join(Fields(x), '-')
  }

  /** Parsing is the inverse of formatting, in both directions. */
  lemma ParseImsiIff(x: SuciText)
    ensures ImsiSuci(x) <==> ParseSuci(x.raw) == Some(x) && x.mcc != ""
  {
    hide Split, Join;
    if ImsiSuci(x) {
      FieldsPlain(x);
      SplitOfJoin(Fields(x), '-');
    }
    if ParseSuci(x.raw) == Some(x) && x.mcc != "" {
      JoinOfSplit(x.raw, '-');
      assert Split(x.raw, '-') == Fields(x);
    }
  }

  lemma FieldsPlain(x: SuciText)
    requires ImsiSuci(x)
    ensures forall p | p in Fields(x) :: '-' !in p
  {}

  datatype HomeNetworkPrivateKey = HomeNetworkPrivateKey(scheme: string, privateKey: Option<Scalar>)

  datatype HomeNetworkPublicKey = HomeNetworkPublicKey(scheme: string, publicKey: Option<seq<u8>>, keyId: string)

  /** ToSupi. */
  function ToSupi(c: Crypto, suci: string, profiles: seq<HomeNetworkPrivateKey>): (r: Result<string>) {
    var parsed := ParseSuci(suci);
    if parsed.None? then
      if "imsi-" <= suci || "nai-" <= suci then Ok(suci) else Err
    else
      var x := parsed.value;
      if !("0" <= x.supiType) then Err
      else if x.protectionScheme == "0" then Ok("imsi-" + x.mcc + x.mnc + x.schemeOutput)
      else if !AllDigits(x.publicKeyID) || !(1 <= Value(x.publicKeyID) <= |profiles|) then Err
      else
        var profile := profiles[Value(x.publicKeyID) - 1];
        if x.protectionScheme != profile.scheme then Err
        else
          var result := if x.protectionScheme == "1" then ProfileADecrypt(c, x.schemeOutput, profile.privateKey)
                        else if x.protectionScheme == "2" then ProfileBDecrypt(c, x.schemeOutput, profile.privateKey)
                        else Err;
          if result.Ok? then Ok("imsi-" + x.mcc + x.mnc + result.value) else result
  }

  /** CipherSuci; the ephemeral key is the random choice. */
  function CipherSuci(c: Crypto, msin: string, mcc: string, mnc: string, routingIndicator: string,
                      key: HomeNetworkPublicKey, ephemeral: Scalar): (r: Result<Option<SuciText>>) {
    if |msin| + |mcc| + |mnc| < 14 then Err
    else
      var output := if key.scheme == "0" then Ok(msin)
                    else if key.scheme == "1" then ProfileAEncrypt(c, msin, key.publicKey, ephemeral)
                    else if key.scheme == "2" then ProfileBEncrypt(c, msin, key.publicKey, ephemeral)
                    else Err;
      match output
      case Ok(o) => Ok(ParseSuci(Join(["suci", "0", mcc, mnc, routingIndicator, key.scheme, key.keyId, o], '-')))
      case Err => Err
      case Panic => Panic
  }

  /** The key pair belongs together, where the key number says. */
  predicate Paired(c: Crypto, key: HomeNetworkPublicKey, profiles: seq<HomeNetworkPrivateKey>) {
    AllDigits(key.keyId) && 1 <= Value(key.keyId) <= |profiles| &&
    var p := profiles[Value(key.keyId) - 1];
    p.scheme == key.scheme && p.privateKey.Some? &&
    key.publicKey ==
      Some(if key.scheme == "1" then c.x25519Public(p.privateKey.value) else c.p256Public(p.privateKey.value))
  }

  /** What was formatted is parsed as it was given: no argument smuggles in a separator. */
  lemma ParsedAsGiven(f: seq<string>, x: SuciText)
    requires |f| == 8 && f[0] == "suci" && f[1] == "0" && ParseSuci(Join(f, '-')) == Some(x)
    ensures f == Fields(x) && ImsiSuci(x) && x.raw == Join(f, '-')
  {
    SplitCount(f, '-');
    hide Split, Join;
    var s := Split(Join(f, '-'), '-');
    if |s| == 8 { SplitOfJoin(f, '-'); }
    FirstFields(f);
    ParseImsiIff(x);
    assert s == f;
  }

  lemma FirstFields(f: seq<string>)
    requires |f| == 8 && f[0] == "suci" && f[1] == "0"
    ensures |Split(Join(f, '-'), '-')| >= 2 && Split(Join(f, '-'), '-')[1] == "0"
  {
    var rest := f[2..];
    assert f[1..][1..] == rest;
    assert Join(f, '-') == "suci" + "-" + ("0" + "-" + Join(rest, '-'));
    SplitAtFirst("suci", "0" + "-" + Join(rest, '-'), '-');
    SplitAtFirst("0", Join(rest, '-'), '-');
  }

  /** ToSupi panics exactly when it comes to a profile decryption of a sealed empty text. */
  lemma ToSupiPanicsIff(c: Crypto, suci: string, profiles: seq<HomeNetworkPrivateKey>)
    ensures ToSupi(c, suci, profiles) == Panic <==>
              var x := ParseSuci(suci);
              && x.Some? && "0" <= x.value.supiType
              && AllDigits(x.value.publicKeyID) && 1 <= Value(x.value.publicKeyID) <= |profiles|
              && var p := profiles[Value(x.value.publicKeyID) - 1];
                 && x.value.protectionScheme == p.scheme
                 && ((p.scheme == "1" && SealsNothingA(c, x.value.schemeOutput, p.privateKey)) ||
                     (p.scheme == "2" && SealsNothingB(c, x.value.schemeOutput, p.privateKey)))
  {
    hide ParseSuci, ProfileADecrypt, ProfileBDecrypt, SealsNothingA, SealsNothingB;
    var x := ParseSuci(suci);
    if x.Some? && AllDigits(x.value.publicKeyID) && 1 <= Value(x.value.publicKeyID) <= |profiles| {
      var p := profiles[Value(x.value.publicKeyID) - 1];
      ProfileAPanicsIff(c, x.value.schemeOutput, p.privateKey);
      ProfileBPanicsIff(c, x.value.schemeOutput, p.privateKey);
    }
  }

  /** CipherSuci panics exactly when the lengths add up and a profile is asked to encrypt without a
      key, or to encrypt an empty number. */
  lemma CipherSuciPanicsIff(c: Crypto, msin: string, mcc: string, mnc: string, routingIndicator: string,
                            key: HomeNetworkPublicKey, ephemeral: Scalar)
    ensures CipherSuci(c, msin, mcc, mnc, routingIndicator, key, ephemeral) == Panic <==>
              && |msin| + |mcc| + |mnc| >= 14 && key.scheme in ["1", "2"]
              && (key.publicKey.None? || (msin == "" && Agrees(c, key, ephemeral)))
  {
    hide ParseSuci, Join, Sealed, HexEncode, HexDecode;
  }

  /** The key agreement of the chosen scheme, if it has one, comes about. */
  predicate Agrees(c: Crypto, key: HomeNetworkPublicKey, ephemeral: Scalar) {
    || key.scheme == "0"
    || (key.publicKey.Some? &&
        (|| (key.scheme == "1" && c.x25519(ephemeral, key.publicKey.value).Some?)
         || (key.scheme == "2" && c.p256(ephemeral, key.publicKey.value).Some?
             && c.compress(c.p256Public(ephemeral)).Some?)))
  }

  /** Exactly which digit numbers are concealed: every part has its format, the number is long
      enough, and the keys agree. */
  lemma ConcealedIff(c: Crypto, msin: string, mcc: string, mnc: string, routingIndicator: string,
                     key: HomeNetworkPublicKey, ephemeral: Scalar)
    requires msin != "" && AllDigits(msin)
    ensures var r := CipherSuci(c, msin, mcc, mnc, routingIndicator, key, ephemeral);
            r.Ok? && r.value.Some? <==>
              && IsMcc(mcc) && IsMnc(mnc) && IsRoutingIndicator(routingIndicator) && IsKeyId(key.keyId)
              && |msin| + |mcc| + |mnc| >= 14 && Agrees(c, key, ephemeral)
  {
    hide ParseSuci, ImsiSuci, Sealed, HexEncode, TbcdOf, HexDecode, Join, IsKeyId, IsMcc, IsMnc, IsRoutingIndicator;
    DigitsPack(msin);
    var output := if key.scheme == "0" then Ok(msin)
                  else if key.scheme == "1" then ProfileAEncrypt(c, msin, key.publicKey, ephemeral)
                  else if key.scheme == "2" then ProfileBEncrypt(c, msin, key.publicKey, ephemeral)
                  else Err;
    assert output.Ok? <==> Agrees(c, key, ephemeral);
    if output.Ok? {
      OutputIsHex(c, msin, key, ephemeral);
      FormattedIff(mcc, mnc, routingIndicator, key, output.value);
    }
  }

  lemma OutputIsHex(c: Crypto, msin: string, key: HomeNetworkPublicKey, ephemeral: Scalar)
    requires msin != "" && AllDigits(msin)
    ensures IsOutput(msin)
    ensures var a := ProfileAEncrypt(c, msin, key.publicKey, ephemeral); a.Ok? ==> IsOutput(a.value)
    ensures var b := ProfileBEncrypt(c, msin, key.publicKey, ephemeral); b.Ok? ==> IsOutput(b.value)
  {
    hide HexEncode, Packed, Ctr, Tag, DerivedKeys;
    if Packed(msin).Ok? {
      var plain := Packed(msin).value;
      var home := if key.publicKey.Some? then key.publicKey.value else [];
      var a, b := c.x25519(ephemeral, home), c.p256(ephemeral, home);
      if a.Some? { EncodeIsHex(Sealed(c, a.value, c.x25519Public(ephemeral), plain)); }
      var pub := c.compress(c.p256Public(ephemeral));
      if b.Some? && pub.Some? { EncodeIsHex(Sealed(c, b.value, pub.value, plain)); }
    }
  }

  /** The formatted text parses exactly when each argument has its format. */
  lemma FormattedIff(mcc: string, mnc: string, routingIndicator: string, key: HomeNetworkPublicKey, output: string)
    requires IsScheme(key.scheme) && IsOutput(output)
    ensures ParseSuci(Join(["suci", "0", mcc, mnc, routingIndicator, key.scheme, key.keyId, output], '-')).Some? <==>
              IsMcc(mcc) && IsMnc(mnc) && IsRoutingIndicator(routingIndicator) && IsKeyId(key.keyId)
  {
    hide ParseSuci, Join;
    var f := ["suci", "0", mcc, mnc, routingIndicator, key.scheme, key.keyId, output];
    var supiType := "0-" + mcc + "-" + mnc;
    var x := SuciText(supiType, mcc, mnc, "", routingIndicator, key.scheme, key.keyId, output, Join(f, '-'));
    assert Fields(x) == f;
    ParseImsiIff(x);
    if ParseSuci(Join(f, '-')).Some? { ParsedAsGiven(f, ParseSuci(Join(f, '-')).value); }
  }

  /** Whatever CipherSuci builds, ToSupi reveals: the country and network codes as given and the
      number as packing leaves it, for every scheme and every ephemeral key. */
  lemma ConcealedIsRevealed(c: Crypto, msin: string, mcc: string, mnc: string, routingIndicator: string,
                            key: HomeNetworkPublicKey, ephemeral: Scalar, profiles: seq<HomeNetworkPrivateKey>,
                            x: SuciText)
    requires c.Lawful()
    requires CipherSuci(c, msin, mcc, mnc, routingIndicator, key, ephemeral) == Ok(Some(x))
    requires key.scheme != "0" ==> Paired(c, key, profiles)
    ensures ToSupi(c, x.raw, profiles) ==
              Ok("imsi-" + mcc + mnc + if key.scheme == "0" then msin else Recovered(msin))
    ensures ImsiSuci(x) && x.mcc == mcc && x.mnc == mnc && x.routingIndicator == routingIndicator
    ensures msin != "" && AllHex(msin) && |msin| >= 8
  {
    hide Crypto.Lawful, ProfileAEncrypt, ProfileBEncrypt, ProfileADecrypt, ProfileBDecrypt, ParseSuci, Recovered, Join;
    var output := if key.scheme == "0" then msin
                  else if key.scheme == "1" then ProfileAEncrypt(c, msin, key.publicKey, ephemeral).value
                  else ProfileBEncrypt(c, msin, key.publicKey, ephemeral).value;
    ParsedAsGiven(["suci", "0", mcc, mnc, routingIndicator, key.scheme, key.keyId, output], x);
    ParseImsiIff(x);
    if key.scheme != "0" {
      var priv := profiles[Value(key.keyId) - 1].privateKey.value;
      if key.scheme == "1" {
        ProfileARoundTrip(c, msin, priv, ephemeral);
      } else {
        ProfileBRoundTrip(c, msin, priv, ephemeral);
      }
    }
  }

  /** Any digit number comes back unchanged, and it does so under the profiles exactly when it has
      no capital letter, and no final f at an even length. */
  lemma RevealedIff(c: Crypto, msin: string, mcc: string, mnc: string, routingIndicator: string,
                    key: HomeNetworkPublicKey, ephemeral: Scalar, profiles: seq<HomeNetworkPrivateKey>, x: SuciText)
    requires c.Lawful()
    requires CipherSuci(c, msin, mcc, mnc, routingIndicator, key, ephemeral) == Ok(Some(x))
    requires key.scheme != "0" ==> Paired(c, key, profiles)
    ensures ToSupi(c, x.raw, profiles) == Ok("imsi-" + mcc + mnc + msin) <==>
              key.scheme == "0" ||
              ((forall i | 0 <= i < |msin| :: !('A' <= msin[i] <= 'F')) &&
               (|msin| % 2 == 0 ==> msin[|msin| - 1] != 'f'))
    ensures AllDigits(msin) ==> ToSupi(c, x.raw, profiles) == Ok("imsi-" + mcc + mnc + msin)
  {
    ConcealedIsRevealed(c, msin, mcc, mnc, routingIndicator, key, ephemeral, profiles, x);
    RecoveredIff(msin);
    hide *;
    var prefix := "imsi-" + mcc + mnc;
    assert (prefix + Recovered(msin))[|prefix|..] == Recovered(msin);
    assert (prefix + msin)[|prefix|..] == msin;
  }
}
