/** What a sealed number is made of, byte by byte (AnsiX963KDF, Aes128ctr and HmacSha256 of
    suci_deconcealing.go; Annex C.3 of TS 33.501). */
module SuciBytes {
  import opened Types
  import opened Text
  import opened HexText
  import opened Bits
  import opened Suci

  /** Four bytes that spell n, the most significant first. */
  predicate Spells(b: seq<u8>, n: nat) {
    |b| == 4 && n == b[0] as int * 0x100_0000 + b[1] as int * 0x1_0000 + b[2] as int * 0x100 + b[3] as int
  }

  lemma Be32Spells(x: u32)
    ensures Spells(Be32(x), x)
  {
    var high, low := x / 0x1_0000, x % 0x1_0000;
    UpperBytes(x);
    LowerBytes(x);
    assert high == high / 256 * 256 + high % 256 && low == low / 256 * 256 + low % 256;
  }

  lemma UpperBytes(x: nat)
    ensures x / 0x100_0000 == x / 0x1_0000 / 256
  {}

  lemma LowerBytes(x: nat)
    ensures x / 256 % 256 == x % 0x1_0000 / 256 && x % 256 == x % 0x1_0000 % 256
  {}

  /** The key material is one hash after the other: block i is the hash of the secret, the number
      i + 1 in four bytes, and the public key. */
  lemma {:induction false} KdfBlockIs(c: Crypto, shared: seq<u8>, pub: seq<u8>, n: nat, i: nat)
    requires i < n <= 0xFFFF_FFFF
    ensures Spells(Be32(i + 1), i + 1)
    ensures |KdfBlocks(c, shared, pub, n)| == 32 * n
    ensures KdfBlocks(c, shared, pub, n)[32 * i..32 * i + 32] == c.sha256(shared + Be32(i + 1) + pub)
  {
    Be32Spells(i + 1);
    hide Spells, Be32;
    var before, last := KdfBlocks(c, shared, pub, n - 1), c.sha256(shared + Be32(n) + pub);
    KdfLengths(c, shared, pub, n - 1);
    assert KdfBlocks(c, shared, pub, n) == before + last;
    if i < n - 1 { KdfBlockIs(c, shared, pub, n - 1, i); }
    hide KdfBlocks;
    if i == n - 1 {
      CutBack(before, last);
    } else {
      CutFront(before, last, 32 * i);
    }
  }

  lemma CutBack(a: seq<u8>, b: seq<u8>)
    requires |b| == 32
    ensures (a + b)[|a|..|a| + 32] == b
  {}

  lemma CutFront(a: seq<u8>, b: seq<u8>, at: nat)
    requires at + 32 <= |a|
    ensures (a + b)[at..at + 32] == a[at..at + 32]
  {}

  lemma {:induction false} KdfLengths(c: Crypto, shared: seq<u8>, pub: seq<u8>, n: nat)
    requires n <= 0xFFFF_FFFF
    ensures |KdfBlocks(c, shared, pub, n)| == 32 * n
  {
    if n == 0 {
    } else {
      KdfLengths(c, shared, pub, n - 1);
    }
  }

  lemma {:induction false} CtrAt(c: Crypto, k: Keys, text: seq<u8>, at: nat, i: nat)
    requires i < |text|
    ensures Ctr(c, k, text, at)[i] == XorByte(text[i], c.keystream(k.encKey, k.icb, at + i))
    decreases i
  {
    hide XorByte;
    if i == 0 {
    } else {
      CtrAt(c, k, text[1..], at + 1, i - 1);
    }
  }

  /** The byte y is x with the bits of z turned over. */
  predicate Turned(x: u8, y: u8, z: u8) {
    forall b | 0 <= b < 8 :: Bit(y, b) == if Bit(x, b) == Bit(z, b) then 0 else 1
  }

  lemma XorByteTurns(x: u8, z: u8)
    ensures Turned(x, XorByte(x, z), z)
  {
    forall b | 0 <= b < 8 ensures Bit(XorByte(x, z), b) == if Bit(x, b) == Bit(z, b) then 0 else 1 {
      BitOfXor(x, z, 8, b);
    }
  }

  /** The two hashes a secret and a public key lead to. */
  lemma TwoHashes(c: Crypto, shared: seq<u8>, pub: seq<u8>)
    ensures KdfBlocks(c, shared, pub, 2) ==
              c.sha256(shared + [0, 0, 0, 1] + pub)
              + c.sha256(shared + [0, 0, 0, 2] + pub)
  {
    hide KdfBlocks;
    KdfBlockIs(c, shared, pub, 2, 0);
    KdfBlockIs(c, shared, pub, 2, 1);
    assert Be32(1) == [0, 0, 0, 1] && Be32(2) == [0, 0, 0, 2];
    var key := KdfBlocks(c, shared, pub, 2);
    assert key == key[0..32] + key[32..64];
  }

  lemma Halves(h1: seq<u8>, h2: seq<u8>)
    requires |h1| == |h2| == 32
    ensures (h1 + h2)[..16] == h1[..16] && (h1 + h2)[16..32] == h1[16..] && (h1 + h2)[32..] == h2
  {}

  /** A sealed text is the sender's key, the text, and eight bytes of tag. With h1 and h2 the hashes
      of the secret and that key under the counters one and two, the text is enciphered byte by byte
      under the first half of h1 as key and its second half as initial counter block, and the tag
      authenticates the enciphered text under h2. */
  lemma SealedIs(c: Crypto, shared: seq<u8>, pub: seq<u8>, plain: seq<u8>)
    ensures var s, n := Sealed(c, shared, pub, plain), |pub|;
            var h1, h2 := c.sha256(shared + [0, 0, 0, 1] + pub), c.sha256(shared + [0, 0, 0, 2] + pub);
            && |s| == n + |plain| + 8
            && s[..n] == pub
            && (forall i | 0 <= i < |plain| :: Turned(plain[i], s[n + i], c.keystream(h1[..16], h1[16..], i)))
            && s[n + |plain|..] == c.hmac(h2, s[n..n + |plain|])[..8]
  {
    TwoHashes(c, shared, pub);
    hide KdfBlocks, Ctr, XorByte, Turned;
    var s, n := Sealed(c, shared, pub, plain), |pub|;
    var h1, h2 := c.sha256(shared + [0, 0, 0, 1] + pub), c.sha256(shared + [0, 0, 0, 2] + pub);
    var k := DerivedKeys(c, shared, pub);
    Halves(h1, h2);
    var text := Ctr(c, k, plain);
    assert s[n..n + |plain|] == text && s[n + |plain|..] == Tag(c, k, text);
    forall i | 0 <= i < |plain| ensures Turned(plain[i], s[n + i], c.keystream(h1[..16], h1[16..], i)) {
      CtrAt(c, k, plain, 0, i);
      XorByteTurns(plain[i], c.keystream(k.encKey, k.icb, i));
      assert s[n + i] == text[i];
    }
  }

  // ---------- the number ----------

  lemma {:induction false} SwappedAt(s: string, k: nat)
    requires |s| % 2 == 0 && 2 * k + 1 < |s|
    ensures Swapped(s)[2 * k] == s[2 * k + 1] && Swapped(s)[2 * k + 1] == s[2 * k]
    decreases |s|
  {
    assert Swapped(s) == [s[1], s[0]] + Swapped(s[2..]);
    if k == 0 {
    } else {
      SwappedAt(s[2..], k - 1);
    }
  }

  lemma {:induction false} DecodedAt(s: string, i: nat)
    requires HexDecode(s).Some? && 2 * i + 1 < |s|
    ensures IsHex(s[2 * i]) && IsHex(s[2 * i + 1])
    ensures HexDecode(s).value[i] / 16 == Nibble(s[2 * i]) && HexDecode(s).value[i] % 16 == Nibble(s[2 * i + 1])
    decreases |s|
  {
    if i == 0 {
    } else {
      DecodedAt(s[2..], i - 1);
    }
  }

  /** Two digits to a byte, the earlier one in the low half; a number of odd length is filled up
      with fifteen. */
  lemma PackedDigits(msin: string)
    requires msin != "" && AllDigits(msin)
    ensures Packed(msin).Ok?
    ensures var plain := Packed(msin).value;
            && |plain| == (|msin| + 1) / 2
            && forall i | 0 <= i < |plain| ::
                 && plain[i] % 16 == msin[2 * i] as int - '0' as int
                 && plain[i] / 16 == if 2 * i + 1 < |msin| then msin[2 * i + 1] as int - '0' as int else 15
  {
    hide Swapped, HexDecode;
    DigitsPack(msin);
    var p := Padded(msin);
    SwapLast(p);
    var t := TbcdOf(msin).value;
    assert t == Swapped(p) && |t| == |p|;
    var plain := Packed(msin).value;
    forall i | 0 <= i < |plain|
      ensures plain[i] % 16 == msin[2 * i] as int - '0' as int
      ensures plain[i] / 16 == if 2 * i + 1 < |msin| then msin[2 * i + 1] as int - '0' as int else 15
    {
      DecodedAt(t, i);
      SwappedAt(p, i);
    }
  }

  /** What CipherSuci sends: the number itself, or the sealed bytes of its packed form, with the
      secret agreed between the ephemeral key and the home network's. */
  lemma SentIs(c: Crypto, msin: string, mcc: string, mnc: string, routingIndicator: string,
               key: HomeNetworkPublicKey, ephemeral: Scalar, x: SuciText)
    requires CipherSuci(c, msin, mcc, mnc, routingIndicator, key, ephemeral) == Ok(Some(x))
    ensures x.protectionScheme == key.scheme && x.publicKeyID == key.keyId
    ensures key.scheme == "0" ==> x.schemeOutput == msin
    ensures key.scheme != "0" ==>
              && key.publicKey.Some? && Packed(msin).Ok?
              && var shared := if key.scheme == "1" then c.x25519(ephemeral, key.publicKey.value)
                               else c.p256(ephemeral, key.publicKey.value);
              && var pub := if key.scheme == "1" then Some(c.x25519Public(ephemeral))
                            else c.compress(c.p256Public(ephemeral));
              && shared.Some? && pub.Some?
              && HexDecode(x.schemeOutput) == Some(Sealed(c, shared.value, pub.value, Packed(msin).value))
  {
    hide ParseSuci, Join, Sealed, HexEncode, HexDecode, TbcdOf, ImsiSuci;
    var output := if key.scheme == "0" then msin
                  else if key.scheme == "1" then ProfileAEncrypt(c, msin, key.publicKey, ephemeral).value
                  else ProfileBEncrypt(c, msin, key.publicKey, ephemeral).value;
    ParsedAsGiven(["suci", "0", mcc, mnc, routingIndicator, key.scheme, key.keyId, output], x);
    assert Fields(x)[5] == key.scheme && Fields(x)[6] == key.keyId && Fields(x)[7] == output;
    if key.scheme == "1" {
      DecodeOfEncode(Sealed(c, c.x25519(ephemeral, key.publicKey.value).value, c.x25519Public(ephemeral),
                            Packed(msin).value));
    } else if key.scheme == "2" {
      DecodeOfEncode(Sealed(c, c.p256(ephemeral, key.publicKey.value).value,
                            c.compress(c.p256Public(ephemeral)).value, Packed(msin).value));
    }
  }
}
