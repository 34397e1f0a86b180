/** BIP32 hierarchical key derivation (lib/bip32.py): extended public and
    private keys, their validation, child derivation, the 78-byte serialised
    form and its parser.  Keys are values: derivation returns a new key and
    never changes its parent. */
module Bip32 {
  import opened Errors
  import opened Util
  import opened Crypto

  /** Child numbers from 2^31 on are hardened. */
  const HARDENED: nat := 0x8000_0000

  /** b'Bitcoin seed', the HMAC key of root derivation */
  const SEED_KEY: seq<Byte> := [0x42, 0x69, 0x74, 0x63, 0x6f, 0x69, 0x6e, 0x20, 0x73, 0x65, 0x65, 0x64]

  // ---------------------------------------------------------------------------
  // Fields shared by both kinds of key (_KeyBase)

  datatype KeyInfo = KeyInfo(chainCode: seq<Byte>, n: int, depth: int, parentFingerprint: seq<Byte>)

  /** What _KeyBase.__init__ establishes for every key object. */
  predicate ValidInfo(info: KeyInfo)
  {
    && |info.chainCode| == 32
    && 0 <= info.n < TWO_32
    && 0 <= info.depth < 256
    && |info.parentFingerprint| == 4
  }

  /** _KeyBase.__init__: the checks, in the order the constructor makes them. */
  function NewKeyInfo(chainCode: seq<Byte>, n: int, depth: int, parentFingerprint: seq<Byte>): (r: Result<KeyInfo>)
    ensures r.Ok? <==> |chainCode| == 32 && 0 <= n < TWO_32 && 0 <= depth < 256 && |parentFingerprint| == 4
    ensures r.Ok? ==> ValidInfo(r.value) && r.value == KeyInfo(chainCode, n, depth, parentFingerprint)
    ensures |chainCode| != 32 ==> r == Err(InvalidChainCode)
    ensures |chainCode| == 32 && !(0 <= n < TWO_32) ==> r == Err(InvalidChildNumber)
    ensures |chainCode| == 32 && 0 <= n < TWO_32 && !(0 <= depth < 256) ==> r == Err(InvalidDepth)
    ensures |chainCode| == 32 && 0 <= n < TWO_32 && 0 <= depth < 256 && |parentFingerprint| != 4 ==>
              r == Err(BadParentFingerprint)
  {
    if |chainCode| != 32 then Err(InvalidChainCode)
    else if !(0 <= n < TWO_32) then Err(InvalidChildNumber)
    else if !(0 <= depth < 256) then Err(InvalidDepth)
    else if |parentFingerprint| != 4 then Err(BadParentFingerprint)
    else Ok(KeyInfo(chainCode, n, depth, parentFingerprint))
  }

  /** MasterPubKey: a verifying key (a curve point) with the shared fields */
  datatype PubKey = PubKey(point: Point, info: KeyInfo)

  /** MasterPrivKey: a secret exponent with the shared fields */
  datatype PrivKey = PrivKey(exponent: int, info: KeyInfo)

  /** What _from_extended_key returns: one kind of key or the other */
  datatype ExtendedKey = Public(pub: PubKey) | Private(priv: PrivKey)

  predicate WellFormedPub(k: PubKey)
  {
    ValidInfo(k.info) && k.point.Affine? && k.point.x < TWO_256
  }

  predicate WellFormedPriv(k: PrivKey)
  {
    ValidInfo(k.info) && 1 <= k.exponent < ORDER
  }

  predicate WellFormed(key: ExtendedKey)
  {
    match key
    case Public(k) => WellFormedPub(k)
    case Private(k) => WellFormedPriv(k)
  }

  function InfoOf(key: ExtendedKey): KeyInfo
  {
    match key
    case Public(k) => k.info
    case Private(k) => k.info
  }

  // ---------------------------------------------------------------------------
  // Scalars

  /** _exponent_to_bytes: the last 32 bytes of 32 zero bytes followed by
      int_to_bytes(e). */
  function ExponentToBytes(e: nat): (r: seq<Byte>)
    ensures |r| == 32
    ensures e < TWO_256 ==> BytesToInt(r) == e
  {
    var b := IntToBytes(e);
    var padded := Zeros(32) + b;
    var r := padded[|b|..];
    if e < TWO_256 then
      Pow256Values();
      IntToBytesAtMost(e, 32);
      assert r == Zeros(32 - |b|) + b;
      BytesToIntLeadingZeros(32 - |b|, b);
      r
    else
      r
  }

  /** Every 32-byte string is the padded form of its own value. */
  lemma ExponentToBytesOfBytes(s: seq<Byte>)
    requires |s| == 32
    ensures ExponentToBytes(BytesToInt(s)) == s
  {
    Pow256Values();
    BytesToIntInjective(ExponentToBytes(BytesToInt(s)), s);
  }

  /** MasterPrivKey._privkey_secret_exponent */
  function PrivkeySecretExponent(privkey: seq<Byte>): (r: Result<nat>)
    ensures |privkey| != 32 ==> r == Err(BadPrivkeyLength)
    ensures r.Ok? <==> |privkey| == 32 && 1 <= BytesToInt(privkey) < ORDER
    ensures r.Err? && |privkey| == 32 ==> r.error == InvalidExponent
    ensures r.Ok? ==> r.value == BytesToInt(privkey)
  {
    if |privkey| != 32 then Err(BadPrivkeyLength)
    else
      var exponent := BytesToInt(privkey);
      if !(1 <= exponent < ORDER) then Err(InvalidExponent) else Ok(exponent)
  }

  // ---------------------------------------------------------------------------
  // Public keys

  /** The value whose square root is y: pow(x, 3, p) + b, taken mod p */
  function CurveRhs(x: nat): nat
  {
    ((x * x * x) % FIELD_P + CURVE_B) % FIELD_P
  }

  /** MasterPubKey._verifying_key_from_pubkey: decompress a 33-byte key. */
  function VerifyingKeyFromPubkey(pubkey: seq<Byte>, prims: Primitives): (r: Result<Point>)
    ensures |pubkey| != 33 ==> r == Err(BadPubkeyLength)
    ensures |pubkey| == 33 && pubkey[0] != 2 && pubkey[0] != 3 ==> r == Err(BadPubkeyPrefix)
    ensures r.Ok? <==> && |pubkey| == 33 && (pubkey[0] == 2 || pubkey[0] == 3)
                       && prims.sqrtModP(CurveRhs(BytesToInt(pubkey[1..]))).Some?
    ensures r.Ok? ==> && r.value.Affine?
                      && r.value.x == BytesToInt(pubkey[1..]) && r.value.x < TWO_256
                      && (r.value.y % 2 == 1 <==> pubkey[0] == 3)
    ensures r.Ok? ==> var root := prims.sqrtModP(CurveRhs(BytesToInt(pubkey[1..]))).value;
                      r.value.y == root || r.value.y == FIELD_P - root
  {
    if |pubkey| != 33 then Err(BadPubkeyLength)
    else if pubkey[0] != 2 && pubkey[0] != 3 then Err(BadPubkeyPrefix)
    else
      var isOdd := pubkey[0] == 3;
      var x := BytesToInt(pubkey[1..]);
      match prims.sqrtModP(CurveRhs(x))
      case None => Err(NoSquareRoot)
      case Some(y) =>
        Pow256Values();
        OddPrimeParity(y);
        Ok(Affine(x, if (y % 2 == 1) != isOdd then FIELD_P - y else y))
  }

  /** MasterPubKey.compressed_pubkey: prefix 2 + (y & 1), then x in 32 bytes. */
  function CompressedPubkey(point: Point): (r: seq<Byte>)
    requires point.Affine?
    ensures |r| == 33 && (r[0] == 2 || r[0] == 3)
    ensures r[0] == 3 <==> point.y % 2 == 1
    ensures point.x < TWO_256 ==> BytesToInt(r[1..]) == point.x
  {
    assert ([2 + point.y % 2] + ExponentToBytes(point.x))[1..] == ExponentToBytes(point.x);
    [2 + point.y % 2] + ExponentToBytes(point.x)
  }

  /** Compressing a decompressed key gives back its bytes. */
  lemma CompressDecompressed(pubkey: seq<Byte>, prims: Primitives)
    requires VerifyingKeyFromPubkey(pubkey, prims).Ok?
    ensures CompressedPubkey(VerifyingKeyFromPubkey(pubkey, prims).value) == pubkey
  {
    var c := CompressedPubkey(VerifyingKeyFromPubkey(pubkey, prims).value);
    ExponentToBytesOfBytes(pubkey[1..]);
    assert c[1..] == pubkey[1..];
    assert c == [c[0]] + c[1..];
    assert pubkey == [pubkey[0]] + pubkey[1..];
  }

  /** The square-root library picked one of the two roots y and p - y. */
  predicate IsRootChoice(prims: Primitives, point: Point)
    requires point.Affine?
  {
    var root := prims.sqrtModP(CurveRhs(point.x));
    && 0 <= point.y < FIELD_P
    && root.Some?
    && (root.value == point.y || root.value == FIELD_P - point.y)
  }

  /** Decompressing a compressed point gives back the point, whichever of
      its two roots the library returns. */
  lemma DecompressCompressed(point: Point, prims: Primitives)
    requires point.Affine? && point.x < TWO_256 && IsRootChoice(prims, point)
    ensures VerifyingKeyFromPubkey(CompressedPubkey(point), prims) == Ok(point)
  {
    var c := CompressedPubkey(point);
    assert BytesToInt(c[1..]) == point.x;
    var r := VerifyingKeyFromPubkey(c, prims);
    assert r.Ok? && r.value.x == point.x;
    assert r.value.y % 2 == point.y % 2;
    OddPrimeParity(point.y);
  }

  /** p - y and y have different parities, p being odd. */
  lemma OddPrimeParity(y: int)
    ensures (FIELD_P - y) % 2 != y % 2
    ensures FIELD_P - (FIELD_P - y) == y
  {
  }

  /** MasterPubKey.pubkey_bytes */
  function PubkeyBytes(k: PubKey): (r: seq<Byte>)
    requires k.point.Affine?
    ensures |r| == 33 && (r[0] == 2 || r[0] == 3)
  {
    CompressedPubkey(k.point)
  }

  /** MasterPubKey.identifier: hash160 of the compressed key */
  function Identifier(k: PubKey, prims: Primitives): (r: seq<Byte>)
    requires k.point.Affine?
    ensures prims.Valid() ==> |r| == 20
  {
    prims.hash160(PubkeyBytes(k))
  }

  /** _KeyBase.fingerprint: the first 4 bytes of the identifier */
  function Fingerprint(k: PubKey, prims: Primitives): (r: seq<Byte>)
    requires k.point.Affine?
    ensures prims.Valid() ==> |r| == 4 && r == Identifier(k, prims)[..4]
  {
    Take(Identifier(k, prims), 4)
  }

  /** MasterPubKey.__init__ given a verifying key object */
  function NewPubKeyFromPoint(point: Point, chainCode: seq<Byte>, n: int, depth: int,
                              parentFingerprint: seq<Byte>): (r: Result<PubKey>)
    ensures r.Ok? <==> NewKeyInfo(chainCode, n, depth, parentFingerprint).Ok?
    ensures r.Err? ==> r == NewKeyInfo(chainCode, n, depth, parentFingerprint).PropagateFailure()
    ensures r.Ok? ==> r.value.point == point && r.value.info == KeyInfo(chainCode, n, depth, parentFingerprint)
  {
    var info :- NewKeyInfo(chainCode, n, depth, parentFingerprint);
    Ok(PubKey(point, info))
  }

  /** MasterPubKey.__init__ given the 33 compressed key bytes: the shared
      checks first, then decompression. */
  function NewPubKeyFromBytes(pubkey: seq<Byte>, chainCode: seq<Byte>, n: int, depth: int,
                              parentFingerprint: seq<Byte>, prims: Primitives): (r: Result<PubKey>)
    ensures r.Ok? <==> NewKeyInfo(chainCode, n, depth, parentFingerprint).Ok?
                       && VerifyingKeyFromPubkey(pubkey, prims).Ok?
    ensures r.Ok? ==> && WellFormedPub(r.value)
                      && r.value.info == KeyInfo(chainCode, n, depth, parentFingerprint)
                      && PubkeyBytes(r.value) == pubkey
    ensures NewKeyInfo(chainCode, n, depth, parentFingerprint).Err? ==>
              r == Err(NewKeyInfo(chainCode, n, depth, parentFingerprint).error)
    ensures NewKeyInfo(chainCode, n, depth, parentFingerprint).Ok? && VerifyingKeyFromPubkey(pubkey, prims).Err? ==>
              r == Err(VerifyingKeyFromPubkey(pubkey, prims).error)
  {
    var info :- NewKeyInfo(chainCode, n, depth, parentFingerprint);
    var point :- VerifyingKeyFromPubkey(pubkey, prims);
    CompressDecompressed(pubkey, prims);
    Ok(PubKey(point, info))
  }

  // ---------------------------------------------------------------------------
  // Private keys

  /** MasterPrivKey.privkey_bytes */
  function PrivkeyBytes(k: PrivKey): (r: seq<Byte>)
    requires WellFormedPriv(k)
    ensures |r| == 32 && BytesToInt(r) == k.exponent
  {
    ExponentToBytes(k.exponent)
  }

  /** MasterPrivKey.__init__ given the 32 private key bytes */
  function NewPrivKeyFromBytes(privkey: seq<Byte>, chainCode: seq<Byte>, n: int, depth: int,
                               parentFingerprint: seq<Byte>): (r: Result<PrivKey>)
    ensures r.Ok? <==> NewKeyInfo(chainCode, n, depth, parentFingerprint).Ok?
                       && PrivkeySecretExponent(privkey).Ok?
    ensures r.Ok? ==> && WellFormedPriv(r.value)
                      && r.value.info == KeyInfo(chainCode, n, depth, parentFingerprint)
                      && PrivkeyBytes(r.value) == privkey
    ensures NewKeyInfo(chainCode, n, depth, parentFingerprint).Err? ==>
              r == Err(NewKeyInfo(chainCode, n, depth, parentFingerprint).error)
    ensures NewKeyInfo(chainCode, n, depth, parentFingerprint).Ok? && PrivkeySecretExponent(privkey).Err? ==>
              r == Err(PrivkeySecretExponent(privkey).error)
  {
    var info :- NewKeyInfo(chainCode, n, depth, parentFingerprint);
    var exponent :- PrivkeySecretExponent(privkey);
    ExponentToBytesOfBytes(privkey);
    Ok(PrivKey(exponent, info))
  }

  /** MasterPrivKey.public_key: the same fields with the point k*G */
  function PublicKeyOf(k: PrivKey, prims: Primitives): (r: PubKey)
    requires prims.Valid() && WellFormedPriv(k)
    ensures WellFormedPub(r) && r.info == k.info && r.point == prims.mulG(k.exponent)
  {
    PubKey(prims.mulG(k.exponent), k.info)
  }

  /** MasterPrivKey.fingerprint, through its public key */
  function PrivFingerprint(k: PrivKey, prims: Primitives): (r: seq<Byte>)
    requires prims.Valid() && WellFormedPriv(k)
    ensures |r| == 4 && r == prims.hash160(PubkeyBytes(PublicKeyOf(k, prims)))[..4]
  {
    Fingerprint(PublicKeyOf(k, prims), prims)
  }

  /** MasterPrivKey.from_seed: HMAC-SHA512 keyed with b'Bitcoin seed' gives
      the private key bytes and the chain code; n = 0, depth = 0 and a zero
      parent fingerprint. */
  function FromSeed(seed: seq<Byte>, prims: Primitives): (r: Result<PrivKey>)
    ensures r.Ok? ==> && WellFormedPriv(r.value)
                      && r.value.info.n == 0 && r.value.info.depth == 0
                      && r.value.info.parentFingerprint == [0, 0, 0, 0]
    ensures prims.Valid() ==>
              var h := prims.hmacSha512(SEED_KEY, seed);
              && (r.Ok? <==> 1 <= BytesToInt(h[..32]) < ORDER)
              && (r.Ok? ==> PrivkeyBytes(r.value) == h[..32] && r.value.info.chainCode == h[32..])
  {
    var h := prims.hmacSha512(SEED_KEY, seed);
    NewPrivKeyFromBytes(Take(h, 32), Drop(h, 32), 0, 0, Zeros(4))
  }

  /** The payload of _KeyBase.WIF: the version byte, the 32 key bytes and a
      trailing 0x01 when the key is to be used compressed. */
  function WifPayload(k: PrivKey, wifByte: Byte, compressed: bool := true): (r: seq<Byte>)
    requires WellFormedPriv(k)
    ensures |r| == if compressed then 34 else 33
    ensures r[0] == wifByte && r[1..33] == PrivkeyBytes(k)
    ensures compressed ==> r[33] == 1
  {
    [wifByte] + PrivkeyBytes(k) + (if compressed then [1] else [])
  }

  /** _KeyBase.WIF: the Base58Check form of the payload, which decodes back
      to it */
  function Wif(k: PrivKey, wifByte: Byte, prims: Primitives, compressed: bool := true): (r: string)
    requires WellFormedPriv(k)
    ensures prims.Valid() ==> prims.decodeCheck(r) == Some(WifPayload(k, wifByte, compressed))
  {
    prims.encodeCheck(WifPayload(k, wifByte, compressed))
  }

  /** Reference reading of a WIF payload: version byte, exponent, compressed flag */
  function WifParse(payload: seq<Byte>): Option<(Byte, nat, bool)>
  {
    if |payload| == 33 then Some((payload[0], BytesToInt(payload[1..33]), false))
    else if |payload| == 34 && payload[33] == 1 then Some((payload[0], BytesToInt(payload[1..33]), true))
    else None
  }

  /** The WIF string decodes to a payload from which the version byte, the
      secret exponent and the compressed flag are recovered. */
  lemma WifRoundTrip(k: PrivKey, wifByte: Byte, compressed: bool, prims: Primitives)
    requires prims.Valid() && WellFormedPriv(k)
    ensures prims.decodeCheck(Wif(k, wifByte, prims, compressed)).Some?
    ensures WifParse(prims.decodeCheck(Wif(k, wifByte, prims, compressed)).value)
            == Some((wifByte, k.exponent, compressed))
  {
    var p := WifPayload(k, wifByte, compressed);
    assert prims.decodeCheck(prims.encodeCheck(p)) == Some(p);
  }

  // ---------------------------------------------------------------------------
  // The 78-byte extended key

  /** _KeyBase._extended_key: ver ∥ depth ∥ parent fingerprint ∥ BE32(n) ∥
      chain code ∥ 33-byte key payload. */
  function ExtendedKeyBytes(info: KeyInfo, verBytes: seq<Byte>, rawSerkey: seq<Byte>): (r: Result<seq<Byte>>)
    requires ValidInfo(info)
    ensures r.Ok? <==> |verBytes| == 4 && |rawSerkey| == 33
    ensures |verBytes| != 4 ==> r == Err(BadVerBytes)
    ensures |verBytes| == 4 && |rawSerkey| != 33 ==> r == Err(BadRawSerkey)
    ensures r.Ok? ==> && |r.value| == 78
                      && r.value[..4] == verBytes
                      && r.value[4] == info.depth
                      && r.value[5..9] == info.parentFingerprint
                      && BytesToInt(r.value[9..13]) == info.n
                      && r.value[13..45] == info.chainCode
                      && r.value[45..] == rawSerkey
  {
    if |verBytes| != 4 then Err(BadVerBytes)
    else if |rawSerkey| != 33 then Err(BadRawSerkey)
    else
      var e := verBytes + [info.depth] + info.parentFingerprint + ToBytesBE(info.n, 4)
               + info.chainCode + rawSerkey;
      assert e[9..13] == ToBytesBE(info.n, 4);
      Pow256Values();
      BytesToIntOfToBytesBE(info.n, 4);
      Ok(e)
  }

  /** MasterPubKey.extended_key */
  function PubExtendedKey(k: PubKey, verBytes: seq<Byte>): (r: Result<seq<Byte>>)
    requires WellFormedPub(k)
    ensures r.Ok? <==> |verBytes| == 4
    ensures r.Ok? ==> |r.value| == 78 && r.value[45..] == PubkeyBytes(k)
  {
    ExtendedKeyBytes(k.info, verBytes, PubkeyBytes(k))
  }

  /** MasterPrivKey.extended_key: the payload is 0x00 then the 32 key bytes */
  function PrivExtendedKey(k: PrivKey, verBytes: seq<Byte>): (r: Result<seq<Byte>>)
    requires WellFormedPriv(k)
    ensures r.Ok? <==> |verBytes| == 4
    ensures r.Ok? ==> |r.value| == 78 && r.value[45] == 0 && r.value[46..] == PrivkeyBytes(k)
  {
    var e :- ExtendedKeyBytes(k.info, verBytes, [0] + PrivkeyBytes(k));
    assert e[46..] == e[45..][1..];
    Ok(e)
  }

  function ExtendedKeyOf(key: ExtendedKey, verBytes: seq<Byte>): Result<seq<Byte>>
    requires WellFormed(key)
  {
    match key
    case Public(k) => PubExtendedKey(k, verBytes)
    case Private(k) => PrivExtendedKey(k, verBytes)
  }

  /** _KeyBase.extended_key_string */
  function ExtendedKeyString(key: ExtendedKey, verBytes: seq<Byte>, prims: Primitives): (r: Result<string>)
    requires WellFormed(key)
    ensures r.Ok? <==> |verBytes| == 4
  {
    var e :- ExtendedKeyOf(key, verBytes);
    Ok(prims.encodeCheck(e))
  }

  /** _from_extended_key: read depth, fingerprint, child number and chain code
      at their offsets and dispatch on byte 45. */
  function FromExtendedKey(ekey: seq<Byte>, prims: Primitives): (r: Result<ExtendedKey>)
    ensures |ekey| != 78 ==> r == Err(BadExtendedKeyLength)
    ensures |ekey| == 78 ==>
              (r.Ok? <==> if ekey[45] == 0 then 1 <= BytesToInt(ekey[46..]) < ORDER
                          else VerifyingKeyFromPubkey(ekey[45..], prims).Ok?)
    ensures r.Ok? ==> && |ekey| == 78 && WellFormed(r.value)
                      && (r.value.Private? <==> ekey[45] == 0)
                      && InfoOf(r.value) == KeyInfo(ekey[13..45], BytesToInt(ekey[9..13]), ekey[4], ekey[5..9])
    ensures r.Ok? && r.value.Public? ==> PubkeyBytes(r.value.pub) == ekey[45..]
    ensures r.Ok? && r.value.Private? ==> PrivkeyBytes(r.value.priv) == ekey[46..]
    ensures |ekey| == 78 && ekey[45] != 0 && r.Err? ==> r == Err(VerifyingKeyFromPubkey(ekey[45..], prims).error)
    ensures |ekey| == 78 && ekey[45] == 0 && r.Err? ==> r == Err(InvalidExponent)
  {
    if |ekey| != 78 then Err(BadExtendedKeyLength)
    else
      var depth := ekey[4];
      var parentFingerprint := ekey[5..9];
      var n := BytesToInt(ekey[9..13]);
      var chainCode := ekey[13..45];
      Pow256Values();
      if ekey[45] != 0 then
        var k :- NewPubKeyFromBytes(ekey[45..], chainCode, n, depth, parentFingerprint, prims);
        Ok(Public(k))
      else
        var k :- NewPrivKeyFromBytes(ekey[46..], chainCode, n, depth, parentFingerprint);
        Ok(Private(k))
  }

  /** from_extended_key_string: Base58Check-decode, parse, and return the key
      with the 4 version bytes. */
  function FromExtendedKeyString(ekeyStr: string, prims: Primitives): (r: Result<(ExtendedKey, seq<Byte>)>)
    ensures prims.decodeCheck(ekeyStr).None? ==> r == Err(Base58Error)
    ensures r.Ok? ==> && prims.decodeCheck(ekeyStr).Some?
                      && FromExtendedKey(prims.decodeCheck(ekeyStr).value, prims) == Ok(r.value.0)
                      && r.value.1 == prims.decodeCheck(ekeyStr).value[..4]
    ensures prims.decodeCheck(ekeyStr).Some? ==>
              var parsed := FromExtendedKey(prims.decodeCheck(ekeyStr).value, prims);
              && (r.Ok? <==> parsed.Ok?)
              && (parsed.Err? ==> r == Err(parsed.error))
  {
    match prims.decodeCheck(ekeyStr)
    case None => Err(Base58Error)
    case Some(ekey) =>
      var key :- FromExtendedKey(ekey, prims);
      Ok((key, ekey[..4]))
  }

  /** Parsing the serialised private key gives back the same key. */
  lemma PrivExtendedKeyRoundTrip(k: PrivKey, verBytes: seq<Byte>, prims: Primitives)
    requires WellFormedPriv(k) && |verBytes| == 4
    ensures PrivExtendedKey(k, verBytes).Ok?
    ensures FromExtendedKey(PrivExtendedKey(k, verBytes).value, prims) == Ok(Private(k))
  {
    var e := PrivExtendedKey(k, verBytes).value;
    var r := FromExtendedKey(e, prims);
    assert BytesToInt(e[46..]) == k.exponent;
    assert r.Ok? && r.value.Private?;
    assert BytesToInt(PrivkeyBytes(r.value.priv)) == r.value.priv.exponent;
  }

  /** Parsing the serialised public key gives a public key with the same
      depth, child number, parent fingerprint, chain code and key bytes,
      provided the key's x has a square root for the library to find. */
  lemma PubExtendedKeyRoundTrip(k: PubKey, verBytes: seq<Byte>, prims: Primitives)
    requires WellFormedPub(k) && |verBytes| == 4
    requires prims.sqrtModP(CurveRhs(k.point.x)).Some?
    ensures PubExtendedKey(k, verBytes).Ok?
    ensures var r := FromExtendedKey(PubExtendedKey(k, verBytes).value, prims);
            && r.Ok? && r.value.Public?
            && r.value.pub.info == k.info
            && PubkeyBytes(r.value.pub) == PubkeyBytes(k)
  {
    var e := PubExtendedKey(k, verBytes).value;
    assert e[45..] == PubkeyBytes(k);
    assert e[45] == PubkeyBytes(k)[0];
    assert BytesToInt(e[45..][1..]) == k.point.x;
  }

  /** When the library's square root is one of the two roots of the point,
      parsing gives back exactly the serialised public key. */
  lemma PubExtendedKeyRoundTripExact(k: PubKey, verBytes: seq<Byte>, prims: Primitives)
    requires WellFormedPub(k) && |verBytes| == 4 && IsRootChoice(prims, k.point)
    ensures PubExtendedKey(k, verBytes).Ok?
    ensures FromExtendedKey(PubExtendedKey(k, verBytes).value, prims) == Ok(Public(k))
  {
    var e := PubExtendedKey(k, verBytes).value;
    assert e[45..] == PubkeyBytes(k);
    assert e[45] == PubkeyBytes(k)[0];
    DecompressCompressed(k.point, prims);
  }

  /** The text form round-trips for both kinds of key, and the version bytes
      come back as the first four bytes. */
  lemma ExtendedKeyStringRoundTrip(key: ExtendedKey, verBytes: seq<Byte>, prims: Primitives)
    requires prims.Valid() && WellFormed(key) && |verBytes| == 4
    requires key.Public? ==> IsRootChoice(prims, key.pub.point)
    ensures ExtendedKeyString(key, verBytes, prims).Ok?
    ensures FromExtendedKeyString(ExtendedKeyString(key, verBytes, prims).value, prims) == Ok((key, verBytes))
  {
    var e := ExtendedKeyOf(key, verBytes).value;
    assert prims.decodeCheck(prims.encodeCheck(e)) == Some(e);
    match key
    case Public(k) =>
      PubExtendedKeyRoundTripExact(k, verBytes, prims);
    case Private(k) =>
      PrivExtendedKeyRoundTrip(k, verBytes, prims);
  }

  // ---------------------------------------------------------------------------
  // Child derivation

  /** _KeyBase._hmac_sha512: the HMAC keyed with `key`, split after 32 bytes */
  function HmacSplit(key: seq<Byte>, msg: seq<Byte>, prims: Primitives): (r: (seq<Byte>, seq<Byte>))
    ensures prims.Valid() ==> && |r.0| == 32 && |r.1| == 32
                              && r.0 + r.1 == prims.hmacSha512(key, msg)
  {
    var h := prims.hmacSha512(key, msg);
    (Take(h, 32), Drop(h, 32))
  }

  /** MasterPubKey.child_verkey_R */
  function PubChildVerkeyR(k: PubKey, n: int, prims: Primitives): (r: Result<(Point, seq<Byte>)>)
    requires WellFormedPub(k)
    ensures !(0 <= n < HARDENED) ==> r == Err(InvalidPublicChildNumber)
    ensures 0 <= n < HARDENED ==>
              var (left, right) := HmacSplit(k.info.chainCode, PubkeyBytes(k) + ToBytesBE(n, 4), prims);
              var point := prims.add(prims.mulG(BytesToInt(left)), k.point);
              && (r.Ok? <==> BytesToInt(left) < ORDER && point != Infinity)
              && (r.Err? ==> r.error == DerivationError)
              && (r.Ok? ==> r.value == (point, right))
    ensures r.Ok? ==> r.value.0.Affine?
  {
    if !(0 <= n < HARDENED) then Err(InvalidPublicChildNumber)
    else
      var (left, right) := HmacSplit(k.info.chainCode, PubkeyBytes(k) + ToBytesBE(n, 4), prims);
      var l := BytesToInt(left);
      if l >= ORDER then Err(DerivationError)
      else
        var point := prims.add(prims.mulG(l), k.point);
        if point == Infinity then Err(DerivationError) else Ok((point, right))
  }

  /** The HMAC message of public derivation: the compressed key, then BE32(n). */
  lemma PubChildMessageLayout(k: PubKey, n: nat)
    requires WellFormedPub(k) && n < HARDENED
    ensures var msg := PubkeyBytes(k) + ToBytesBE(n, 4);
            && |msg| == 37 && msg[..33] == PubkeyBytes(k) && BytesToInt(msg[33..]) == n
            && msg[0] != 0
  {
    var msg := PubkeyBytes(k) + ToBytesBE(n, 4);
    assert msg[33..] == ToBytesBE(n, 4);
    Pow256Values();
    BytesToIntOfToBytesBE(n, 4);
  }

  /** MasterPubKey.child: depth + 1, child number n, the parent's fingerprint
      and the right half of the HMAC as chain code.  A depth-255 parent has
      no child, since the constructor rejects depth 256. */
  function PubChild(k: PubKey, n: int, prims: Primitives): (r: Result<PubKey>)
    requires WellFormedPub(k)
    ensures !(0 <= n < HARDENED) ==> r == Err(InvalidPublicChildNumber)
    ensures r.Ok? ==> && PubChildVerkeyR(k, n, prims).Ok?
                      && r.value.point == PubChildVerkeyR(k, n, prims).value.0
                      && r.value.info.chainCode == PubChildVerkeyR(k, n, prims).value.1
                      && r.value.info.n == n
                      && r.value.info.depth == k.info.depth + 1
                      && r.value.info.parentFingerprint == Fingerprint(k, prims)
    ensures k.info.depth == 255 ==> r.Err?
    ensures PubChildVerkeyR(k, n, prims).Err? ==> r == Err(PubChildVerkeyR(k, n, prims).error)
    ensures 0 <= n < HARDENED && PubChildVerkeyR(k, n, prims).Err? ==> r == Err(DerivationError)
    ensures prims.Valid() && PubChildVerkeyR(k, n, prims).Ok? && k.info.depth == 255 ==> r == Err(InvalidDepth)
    ensures prims.Valid() ==> (r.Ok? <==> PubChildVerkeyR(k, n, prims).Ok? && k.info.depth < 255)
    ensures prims.Valid() && r.Ok? ==> WellFormedPub(r.value)
  {
    var vr :- PubChildVerkeyR(k, n, prims);
    NewPubKeyFromPoint(vr.0, vr.1, n, k.info.depth + 1, Fingerprint(k, prims))
  }

  /** MasterPubKey.child_compressed_pubkey: the child's compressed key,
      without building the child (so without the depth check). */
  function ChildCompressedPubkey(k: PubKey, n: int, prims: Primitives): (r: Result<seq<Byte>>)
    requires WellFormedPub(k)
    ensures r.Ok? <==> PubChildVerkeyR(k, n, prims).Ok?
    ensures r.Err? ==> r.error == PubChildVerkeyR(k, n, prims).error
    ensures r.Ok? ==> |r.value| == 33 && (r.value[0] == 2 || r.value[0] == 3)
    ensures PubChild(k, n, prims).Ok? ==> r == Ok(PubkeyBytes(PubChild(k, n, prims).value))
    ensures r.Ok? ==> r.value == CompressedPubkey(PubChildVerkeyR(k, n, prims).value.0)
  {
    var vr :- PubChildVerkeyR(k, n, prims);
    Ok(CompressedPubkey(vr.0))
  }

  /** The HMAC message of private derivation: 0x00 and the private key bytes
      for a hardened n, the compressed public key otherwise; then BE32(n). */
  function PrivChildMessage(k: PrivKey, n: nat, prims: Primitives): (r: seq<Byte>)
    requires prims.Valid() && WellFormedPriv(k)
    ensures |r| == 37
  {
    (if n >= HARDENED then [0] + PrivkeyBytes(k) else PubkeyBytes(PublicKeyOf(k, prims)))
    + ToBytesBE(n, 4)
  }

  /** The message starts with a zero byte exactly when n is hardened. */
  lemma PrivChildMessageLayout(k: PrivKey, n: nat, prims: Primitives)
    requires prims.Valid() && WellFormedPriv(k) && n < TWO_32
    ensures var msg := PrivChildMessage(k, n, prims);
            && |msg| == 37 && BytesToInt(msg[33..]) == n
            && (msg[0] == 0 <==> n >= HARDENED)
            && (n >= HARDENED ==> msg[1..33] == PrivkeyBytes(k))
            && (n < HARDENED ==> msg[..33] == PubkeyBytes(PublicKeyOf(k, prims)))
  {
    var msg := PrivChildMessage(k, n, prims);
    assert msg[33..] == ToBytesBE(n, 4);
    Pow256Values();
    BytesToIntOfToBytesBE(n, 4);
  }

  /** The part of MasterPrivKey.child after the HMAC, given the parent's
      fingerprint: the child's secret is (L + k) mod n, where k is the value
      of the parent's key bytes, that is its secret exponent (PrivkeyBytes);
      L >= n or a zero result is a DerivationError.  L >= n is tested before
      the sum is taken, so that both operands are below n; the source tests
      the two conditions together and raises the same error for either. */
  function PrivChildOf(k: PrivKey, n: nat, left: seq<Byte>, right: seq<Byte>, fingerprint: seq<Byte>): (r: Result<PrivKey>)
    requires WellFormedPriv(k) && n < TWO_32 && |right| == 32 && |fingerprint| == 4
    ensures r.Ok? <==> BytesToInt(left) < ORDER && AddMod(BytesToInt(left), k.exponent) != 0 && k.info.depth < 255
    ensures BytesToInt(left) >= ORDER || AddMod(BytesToInt(left), k.exponent) == 0 ==> r == Err(DerivationError)
    ensures BytesToInt(left) < ORDER && AddMod(BytesToInt(left), k.exponent) != 0 && k.info.depth == 255 ==>
              r == Err(InvalidDepth)
    ensures r.Ok? ==> && WellFormedPriv(r.value)
                      && r.value.exponent == AddMod(BytesToInt(left), k.exponent)
                      && r.value.info == KeyInfo(right, n, k.info.depth + 1, fingerprint)
  {
    var l := BytesToInt(left);
    if l >= ORDER then Err(DerivationError)
    else
      var exponent := AddMod(l, k.exponent);
      if exponent == 0 then Err(DerivationError)
      else
        assert PrivkeySecretExponent(ExponentToBytes(exponent)) == Ok(exponent);
        NewPrivKeyFromBytes(ExponentToBytes(exponent), right, n, k.info.depth + 1, fingerprint)
  }

  /** MasterPrivKey.child */
  function PrivChild(k: PrivKey, n: int, prims: Primitives): (r: Result<PrivKey>)
    requires prims.Valid() && WellFormedPriv(k)
    ensures !(0 <= n < TWO_32) ==> r == Err(InvalidPrivateChildNumber)
    ensures 0 <= n < TWO_32 ==>
              var (left, right) := HmacSplit(k.info.chainCode, PrivChildMessage(k, n, prims), prims);
              r == PrivChildOf(k, n, left, right, PrivFingerprint(k, prims))
  {
    if !(0 <= n < TWO_32) then Err(InvalidPrivateChildNumber)
    else
      var (left, right) := HmacSplit(k.info.chainCode, PrivChildMessage(k, n, prims), prims);
      PrivChildOf(k, n, left, right, PrivFingerprint(k, prims))
  }

  /** Normal private derivation and public derivation agree: the public key
      of the private child at n < 2^31 is the public child of the public key,
      and one fails exactly when the other does. */
  lemma PublicOfPrivChild(k: PrivKey, n: int, prims: Primitives)
    requires prims.Valid() && WellFormedPriv(k) && 0 <= n < HARDENED
    ensures PrivChild(k, n, prims).Ok? <==> PubChild(PublicKeyOf(k, prims), n, prims).Ok?
    ensures PrivChild(k, n, prims).Ok? ==>
              PubChild(PublicKeyOf(k, prims), n, prims) == Ok(PublicKeyOf(PrivChild(k, n, prims).value, prims))
  {
    var (left, right) := HmacSplit(k.info.chainCode, PubkeyBytes(PublicKeyOf(k, prims)) + ToBytesBE(n, 4), prims);
    PrivChildNormal(k, n, prims);
    PubChildOfPublicKey(k, n, left, right, prims);
    PublicOfPrivChildOf(k, n, left, right, PrivFingerprint(k, prims), prims);
  }

  /** The agreement once L and R are known: the public key of the private
      child is the public child given by PubChildOfPublicKey. */
  lemma PublicOfPrivChildOf(k: PrivKey, n: nat, left: seq<Byte>, right: seq<Byte>, fingerprint: seq<Byte>, prims: Primitives)
    requires prims.Valid() && WellFormedPriv(k) && n < HARDENED && |right| == 32 && |fingerprint| == 4
    ensures var c := PrivChildOf(k, n, left, right, fingerprint);
            c.Ok? ==> PublicKeyOf(c.value, prims)
                      == PubKey(prims.mulG(AddMod(BytesToInt(left), k.exponent)), KeyInfo(right, n, k.info.depth + 1, fingerprint))
  {
  }

  /** For n < 2^31 the private derivation message is the public one. */
  lemma PrivChildNormal(k: PrivKey, n: nat, prims: Primitives)
    requires prims.Valid() && WellFormedPriv(k) && n < HARDENED
    ensures var (left, right) := HmacSplit(k.info.chainCode, PubkeyBytes(PublicKeyOf(k, prims)) + ToBytesBE(n, 4), prims);
            PrivChild(k, n, prims) == PrivChildOf(k, n, left, right, PrivFingerprint(k, prims))
  {
    assert PrivChildMessage(k, n, prims) == PubkeyBytes(PublicKeyOf(k, prims)) + ToBytesBE(n, 4);
  }

  /** Public derivation from the public key of k, in terms of L and R: the
      child exists iff L < n, (L + k) mod n is not 0 and the depth allows it,
      and its point is ((L + k) mod n)*G. */
  lemma PubChildOfPublicKey(k: PrivKey, n: nat, left: seq<Byte>, right: seq<Byte>, prims: Primitives)
    requires prims.Valid() && WellFormedPriv(k) && n < HARDENED
    requires HmacSplit(k.info.chainCode, PubkeyBytes(PublicKeyOf(k, prims)) + ToBytesBE(n, 4), prims) == (left, right)
    ensures var p := PubChild(PublicKeyOf(k, prims), n, prims);
            && (p.Ok? <==> BytesToInt(left) < ORDER && AddMod(BytesToInt(left), k.exponent) != 0 && k.info.depth < 255)
            && (p.Ok? ==> p.value == PubKey(prims.mulG(AddMod(BytesToInt(left), k.exponent)),
                                            KeyInfo(right, n, k.info.depth + 1, PrivFingerprint(k, prims))))
  {
    VerkeyOfPrivate(k, n, left, right, prims);
  }

  /** The verifying key and R of public derivation from the public key of k */
  lemma VerkeyOfPrivate(k: PrivKey, n: nat, left: seq<Byte>, right: seq<Byte>, prims: Primitives)
    requires prims.Valid() && WellFormedPriv(k) && n < HARDENED
    requires HmacSplit(k.info.chainCode, PubkeyBytes(PublicKeyOf(k, prims)) + ToBytesBE(n, 4), prims) == (left, right)
    ensures var verkey := PubChildVerkeyR(PublicKeyOf(k, prims), n, prims);
            && (verkey.Ok? <==> BytesToInt(left) < ORDER && AddMod(BytesToInt(left), k.exponent) != 0)
            && (verkey.Ok? ==> verkey.value == (prims.mulG(AddMod(BytesToInt(left), k.exponent)), right))
  {
    if BytesToInt(left) < ORDER {
      SumOfMultiples(prims, BytesToInt(left), k.exponent);
    }
  }

  /** l*G + e*G is ((l + e) mod n)*G, which is infinity exactly when that
      exponent is 0. */
  lemma SumOfMultiples(prims: Primitives, l: nat, e: nat)
    requires prims.Valid() && l < ORDER && e < ORDER
    ensures prims.add(prims.mulG(l), prims.mulG(e)) == prims.mulG(AddMod(l, e))
    ensures prims.mulG(AddMod(l, e)) == Infinity <==> AddMod(l, e) == 0
  {
  }


}
