/** The cryptographic collaborators of the key-derivation code, which come from
    libraries outside the wallet core: HMAC-SHA512, hash160, the secp256k1
    group operations, the modular square root and Base58Check.  They are the
    fields of a `Primitives` value that every operation needing them takes as a
    parameter; `Valid` lists the only facts about them the proofs rely on. */
module Crypto {
  import opened Errors
  import opened Util

  /** Group order n of secp256k1 */
  const ORDER: nat := 0xFFFFFFFFFFFFFFFFFFFFFFFFFFFFFFFEBAAEDCE6AF48A03BBFD25E8CD0364141
  /** The prime p of the field of secp256k1 */
  const FIELD_P: nat := 0xFFFFFFFFFFFFFFFFFFFFFFFFFFFFFFFFFFFFFFFFFFFFFFFFFFFFFFFEFFFFFC2F
  /** secp256k1 is y^2 = x^3 + 7; its coefficient a is 0 */
  const CURVE_B: nat := 7

  /** A curve point; the point at infinity is its own value and is never a
      pair of coordinates. */
  datatype Point = Infinity | Affine(x: nat, y: int)

  datatype Primitives = Primitives(
    /** hmac_sha512(key, msg) */
    hmacSha512: (seq<Byte>, seq<Byte>) -> seq<Byte>,
    /** hash160(data) = RIPEMD160(SHA256(data)) */
    hash160: seq<Byte> -> seq<Byte>,
    /** generator * k */
    mulG: nat -> Point,
    /** point addition */
    add: (Point, Point) -> Point,
    /** square_root_mod_prime(a, p); None when a is not a square mod p */
    sqrtModP: nat -> Option<nat>,
    /** Base58.encode_check */
    encodeCheck: seq<Byte> -> string,
    /** Base58.decode_check; None when the string or its checksum is bad */
    decodeCheck: string -> Option<seq<Byte>>)
  {
    /** What the model assumes of the libraries: output lengths of the two
        hashes; for k < n, that k*G is finite iff k != 0; that k*G + l*G is
        ((k + l) mod n)*G for k, l < n; that the x coordinates of k*G and of
        sums are below p; and that Base58Check decoding undoes encoding. */
    ghost predicate Valid()
    {
      && (forall key, msg :: |hmacSha512(key, msg)| == 64)
      && (forall data :: |hash160(data)| == 20)
      && mulG(0) == Infinity
      && (forall k: nat :: 1 <= k < ORDER ==> mulG(k).Affine?)
      && (forall k: nat :: mulG(k).Affine? ==> mulG(k).x < FIELD_P)
      && (forall p, q :: add(p, q).Affine? ==> add(p, q).x < FIELD_P)
      && (forall k: nat, l: nat {:trigger add(mulG(k), mulG(l))} ::
            k < ORDER && l < ORDER ==> add(mulG(k), mulG(l)) == mulG(AddMod(k, l)))
      && (forall b :: decodeCheck(encodeCheck(b)) == Some(b))
    }
  }

  /** (a + b) mod n for a, b < n, written as the one subtraction it takes */
  function AddMod(a: nat, b: nat): (r: nat)
    requires a < ORDER && b < ORDER
    ensures r < ORDER
  {
    if a + b < ORDER then a + b else a + b - ORDER
  }

  lemma AddModIsMod(a: nat, b: nat)
    requires a < ORDER && b < ORDER
    ensures AddMod(a, b) == (a + b) % ORDER
  {
  }
}
