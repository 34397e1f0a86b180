/** Raw public keys (lib/keys.py): validation of SEC1 bytes, the compressed
    test and the hexadecimal text form. */
module Keys {
  import opened Errors
  import opened Util

  /** The SEC1 forms the validator accepts: compressed (33 bytes, prefix 2
      or 3) and uncompressed (65 bytes, prefix 4). */
  predicate IsSec1(pubkey: seq<Byte>)
  {
    || (|pubkey| == 33 && (pubkey[0] == 2 || pubkey[0] == 3))
    || (|pubkey| == 65 && pubkey[0] == 4)
  }

  // ---------------------------------------------------------------------------
  // Hexadecimal, as bytes.hex() writes it

  /** A lower-case hex digit: '0'..'9', then 'a'..'f' */
  function HexDigit(d: int): (c: char)
    requires 0 <= d < 16
    ensures ('0' <= c <= '9') || ('a' <= c <= 'f')
  {
    if d < 10 then ('0' as int + d) as char else ('a' as int + d - 10) as char
  }

  /** The value of a lower-case hex digit */
  function DigitValue(c: char): Option<int>
  {
    if '0' <= c <= '9' then Some(c as int - '0' as int)
    else if 'a' <= c <= 'f' then Some(c as int - 'a' as int + 10)
    else None
  }

  /** One byte in hex, high nibble first */
  function HexByte(b: Byte): (r: string)
    ensures |r| == 2 && DigitValue(r[0]) == Some(b / 16) && DigitValue(r[1]) == Some(b % 16)
  {
    [HexDigit(b / 16), HexDigit(b % 16)]
  }

  /** bytes.hex(): two lower-case digits per byte */
  function Hex(bytes: seq<Byte>): (r: string)
    ensures |r| == 2 * |bytes|
  {
    if bytes == [] then "" else HexByte(bytes[0]) + Hex(bytes[1..])
  }

  /** Byte i of the input is written at positions 2i and 2i + 1. */
  lemma {:induction false} HexAt(bytes: seq<Byte>, i: int)
    requires 0 <= i < |bytes|
    ensures Hex(bytes)[2 * i..2 * i + 2] == HexByte(bytes[i])
  {
    var head := HexByte(bytes[0]);
    var tail := Hex(bytes[1..]);
    assert Hex(bytes) == head + tail;
    if i > 0 {
      HexAt(bytes[1..], i - 1);
      assert (head + tail)[2 * i..2 * i + 2] == tail[2 * i - 2..2 * i];
    }
  }

  /** Reference reading of a hex string back into bytes */
  function Unhex(s: string): Option<seq<Byte>>
    decreases |s|
  {
    if s == [] then Some([])
    else if |s| == 1 then None
    else
      match (DigitValue(s[0]), DigitValue(s[1]), Unhex(s[2..]))
      case (Some(hi), Some(lo), Some(rest)) =>
        if hi < 16 && lo < 16 then Some([hi * 16 + lo] + rest) else None
      case _ => None
  }

  /** The hex form determines the bytes. */
  lemma {:induction false} UnhexHex(bytes: seq<Byte>)
    ensures Unhex(Hex(bytes)) == Some(bytes)
  {
    if bytes != [] {
      var s := Hex(bytes);
      assert s == HexByte(bytes[0]) + Hex(bytes[1..]);
      assert s[2..] == Hex(bytes[1..]);
      UnhexHex(bytes[1..]);
      assert [bytes[0]] + bytes[1..] == bytes;
    }
  }

  // ---------------------------------------------------------------------------
  // PublicKeyBase / PublicKey

  /** PublicKeyBase._validate_bytes: the input unchanged when it is a SEC1
      key; otherwise the KeyError whose message carries the bytes in hex. */
  function ValidateBytes(pubkey: seq<Byte>): (r: Result<seq<Byte>>)
    ensures r.Ok? <==> IsSec1(pubkey)
    ensures r.Ok? ==> r.value == pubkey
    ensures r.Err? ==> r.error.InvalidPublicKey? && Unhex(r.error.hex) == Some(pubkey)
  {
    if |pubkey| == 33 && (pubkey[0] == 2 || pubkey[0] == 3) then Ok(pubkey)
    else if |pubkey| == 65 && pubkey[0] == 4 then Ok(pubkey)
    else
      UnhexHex(pubkey);
      Err(InvalidPublicKey(Hex(pubkey)))
  }

  /** PublicKey, the named tuple of one field */
  datatype PublicKey = PublicKey(pubkey: seq<Byte>)

  /** PublicKey.from_bytes */
  function PublicKeyFromBytes(pubkey: seq<Byte>): (r: Result<PublicKey>)
    ensures r.Ok? <==> IsSec1(pubkey)
    ensures r.Ok? ==> r.value.pubkey == pubkey
    ensures r.Err? ==> r == Err(InvalidPublicKey(Hex(pubkey)))
  {
    var bytes :- ValidateBytes(pubkey);
    Ok(PublicKey(bytes))
  }

  /** PublicKeyBase.is_compressed */
  function IsCompressed(k: PublicKey): (r: bool)
    ensures r <==> |k.pubkey| == 33
  {
    |k.pubkey| == 33
  }

  /** On a validated key, compressed means the 2/3 form and not compressed
      means the 4 form. */
  lemma CompressedForms(pubkey: seq<Byte>)
    requires PublicKeyFromBytes(pubkey).Ok?
    ensures IsCompressed(PublicKeyFromBytes(pubkey).value) <==> pubkey[0] == 2 || pubkey[0] == 3
    ensures !IsCompressed(PublicKeyFromBytes(pubkey).value) <==> |pubkey| == 65 && pubkey[0] == 4
  {
  }

  /** PublicKeyBase.__str__ */
  function PublicKeyToString(k: PublicKey): (r: string)
    ensures |r| == 2 * |k.pubkey| && Unhex(r) == Some(k.pubkey)
  {
    UnhexHex(k.pubkey);
    Hex(k.pubkey)
  }

  /** HDPublicKey: a validated public key with its derivation index.  The
      class itself is not part of lib/keys.py as shown; it is modelled on
      PublicKey with the index added. */
  datatype HDPublicKey = HDPublicKey(pubkey: seq<Byte>, n: int)

  /** HDPublicKey.from_bytes(pubkey, n), validating as PublicKey.from_bytes does */
  function HDPublicKeyFromBytes(pubkey: seq<Byte>, n: int): (r: Result<HDPublicKey>)
    ensures r.Ok? <==> IsSec1(pubkey)
    ensures r.Ok? ==> r.value.pubkey == pubkey && r.value.n == n
    ensures r.Err? ==> r == Err(InvalidPublicKey(Hex(pubkey)))
  {
    var bytes :- ValidateBytes(pubkey);
    Ok(HDPublicKey(bytes, n))
  }
}
