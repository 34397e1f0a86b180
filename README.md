# Electron wallet core: BIP32 keys, byte codecs, gap-limit key lists

This project models in Dafny the key-handling core of the Electron wallet, and it proves properties of that model. The model has four parts.

- **BIP32 extended keys** (`bip32.dfy`, module `Bip32`).
  - Construction checks of chain code, child number, depth and parent fingerprint.
  - Compression and decompression of secp256k1 public keys.
  - Public and private child derivation.
  - The 32-byte padded scalar, the WIF payload, and the 78-byte extended key with its parser.
- **Byte and integer helpers** (`util.dfy`, module `Util`).
  - Big-endian bytes to integer and back, `int_to_bytes`, the Bitcoin varint, and `chunks`.
- **Public-key bytes** (`keys.dfy`, module `Keys`).
  - The SEC1 validator, `is_compressed` and the hex text form.
- **Gap-limit key lists and accounts** (`account.dfy`, module `Accounts`).
  - These are classes with mutable state.
  - A key list is an append-only `seq` of derived keys. `GenerateGap` extends it by a `while` loop.
  - The loop is proved against the specification function `Extend`. The list's properties are lemmas about that function: indices `0..N-1`, extent, idempotence, window and failure.
  - An account holds a `map` for address history.

Each `ValueError`, `DerivationError` and `KeyError` the core raises becomes an `Err` value of one `Error` datatype (`errors.dfy`). The few exceptions listed under "## Left out" are excluded by types or preconditions instead.

The libraries the code calls are fields of `Crypto.Primitives` (`crypto.dfy`). Each operation that needs them takes them as a parameter. They are:
- HMAC-SHA512 and hash160;
- the secp256k1 generator multiple and point addition;
- the square root mod p;
- Base58Check encode and decode.

`Primitives.Valid()` lists the facts the proofs use, and the lemmas that need them say so in a `requires`:
- the hashes are 64 and 20 bytes long;
- for `k < n`, `k*G` is finite iff `k != 0`;
- `k*G + l*G = ((k + l) mod n)*G` for `k, l < n`;
- the x coordinates of `k*G` and of point sums are below p;
- Base58Check decoding undoes encoding.

A key of depth 255 has no children: the child's constructor rejects depth 256 with the depth error. In private derivation, `L >= n` and a zero secret are tested first and give `DerivationError`; only a valid child secret at depth 255 gives the depth error.

`generate_gap(m)` stops at `end = m + gap_limit + 1`: it derives indices up to `m + gap_limit` inclusive, so from an empty list it makes `m + gap_limit + 1` keys (`Accounts.GenerateGapFromEmpty`).

## Model

| member | source | states |
|---|---|---|
| Bip32.NewKeyInfo | lib/bip32.py:31-47 | construction succeeds iff the chain code is 32 bytes, `0 <= n < 2^32`, `0 <= depth < 256` and the fingerprint is 4 bytes; a failure names the first check that fails, in the constructor's order |
| Bip32.ExponentToBytes | lib/bip32.py:277-279 | always 32 bytes; the big-endian value is the exponent whenever it is below 2^256 |
| Bip32.ExponentToBytesOfBytes | lib/bip32.py:277-279 | every 32-byte string is the padded encoding of its own value |
| Bip32.PrivkeySecretExponent | lib/bip32.py:201-213 | a length other than 32 is the length error; it is accepted iff its value is in `[1, n)`, and then the result is that value |
| Bip32.VerifyingKeyFromPubkey | lib/bip32.py:99-123 | a length other than 33, then a prefix outside {2, 3}, are rejected; decoding succeeds iff the library finds a square root of `x^3 + 7 mod p`; the point keeps x, and y is odd iff the prefix is 3 |
| Bip32.CompressedPubkey | lib/bip32.py:125-131 | 33 bytes; the prefix is `2 + (y & 1)`, so it is 3 iff y is odd; the rest is x in 32 big-endian bytes |
| Bip32.CompressDecompressed | lib/bip32.py:99-131 | compressing a decoded key gives back the 33 input bytes |
| Bip32.DecompressCompressed | lib/bip32.py:99-131 | decoding a compressed point gives back the same point whichever of the two roots the library returns |
| Bip32.PubkeyBytes | lib/bip32.py:133-136 | the compressed form: 33 bytes with prefix 2 or 3 |
| Bip32.Identifier | lib/bip32.py:174-176 | hash160 of the compressed key, 20 bytes |
| Bip32.Fingerprint | lib/bip32.py:73-75 | the first 4 bytes of the 20-byte identifier |
| Bip32.NewPubKeyFromPoint | lib/bip32.py:92-97 | the key exists iff the shared checks pass; it stores the point and the four fields unchanged |
| Bip32.NewPubKeyFromBytes | lib/bip32.py:92-97 | succeeds iff the shared checks pass and the bytes decode; a failure is the shared checks' error, else the decoding error; the key is well formed and its compressed form is the input bytes |
| Bip32.PrivkeyBytes | lib/bip32.py:222-225 | the 32 key bytes, whose big-endian value is the secret exponent |
| Bip32.NewPrivKeyFromBytes | lib/bip32.py:188-193 | succeeds iff the shared checks pass and the scalar is valid; a failure is the shared checks' error, else the scalar error; the key's bytes are the input bytes |
| Bip32.PublicKeyOf | lib/bip32.py:227-232 | the same chain code, child number, depth and parent fingerprint, with the finite point `k*G` |
| Bip32.PrivFingerprint | lib/bip32.py:268-270 | a private key's fingerprint is the first 4 bytes of hash160 of its public key's compressed bytes |
| Bip32.FromSeed | lib/bip32.py:215-220 | the root has `n = 0`, depth 0 and a zero fingerprint; it exists iff the left HMAC half is a valid scalar, whose bytes become the key, and the right half becomes the chain code |
| Bip32.WifPayload | lib/bip32.py:77-82 | the version byte, the 32 key bytes and a trailing 0x01 iff compressed (34 or 33 bytes); compressed by default |
| Bip32.Wif | lib/bip32.py:77-82 | the Base58Check decoding of the WIF string is the payload, compressed by default |
| Bip32.WifRoundTrip | lib/bip32.py:77-82 | the WIF string decodes to a payload giving back the version byte, the secret exponent and the compressed flag |
| Bip32.ExtendedKeyBytes | lib/bip32.py:56-71 | fails iff `ver_bytes` is not 4 bytes (first) or the key payload is not 33 bytes; otherwise 78 bytes laid out as `ver ∥ depth ∥ pfp ∥ BE32(n) ∥ chain code ∥ payload` |
| Bip32.PubExtendedKey | lib/bip32.py:178-180 | 78 bytes whose payload at offset 45 is the compressed key |
| Bip32.PrivExtendedKey | lib/bip32.py:272-274 | 78 bytes with 0x00 at offset 45 followed by the 32 key bytes |
| Bip32.ExtendedKeyString | lib/bip32.py:84-86 | fails exactly when the version bytes are not 4 bytes long |
| Bip32.FromExtendedKey | lib/bip32.py:281-297 | a length other than 78 is rejected; depth, fingerprint, `n` and chain code are read at offsets 4, 5:9, 9:13, 13:45; a private key results iff byte 45 is zero; parsing succeeds iff that key's own constructor accepts it; a failure is the decoding error for a public key and the exponent error for a private one |
| Bip32.FromExtendedKeyString | lib/bip32.py:300-315 | a bad Base58Check string is the Base58 error; otherwise it succeeds iff the decoded bytes parse, a parse error is passed on unchanged, and the result is the parsed key with the first 4 bytes as version bytes |
| Bip32.PrivExtendedKeyRoundTrip | lib/bip32.py:272-274 | parsing a private key's extended key gives back exactly that key |
| Bip32.PubExtendedKeyRoundTrip | lib/bip32.py:178-180 | parsing a public key's extended key gives back its depth, `n`, fingerprint, chain code and key bytes |
| Bip32.PubExtendedKeyRoundTripExact | lib/bip32.py:178-180 | when the library root is one of the point's two roots, parsing gives back exactly the public key |
| Bip32.ExtendedKeyStringRoundTrip | lib/bip32.py:84-86 | for both kinds of key, `from_extended_key_string(extended_key_string(ver))` is the key with `ver` |
| Bip32.HmacSplit | lib/bip32.py:49-54 | two 32-byte halves whose concatenation is the HMAC |
| Bip32.PubChildVerkeyR | lib/bip32.py:141-157 | `n` outside `[0, 2^31)` is rejected; otherwise the HMAC of pubkey ∥ BE32(n) under the chain code is split; the result is `L*G + K` with R; it is `DerivationError` iff `L >= n` or that sum is infinity |
| Bip32.PubChildMessageLayout | lib/bip32.py:145 | the public derivation message is 37 bytes: the compressed key, then n in 4 big-endian bytes |
| Bip32.PubChild | lib/bip32.py:159-162 | the child has depth + 1, child number `n`, the parent's fingerprint, the derived point and R as chain code; it exists iff derivation succeeds and the parent's depth is below 255; for a valid `n` a failed derivation is `DerivationError`, and a depth-255 parent gives the depth error |
| Bip32.ChildCompressedPubkey | lib/bip32.py:164-167 | succeeds iff `child_verkey_R` does, with its error; the result is the compressed derived point, also for a depth-255 parent, which has no child object; when the child exists it is the child's compressed key |
| Bip32.PrivChildMessage | lib/bip32.py:246-251 | the HMAC message of private derivation is 37 bytes; `PrivChildMessageLayout` gives its parts |
| Bip32.PrivChildMessageLayout | lib/bip32.py:246-251 | the private derivation message starts with 0x00 followed by the key bytes iff `n >= 2^31`; otherwise it starts with the public key's compressed bytes; it ends with BE32(n) |
| Bip32.PrivChildOf | lib/bip32.py:252-262 | with k the value of the parent's key bytes, the child exists iff `L < n`, `(L + k) mod n` is not 0 and the parent's depth is below 255; `L >= n` or a zero sum is `DerivationError` at any depth, and a valid sum at depth 255 is the depth error; the child's secret is `(L + k) mod n`, with depth + 1, child number `n`, the parent's fingerprint and R as chain code |
| Crypto.AddModIsMod | lib/bip32.py:255-257 | the single-subtraction sum used for the child secret is `(L + k) % n` for operands below n |
| Bip32.PrivChildNormal | lib/bip32.py:245-251 | for `n < 2^31` private derivation hashes the public key's compressed bytes and BE32(n), the same message as public derivation |
| Bip32.VerkeyOfPrivate | lib/bip32.py:141-157 | public derivation from the public key of k succeeds iff `L < n` and `(L + k) mod n` is not 0, and then gives the point `((L + k) mod n)*G` with R |
| Bip32.PubChildOfPublicKey | lib/bip32.py:159-162 | the public child of the public key of k exists iff `L < n`, `(L + k) mod n` is not 0 and the depth is below 255, and it is the point `((L + k) mod n)*G` with R, depth + 1, `n` and k's fingerprint |
| Bip32.PrivChild | lib/bip32.py:241-262 | `n` outside `[0, 2^32)` is rejected; otherwise the result is `PrivChildOf` of the HMAC halves of the message above |
| Bip32.PublicOfPrivChild | lib/bip32.py:141-162 | for `n < 2^31`, the public child of the public key is the public key of the private child, and one fails exactly when the other does |
| Util.BytesToInt | lib/util.py:97-99 | the value of `s` is below `256^|s|` |
| Util.BytesToIntConcat | lib/util.py:97-99 | the value of `a ∥ b` is `value(a) * 256^|b| + value(b)` |
| Util.BytesToIntLeadingZeros | lib/util.py:97-99 | prepending zero bytes does not change the value |
| Util.BytesToIntOfToBytesBE | lib/util.py:97-99 | reading the `len`-byte big-endian form of `v < 256^len` gives `v` |
| Util.ToBytesBEOfBytesToInt | lib/util.py:97-99 | writing the value of `s` in `|s|` bytes gives `s` |
| Util.BytesToIntInjective | lib/util.py:97-99 | byte strings of one length with one value are equal |
| Util.IntToBytes | lib/util.py:97-104 | `bytes_to_int(int_to_bytes(v)) == v` for every `v >= 0` |
| Util.IntToBytesMinimal | lib/util.py:102-104 | the length is `(bit_length(v) + 7) // 8`; the result is empty iff `v == 0` and has no leading zero byte when `v > 0` |
| Util.IntToBytesAtMost | lib/util.py:102-104 | a value below `256^k` takes at most k bytes |
| Util.IntToVarint | lib/util.py:107-118 | negative values raise the size error; the function returns nothing iff `v >= 2^64` |
| Util.VarintRoundTrip | lib/util.py:107-118 | the form is chosen by size: 1 byte below 253, then 0xfd, 0xfe and 0xff with 2, 4 and 8 little-endian bytes; the encoding decodes back to `v` |
| Util.LEToIntOfToBytesLE | lib/util.py:113-118 | the little-endian value of the packed bytes is `v` |
| Util.Chunks | lib/util.py:91-94 | a zero size is rejected; a negative size yields no chunks |
| Util.ChunksProperties | lib/util.py:91-94 | the chunks concatenate to the items; all but the last have `size` items and the last has 1 to `size`; there are `ceil(len/size)` chunks |
| Keys.ValidateBytes | lib/keys.py:18-28 | accepted iff 33 bytes with prefix 2 or 3 or 65 bytes with prefix 4; on success the input is returned unchanged; on failure the error carries the input's hex |
| Keys.Hex | lib/keys.py:59-60 | two characters per byte |
| Keys.HexAt | lib/keys.py:59-60 | byte i is written at positions 2i and 2i+1, high nibble first |
| Keys.UnhexHex | lib/keys.py:59-60 | the hex text determines the bytes |
| Keys.PublicKeyFromBytes | lib/keys.py:66-68 | succeeds iff the bytes validate, keeping them |
| Keys.IsCompressed | lib/keys.py:30-32 | holds iff the key is 33 bytes |
| Keys.CompressedForms | lib/keys.py:22-32 | on a validated key, compressed means prefix 2/3 and not compressed means the 65-byte prefix-4 form |
| Keys.PublicKeyToString | lib/keys.py:59-60 | twice as many characters as bytes, and they decode back to the key |
| Keys.HDPublicKeyFromBytes | lib/account.py:65 | validates like `PublicKey.from_bytes` and records the index |
| Accounts.DeriveEntry | lib/account.py:63-65 | succeeds iff the master's compressed child at `n` exists; the entry carries index `n < 2^31` and those bytes; a failure is the error of `child_compressed_pubkey`, which is `DerivationError` for a valid index |
| Accounts.ChildOf | lib/account.py:63-65 | the child function of a BIP32 list is `DeriveEntry` and keeps indices |
| Accounts.ExtendShape | lib/account.py:41-47 | extension only appends; the new entries are the derived keys for consecutive indices; without error all indices up to `end` are present, and with an error it is the error of the first missing index |
| Accounts.ExtendStepAfter | lib/account.py:38-39 | a successful `generate_key` leaves the remaining extension unchanged, and a failing one ends it |
| Accounts.GenerateGapIndexed | lib/account.py:38-47 | the invariant that entry indices are exactly `0..N-1` is preserved |
| Accounts.GenerateGapExtent | lib/account.py:41-47 | after success the list has `max(N, max_used + gap_limit + 1)` entries |
| Accounts.GenerateGapFromEmpty | lib/account.py:41-47 | from empty, exactly `max_used + gap_limit + 1` entries |
| Accounts.GenerateGapIdempotent | lib/account.py:41-47 | a second call with the same or a smaller `max_used` adds nothing |
| Accounts.GenerateGapWindow | lib/account.py:41-52 | no appended key is beyond the limit for the same `max_used`, and index `max_used + gap_limit` exists afterwards |
| Accounts.GenerateGapFailure | lib/account.py:41-47 | on an error the list stays short of `max_used + gap_limit + 1`, and the error is the derivation error of the next index |
| Accounts.GenerateGapBlocked | lib/account.py:41-47 | a window covering an index that cannot be derived ends in an error, the error of the first index that fails (index 2^31, for example, always fails for public derivation) |
| Accounts.PubKeyList.constructor | lib/account.py:15-16 | the list starts empty |
| Accounts.PubKeyList.IsBeyondLimit | lib/account.py:18-19 | never beyond the limit |
| Accounts.PubKeyList.GenerateGap | lib/account.py:21-22 | changes nothing |
| Accounts.BIP32PubKeyList.constructor | lib/account.py:27-33 | an empty list with the given gap limit, its child function the master's public derivation |
| Accounts.BIP32PubKeyList.GenerateKey | lib/account.py:38-39 | appends `child(n)`; when the child raises, the list is unchanged and the error is returned |
| Accounts.BIP32PubKeyList.GenerateGap | lib/account.py:41-47 | the new list and error are those of `Extend` from `last.n + 1` (or 0) to `max_used + gap_limit + 1`; it keeps the list indexed and adds no key beyond the limit |
| Accounts.BIP32PubKeyList.IsBeyondLimit | lib/account.py:49-52 | for `max_used >= -1`, a key is beyond the limit iff its index is at least `max_used + gap_limit + 1`, the end of `generate_gap`'s range; such an index is at least `gap_limit` |
| Accounts.NewBIP32PubKeyList | lib/account.py:27-33 | fails with the gap-limit error iff `gap_limit < 1`; otherwise a fresh empty list |
| Accounts.Account.constructor | lib/account.py:79-82 | a fresh account has empty history |
| Accounts.Account.SetAddressHistory | lib/account.py:89-91 | `history[addr] = hist`, every other entry unchanged |
| Accounts.NewBIP32Account | lib/account.py:100-104 | the receiving list is rooted at `child(0)` and the change list at `child(1)`, with their gap limits, both empty; the failures come in the constructor's order |

## Left out

- Type checks (`isinstance`, the `TypeError` branches) are not modelled. Dafny's types already fix bytes, integers and key kinds.
- The elliptic-curve arithmetic, the square root mod p, HMAC-SHA512, hash160 and Base58Check are not modelled. They come from libraries that are not part of this model, and only the facts in `Primitives.Valid()` are assumed of them.
- The point checks `ecdsa` makes when it builds a verifying key are library behaviour and are not modelled. An x of p or more is accepted here as it is decoded.
- Bip32.PubExtendedKeyRoundTrip: it requires that the library finds a square root of `x^3 + 7` for the key's x. That holds for every real curve point, but `Primitives.Valid()` does not state it.
- Bip32.PubExtendedKeyRoundTripExact and Bip32.ExtendedKeyStringRoundTrip: they also require that the library's root is one of the point's own two roots.
- `Bip32.FromSeed`, `Bip32.HmacSplit`: the HMAC is opaque. Their contracts speak of its halves, not of its value.
- `Bip32.Wif`: `WIF` is defined on the shared base class and reads `privkey_bytes`, so on a public key Python raises `AttributeError`. It is modelled on private keys only. The WIF byte has the `Byte` type, so the `ValueError` of `bytearray([wif_byte])` for other values is not modelled.
- The `pfingerprint=bytes(4)` default of the two key constructors is not modelled. Callers pass the fingerprint, and `Bip32.FromSeed` passes four zero bytes.
- `Util.IntToBytes`: modelled on non-negative integers. Python raises `OverflowError` for negative values, and no caller in the core passes one.
- `Util.Chunks`: modelled on sequences. Python's `chunks` also accepts any sliceable value, and it is a lazy generator.
- `Accounts.BIP32PubKeyList.GenerateGap`: the `print` in the loop is I/O and is left out.
- `Accounts.BIP32PubKeyList.IsBeyondLimit`: the assertion `isinstance(pubkey, BIP32PublicKey)` names a class that does not exist, so Python would raise `NameError`. The entry's index is used instead.
- `HDPubKeyList.child` raises `NotImplementedError`. Only the BIP32 list supplies a child function, so `HDPubKeyList` and `BIP32PubKeyList` are one class here.
- `Keys.PublicKeyFromBytes`, `Keys.IsCompressed` and `Keys.PublicKeyToString` model `PublicKey` as a subclass of `PublicKeyBase`. As written, `class PublicKey(namedtuple(...))` does not list `PublicKeyBase` as a base class, and `namedtuple` is not imported. So `from_bytes` would call a missing `_validate_bytes`, and `is_compressed` and `__str__` would not be methods of `PublicKey`. The model follows the evident intent.
- `HDPublicKey` and the `to_bytes` helper of lib/keys.py are imported but not defined in the source. `HDPublicKey` is modelled on `PublicKey` with an index added. `to_bytes` is taken to be the identity on bytes.
- `PublicKey.from_string` and the `hex_to_bytes` it calls (lib/util.py:127) are not modelled. Parsing hex text into a key is outside the modelled core, which starts from bytes.
- `Account.sync`, `Account.sync_gap_limit` and the `gap_check_event` signal in `set_address_history` are not modelled. They are asynchronous and event-driven, and they reference attributes that do not exist.
- The Python `assert` statements on `max_used >= -1` in `generate_gap` and `is_beyond_limit` are preconditions of `GenerateGap`, `BeyondLimit` and `IsBeyondLimit` here.
- The `address`, `to_script` and scripthash members of lib/keys.py are not modelled. `address` on the BIP32 keys is not modelled either. They depend on address and script code that is not part of this model.
- `cachedproperty` memoisation is not modelled. The memoised values are functions of immutable fields.
