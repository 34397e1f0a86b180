/** Gap-limit key lists and accounts (lib/account.py).  A key list is an
    append-only sequence of derived public keys; `GenerateGap` extends it so
    that `gapLimit` keys follow the highest used index.  The methods are
    proved against the specification function `Extend`, and the properties
    of the list (indices 0..N-1, extent, idempotence, the window) are lemmas
    about that function. */
module Accounts {
  import opened Errors
  import opened Util
  import opened Crypto
  import opened Bip32
  import opened Keys

  // ---------------------------------------------------------------------------
  // Specification of key generation

  /** BIP32PubKeyList.child: the child's compressed key, wrapped with its index */
  function DeriveEntry(master: PubKey, n: int, prims: Primitives): (r: Result<HDPublicKey>)
    requires WellFormedPub(master)
    ensures r.Ok? <==> ChildCompressedPubkey(master, n, prims).Ok?
    ensures r.Ok? ==> && r.value.n == n && 0 <= n < HARDENED
                      && r.value.pubkey == ChildCompressedPubkey(master, n, prims).value
    ensures !(0 <= n < HARDENED) ==> r == Err(InvalidPublicChildNumber)
    ensures r.Err? ==> r == Err(ChildCompressedPubkey(master, n, prims).error)
    ensures 0 <= n < HARDENED && r.Err? ==> r == Err(DerivationError)
  {
    var bytes :- ChildCompressedPubkey(master, n, prims);
    HDPublicKeyFromBytes(bytes, n)
  }

  /** A child function whose keys carry the index they were derived for */
  ghost predicate KeepsIndex(child: int -> Result<HDPublicKey>)
  {
    forall n :: child(n).Ok? ==> child(n).value.n == n
  }

  /** The child function a BIP32PubKeyList supplies to HDPubKeyList */
  function ChildOf(master: PubKey, prims: Primitives): (child: int -> Result<HDPublicKey>)
    requires WellFormedPub(master)
    ensures forall n :: child(n) == DeriveEntry(master, n, prims)
    ensures KeepsIndex(child)
  {
    n => DeriveEntry(master, n, prims)
  }

  /** The entry indices of the list are exactly 0, 1, ..., N-1. */
  predicate Indexed(keys: seq<HDPublicKey>)
  {
    forall i :: 0 <= i < |keys| ==> keys[i].n == i
  }

  /** The first index generate_gap derives: one past the last entry, or 0 */
  function Start(keys: seq<HDPublicKey>): int
  {
    if keys == [] then 0 else keys[|keys| - 1].n + 1
  }

  /** Appending the keys for indices n until end, stopping at the first
      derivation that fails: the list reached and the error, if any. */
  function Extend(child: int -> Result<HDPublicKey>, keys: seq<HDPublicKey>, n: int, end: int)
    : (seq<HDPublicKey>, Option<Error>)
    decreases end - n
  {
    if n >= end then (keys, None)
    else
      match child(n)
      case Err(e) => (keys, Some(e))
      case Ok(k) => Extend(child, keys + [k], n + 1, end)
  }

  /** HDPubKeyList.generate_gap on the list `keys` */
  function GenerateGapSpec(child: int -> Result<HDPublicKey>, gapLimit: int, keys: seq<HDPublicKey>, maxUsed: int)
    : (seq<HDPublicKey>, Option<Error>)
  {
    Extend(child, keys, Start(keys), maxUsed + gapLimit + 1)
  }

  /** HDPubKeyList.is_beyond_limit */
  function BeyondLimit(gapLimit: int, key: HDPublicKey, maxUsed: int): bool
    requires maxUsed >= -1
  {
    key.n > maxUsed + gapLimit
  }

  /** Extend only appends; the appended entries carry the consecutive
      indices n, n+1, ... and are the derived keys for them; without an
      error all of n..end-1 are appended, with one the error is that of the
      first index not appended. */
  lemma {:induction false} ExtendShape(child: int -> Result<HDPublicKey>, keys: seq<HDPublicKey>, n: int, end: int)
    requires KeepsIndex(child)
    ensures var (out, err) := Extend(child, keys, n, end);
            && |keys| <= |out| && out[..|keys|] == keys
            && (forall i :: |keys| <= i < |out| ==>
                  out[i].n == n + (i - |keys|) && child(out[i].n) == Ok(out[i]))
            && (err.None? ==> |out| == |keys| + (if end > n then end - n else 0))
            && (err.None? ==> forall j :: n <= j < end ==> child(j).Ok?)
            && (err.Some? ==> n + (|out| - |keys|) < end
                              && child(n + (|out| - |keys|)) == Err(err.value))
    decreases end - n
  {
    if n < end {
      match child(n)
      case Err(e) =>
      case Ok(k) =>
        var keys' := keys + [k];
        ExtendShape(child, keys', n + 1, end);
        var out := Extend(child, keys', n + 1, end).0;
        assert out[..|keys|] == out[..|keys'|][..|keys|];
        assert out[|keys|] == out[..|keys'|][|keys|] == k;
    }
  }

  /** One step of the generate_gap loop: a successful generate_key leaves
      the rest of the extension unchanged, a failing one ends it. */
  lemma ExtendStepAfter(child: int -> Result<HDPublicKey>, before: seq<HDPublicKey>, after: seq<HDPublicKey>,
                        n: int, end: int, err: Option<Error>)
    requires n < end
    requires child(n).Ok? ==> after == before + [child(n).value] && err == None
    requires child(n).Err? ==> after == before && err == Some(child(n).error)
    ensures err.None? ==> Extend(child, after, n + 1, end) == Extend(child, before, n, end)
    ensures err.Some? ==> (after, err) == Extend(child, before, n, end)
  {
  }

  /** generate_gap keeps the indices of an indexed list exactly 0..N-1. */
  lemma GenerateGapIndexed(child: int -> Result<HDPublicKey>, gapLimit: int, keys: seq<HDPublicKey>, maxUsed: int)
    requires KeepsIndex(child)
    requires Indexed(keys)
    ensures Indexed(GenerateGapSpec(child, gapLimit, keys, maxUsed).0)
  {
    var out := GenerateGapSpec(child, gapLimit, keys, maxUsed).0;
    ExtendShape(child, keys, Start(keys), maxUsed + gapLimit + 1);
    assert Start(keys) == |keys|;
    forall i | 0 <= i < |out|
      ensures out[i].n == i
    {
      if i < |keys| {
        assert out[i] == out[..|keys|][i];
      }
    }
  }

  /** Without an error, an indexed list ends up holding the indices
      0..max(N, maxUsed + gapLimit + 1) - 1. */
  lemma GenerateGapExtent(child: int -> Result<HDPublicKey>, gapLimit: int, keys: seq<HDPublicKey>, maxUsed: int)
    requires KeepsIndex(child)
    requires Indexed(keys)
    requires GenerateGapSpec(child, gapLimit, keys, maxUsed).1.None?
    ensures var out := GenerateGapSpec(child, gapLimit, keys, maxUsed).0;
            |out| == if |keys| >= maxUsed + gapLimit + 1 then |keys| else maxUsed + gapLimit + 1
  {
    ExtendShape(child, keys, Start(keys), maxUsed + gapLimit + 1);
    assert Start(keys) == |keys|;
  }

  /** From an empty list exactly maxUsed + gapLimit + 1 keys are made. */
  lemma GenerateGapFromEmpty(child: int -> Result<HDPublicKey>, gapLimit: int, maxUsed: int)
    requires KeepsIndex(child)
    requires gapLimit >= 1 && maxUsed >= -1
    requires GenerateGapSpec(child, gapLimit, [], maxUsed).1.None?
    ensures |GenerateGapSpec(child, gapLimit, [], maxUsed).0| == maxUsed + gapLimit + 1
  {
    GenerateGapExtent(child, gapLimit, [], maxUsed);
  }

  /** Generating again with the same or a smaller maxUsed adds nothing. */
  lemma GenerateGapIdempotent(child: int -> Result<HDPublicKey>, gapLimit: int, keys: seq<HDPublicKey>,
                              maxUsed: int, maxUsed': int)
    requires KeepsIndex(child)
    requires Indexed(keys) && maxUsed' <= maxUsed
    requires GenerateGapSpec(child, gapLimit, keys, maxUsed).1.None?
    ensures var out := GenerateGapSpec(child, gapLimit, keys, maxUsed).0;
            GenerateGapSpec(child, gapLimit, out, maxUsed') == (out, None)
  {
    var out := GenerateGapSpec(child, gapLimit, keys, maxUsed).0;
    GenerateGapIndexed(child, gapLimit, keys, maxUsed);
    GenerateGapExtent(child, gapLimit, keys, maxUsed);
    assert Start(out) == |out|;
  }

  /** The window: no key generate_gap adds is beyond the limit for the same
      maxUsed, and afterwards the key at index maxUsed + gapLimit exists. */
  lemma GenerateGapWindow(child: int -> Result<HDPublicKey>, gapLimit: int, keys: seq<HDPublicKey>, maxUsed: int)
    requires KeepsIndex(child)
    requires Indexed(keys) && gapLimit >= 1 && maxUsed >= -1
    requires GenerateGapSpec(child, gapLimit, keys, maxUsed).1.None?
    ensures var out := GenerateGapSpec(child, gapLimit, keys, maxUsed).0;
            && (forall i :: |keys| <= i < |out| ==> !BeyondLimit(gapLimit, out[i], maxUsed))
            && maxUsed + gapLimit < |out| && out[maxUsed + gapLimit].n == maxUsed + gapLimit
  {
    ExtendShape(child, keys, Start(keys), maxUsed + gapLimit + 1);
    GenerateGapIndexed(child, gapLimit, keys, maxUsed);
    GenerateGapExtent(child, gapLimit, keys, maxUsed);
    assert Start(keys) == |keys|;
  }

  /** When generate_gap stops on an error, the list is still indexed, short
      of maxUsed + gapLimit + 1, and the error is the derivation error of
      the next index. */
  lemma GenerateGapFailure(child: int -> Result<HDPublicKey>, gapLimit: int, keys: seq<HDPublicKey>, maxUsed: int)
    requires KeepsIndex(child)
    requires Indexed(keys)
    requires GenerateGapSpec(child, gapLimit, keys, maxUsed).1.Some?
    ensures var (out, err) := GenerateGapSpec(child, gapLimit, keys, maxUsed);
            && |out| < maxUsed + gapLimit + 1
            && child(|out|) == Err(err.value)
  {
    ExtendShape(child, keys, Start(keys), maxUsed + gapLimit + 1);
    assert Start(keys) == |keys|;
  }

  /** A window that covers an index the child function cannot derive, such
      as 2^31 for public derivation (DeriveEntry), always ends in an error. */
  lemma GenerateGapBlocked(child: int -> Result<HDPublicKey>, gapLimit: int, keys: seq<HDPublicKey>,
                           maxUsed: int, m: int)
    requires KeepsIndex(child) && Indexed(keys)
    requires |keys| <= m <= maxUsed + gapLimit && child(m).Err?
    ensures GenerateGapSpec(child, gapLimit, keys, maxUsed).1.Some?
  {
    var (out, err) := GenerateGapSpec(child, gapLimit, keys, maxUsed);
    ExtendShape(child, keys, Start(keys), maxUsed + gapLimit + 1);
    assert Start(keys) == |keys|;
  }

  // ---------------------------------------------------------------------------
  // Key lists

  /** PubKeyList: the base list, which never reports a key beyond the limit
      and whose generate_gap does nothing. */
  class PubKeyList {
    var pubkeys: seq<HDPublicKey>

    constructor ()
      ensures pubkeys == []
    {
      pubkeys := [];
    }

    method IsBeyondLimit(pubkey: HDPublicKey) returns (r: bool)
      ensures !r
    {
      r := false;
    }

    method GenerateGap()
      ensures unchanged(this)
    {
    }
  }

  /** BIP32PubKeyList (with HDPubKeyList, whose child() it supplies): the keys
      are the public children of `masterPubkey`. */
  class BIP32PubKeyList {
    const masterPubkey: PubKey
    const prims: Primitives
    const gapLimit: int
    /** HDPubKeyList.child, which BIP32PubKeyList supplies */
    const child: int -> Result<HDPublicKey>
    var pubkeys: seq<HDPublicKey>

    /** What generate_gap relies on: a gap limit of at least 1 and a child
        function that keeps indices */
    ghost predicate Valid()
    {
      gapLimit >= 1 && KeepsIndex(child)
    }

    /** The child function is public derivation from the master key */
    ghost predicate DerivesFromMaster()
    {
      WellFormedPub(masterPubkey) && child == ChildOf(masterPubkey, prims)
    }

    /** HDPubKeyList.__init__ and BIP32PubKeyList.__init__ once the gap limit
        has been checked */
    constructor (masterPubkey: PubKey, gapLimit: int, prims: Primitives)
      requires gapLimit >= 1 && WellFormedPub(masterPubkey)
      ensures Valid() && DerivesFromMaster()
      ensures this.masterPubkey == masterPubkey && this.gapLimit == gapLimit && this.prims == prims
      ensures pubkeys == []
    {
      this.masterPubkey := masterPubkey;
      this.gapLimit := gapLimit;
      this.prims := prims;
      this.child := ChildOf(masterPubkey, prims);
      pubkeys := [];
    }

    /** HDPubKeyList.generate_key: append child(n); a failing child leaves
        the list as it was. */
    method GenerateKey(n: int) returns (err: Option<Error>)
      modifies this
      ensures child(n).Ok? ==> pubkeys == old(pubkeys) + [child(n).value] && err == None
      ensures child(n).Err? ==> pubkeys == old(pubkeys) && err == Some(child(n).error)
    {
      match child(n)
      case Ok(k) =>
        pubkeys := pubkeys + [k];
        err := None;
      case Err(e) =>
        err := Some(e);
    }

    /** HDPubKeyList.generate_gap: derive the keys from one past the last
        entry up to maxUsed + gapLimit, stopping at the first error. */
    method GenerateGap(maxUsed: int) returns (err: Option<Error>)
      requires Valid() && maxUsed >= -1
      modifies this
      ensures (pubkeys, err) == GenerateGapSpec(child, gapLimit, old(pubkeys), maxUsed)
      ensures Indexed(old(pubkeys)) ==> Indexed(pubkeys)
      ensures Indexed(old(pubkeys)) && err.None? ==>
                forall i :: |old(pubkeys)| <= i < |pubkeys| ==> !IsBeyondLimit(pubkeys[i], maxUsed)
    {
      ghost var spec := GenerateGapSpec(child, gapLimit, pubkeys, maxUsed);
      var start := if |pubkeys| > 0 then pubkeys[|pubkeys| - 1].n + 1 else 0;
      var end := maxUsed + gapLimit + 1;
      var n := start;
      err := None;
      assert start == Start(pubkeys);
      while n < end && err.None?
        invariant err.None? ==> Extend(child, pubkeys, n, end) == spec
        invariant err.Some? ==> (pubkeys, err) == spec
        decreases end - n
      {
        ghost var before := pubkeys;
        err := GenerateKey(n);
        ExtendStepAfter(child, before, pubkeys, n, end, err);
        n := n + 1;
      }
      if Indexed(old(pubkeys)) {
        GenerateGapIndexed(child, gapLimit, old(pubkeys), maxUsed);
        if err.None? {
          GenerateGapWindow(child, gapLimit, old(pubkeys), maxUsed);
        }
      }
    }

    /** HDPubKeyList.is_beyond_limit: the method form of BeyondLimit for this
        list's gap limit */
    function IsBeyondLimit(pubkey: HDPublicKey, maxUsed: int): (r: bool)
      requires maxUsed >= -1
      ensures r <==> pubkey.n >= maxUsed + gapLimit + 1
      ensures r ==> pubkey.n >= gapLimit
    {
      BeyondLimit(gapLimit, pubkey, maxUsed)
    }
  }

  /** BIP32PubKeyList's constructor with the gap limit check of HDPubKeyList */
  method NewBIP32PubKeyList(masterPubkey: PubKey, gapLimit: int, prims: Primitives)
    returns (r: Result<BIP32PubKeyList>)
    requires WellFormedPub(masterPubkey)
    ensures r.Err? <==> gapLimit < 1
    ensures r.Err? ==> r.error == GapLimitTooSmall
    ensures r.Ok? ==> && fresh(r.value) && r.value.Valid() && r.value.DerivesFromMaster()
                      && r.value.masterPubkey == masterPubkey && r.value.gapLimit == gapLimit
                      && r.value.child == ChildOf(masterPubkey, prims)
                      && r.value.prims == prims && r.value.pubkeys == []
  {
    if gapLimit < 1 {
      return Err(GapLimitTooSmall);
    }
    var list := new BIP32PubKeyList(masterPubkey, gapLimit, prims);
    return Ok(list);
  }

  // ---------------------------------------------------------------------------
  // Accounts

  /** Account: the receiving and change key lists and the history of each
      address. */
  class Account<K, A(==), H> {
    const recKeys: K
    const chgKeys: K
    var history: map<A, H>

    constructor (recKeys: K, chgKeys: K)
      ensures this.recKeys == recKeys && this.chgKeys == chgKeys
      ensures history == map[]
    {
      this.recKeys := recKeys;
      this.chgKeys := chgKeys;
      history := map[];
    }

    /** Account.set_address_history: the one entry for addr is replaced */
    method SetAddressHistory(addr: A, hist: H)
      modifies this
      ensures history == old(history)[addr := hist]
      ensures addr in history && history[addr] == hist
      ensures forall a :: a in old(history) && a != addr ==> a in history && history[a] == old(history)[a]
      ensures history.Keys == old(history).Keys + {addr}
    {
      history := history[addr := hist];
    }
  }

  /** BIP32Account.__init__: the receiving list hangs off child 0 of the
      master key and the change list off child 1, each with its own gap
      limit; the steps fail in the order the constructor takes them. */
  method NewBIP32Account<A(==), H>(masterPubkey: PubKey, recGapLimit: int, chgGapLimit: int, prims: Primitives)
    returns (r: Result<Account<BIP32PubKeyList, A, H>>)
    requires prims.Valid() && WellFormedPub(masterPubkey)
    ensures PubChild(masterPubkey, 0, prims).Err? ==> r == Err(PubChild(masterPubkey, 0, prims).error)
    ensures PubChild(masterPubkey, 0, prims).Ok? && recGapLimit < 1 ==> r == Err(GapLimitTooSmall)
    ensures PubChild(masterPubkey, 0, prims).Ok? && recGapLimit >= 1 && PubChild(masterPubkey, 1, prims).Err? ==>
              r == Err(PubChild(masterPubkey, 1, prims).error)
    ensures (PubChild(masterPubkey, 0, prims).Ok? && recGapLimit >= 1 && PubChild(masterPubkey, 1, prims).Ok?
             && chgGapLimit < 1) ==> r == Err(GapLimitTooSmall)
    ensures r.Ok? <==> PubChild(masterPubkey, 0, prims).Ok? && PubChild(masterPubkey, 1, prims).Ok?
                       && recGapLimit >= 1 && chgGapLimit >= 1
    ensures r.Ok? ==> && fresh(r.value) && fresh(r.value.recKeys) && fresh(r.value.chgKeys)
                      && r.value.recKeys != r.value.chgKeys
                      && r.value.history == map[]
                      && r.value.recKeys.masterPubkey == PubChild(masterPubkey, 0, prims).value
                      && r.value.chgKeys.masterPubkey == PubChild(masterPubkey, 1, prims).value
                      && r.value.recKeys.gapLimit == recGapLimit && r.value.chgKeys.gapLimit == chgGapLimit
                      && r.value.recKeys.pubkeys == [] && r.value.chgKeys.pubkeys == []
                      && r.value.recKeys.Valid() && r.value.chgKeys.Valid()
                      && r.value.recKeys.DerivesFromMaster() && r.value.chgKeys.DerivesFromMaster()
  {
    var recRoot := PubChild(masterPubkey, 0, prims);
    if recRoot.Err? {
      return Err(recRoot.error);
    }
    var recKeys := NewBIP32PubKeyList(recRoot.value, recGapLimit, prims);
    if recKeys.Err? {
      return Err(recKeys.error);
    }
    var chgRoot := PubChild(masterPubkey, 1, prims);
    if chgRoot.Err? {
      return Err(chgRoot.error);
    }
    var chgKeys := NewBIP32PubKeyList(chgRoot.value, chgGapLimit, prims);
    if chgKeys.Err? {
      return Err(chgKeys.error);
    }
    var account := new Account(recKeys.value, chgKeys.value);
    return Ok(account);
  }
}
