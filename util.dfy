/** Byte and integer helpers of the wallet core: big-endian byte strings and
    integers, fixed-width packing, Bitcoin variable-length integers and
    splitting a sequence into chunks (lib/util.py). */
module Util {
  import opened Errors

  type Byte = b: int | 0 <= b < 256

  const TWO_16: nat := 0x1_0000
  const TWO_32: nat := 0x1_0000_0000
  const TWO_64: nat := 0x1_0000_0000_0000_0000
  const TWO_256: nat := 0x1_0000000000000000_0000000000000000_0000000000000000_0000000000000000

  // ---------------------------------------------------------------------------
  // Powers

  function Pow2(k: nat): (r: nat)
    ensures r >= 1
  {
    if k == 0 then 1 else 2 * Pow2(k - 1)
  }

  function Pow256(k: nat): (r: nat)
    ensures r >= 1
  {
    if k == 0 then 1 else 256 * Pow256(k - 1)
  }

  lemma {:induction false} Pow256Add(a: nat, b: nat)
    ensures Pow256(a + b) == Pow256(a) * Pow256(b)
  {
    if a > 0 {
      Pow256Add(a - 1, b);
      assert Pow256(a + b) == 256 * Pow256(a - 1 + b);
    }
  }

  lemma Pow256Values()
    ensures Pow256(1) == 256
    ensures Pow256(2) == TWO_16
    ensures Pow256(4) == TWO_32
    ensures Pow256(8) == TWO_64
    ensures Pow256(32) == TWO_256
  {
    assert Pow256(8) == TWO_64;
    Pow256Add(8, 8);
    Pow256Add(16, 16);
  }

  lemma {:induction false} Pow2Add(a: nat, b: nat)
    ensures Pow2(a + b) == Pow2(a) * Pow2(b)
  {
    if a > 0 {
      Pow2Add(a - 1, b);
      assert Pow2(a + b) == 2 * Pow2(a - 1 + b);
    }
  }

  lemma {:induction false} Pow2Monotone(a: nat, b: nat)
    requires a <= b
    ensures Pow2(a) <= Pow2(b)
  {
    if a < b {
      Pow2Monotone(a, b - 1);
    }
  }

  /** 2^(8k) == 256^k */
  lemma {:induction false} Pow2Pow256(k: nat)
    ensures Pow2(8 * k) == Pow256(k)
  {
    if k > 0 {
      Pow2Pow256(k - 1);
      Pow2Add(8 * (k - 1), 8);
      assert Pow2(8) == 256;
    }
  }

  // ---------------------------------------------------------------------------
  // Big-endian byte strings

  /** bytes_to_int: the big-endian positional value of `s`. */
  function BytesToInt(s: seq<Byte>): (r: nat)
    ensures r < Pow256(|s|)
  {
    if s == [] then 0 else BytesToInt(s[..|s| - 1]) * 256 + s[|s| - 1]
  }

  /** The `len` low-order bytes of `v`, most significant first: Python's
      `v.to_bytes(len, 'big')` and `struct.pack('>I', v)` for `len == 4`
      whenever `v` fits (Python raises instead when it does not). */
  function ToBytesBE(v: nat, len: nat): (r: seq<Byte>)
    ensures |r| == len
  {
    if len == 0 then [] else ToBytesBE(v / 256, len - 1) + [v % 256]
  }

  function Zeros(k: nat): (r: seq<Byte>)
    ensures |r| == k
    ensures forall i :: 0 <= i < k ==> r[i] == 0
  {
    seq(k, _ => 0)
  }

  /** Python slicing `s[:k]` */
  function Take<T>(s: seq<T>, k: nat): (r: seq<T>)
    ensures |r| == if |s| <= k then |s| else k
    ensures forall i :: 0 <= i < |r| ==> r[i] == s[i]
  {
    if |s| <= k then s else s[..k]
  }

  /** Python slicing `s[k:]` */
  function Drop<T>(s: seq<T>, k: nat): (r: seq<T>)
    ensures |r| == if |s| <= k then 0 else |s| - k
    ensures forall i :: 0 <= i < |r| ==> r[i] == s[k + i]
  {
    if |s| <= k then [] else s[k..]
  }

  /** The value of a concatenation is positional. */
  lemma {:induction false} BytesToIntConcat(a: seq<Byte>, b: seq<Byte>)
    ensures BytesToInt(a + b) == BytesToInt(a) * Pow256(|b|) + BytesToInt(b)
  {
    if b == [] {
      assert a + b == a;
    } else {
      var init := b[..|b| - 1];
      assert (a + b)[..|a + b| - 1] == a + init;
      BytesToIntConcat(a, init);
      var x, p, y, l := BytesToInt(a), Pow256(|init|), BytesToInt(init), b[|b| - 1];
      assert BytesToInt(b) == y * 256 + l;
      assert Pow256(|b|) == 256 * p;
      assert BytesToInt(a + b) == BytesToInt(a + init) * 256 + l;
      Regroup(x, p, y, l);
    }
  }

  lemma Regroup(x: int, p: int, y: int, l: int)
    ensures (x * p + y) * 256 + l == x * (256 * p) + (y * 256 + l)
  {
  }

  lemma {:induction false} BytesToIntOfZeros(k: nat)
    ensures BytesToInt(Zeros(k)) == 0
  {
    if k > 0 {
      assert Zeros(k)[..k - 1] == Zeros(k - 1);
      BytesToIntOfZeros(k - 1);
    }
  }

  /** Prepending zero bytes does not change the value. */
  lemma BytesToIntLeadingZeros(k: nat, s: seq<Byte>)
    ensures BytesToInt(Zeros(k) + s) == BytesToInt(s)
  {
    BytesToIntConcat(Zeros(k), s);
    BytesToIntOfZeros(k);
  }

  /** Packing `v` into `len` bytes keeps its value when it fits. */
  lemma {:induction false} BytesToIntOfToBytesBE(v: nat, len: nat)
    requires v < Pow256(len)
    ensures BytesToInt(ToBytesBE(v, len)) == v
  {
    if len > 0 {
      var r := ToBytesBE(v, len);
      assert r[..len - 1] == ToBytesBE(v / 256, len - 1);
      BytesToIntOfToBytesBE(v / 256, len - 1);
    }
  }

  /** Packing the value of `s` back into |s| bytes gives `s`. */
  lemma {:induction false} ToBytesBEOfBytesToInt(s: seq<Byte>)
    ensures ToBytesBE(BytesToInt(s), |s|) == s
  {
    if s != [] {
      var init := s[..|s| - 1];
      ToBytesBEOfBytesToInt(init);
      assert BytesToInt(s) / 256 == BytesToInt(init);
      assert s == init + [s[|s| - 1]];
    }
  }

  /** Two byte strings of one length with one value are equal. */
  lemma BytesToIntInjective(s: seq<Byte>, t: seq<Byte>)
    requires |s| == |t| && BytesToInt(s) == BytesToInt(t)
    ensures s == t
  {
    ToBytesBEOfBytesToInt(s);
    ToBytesBEOfBytesToInt(t);
  }

  // ---------------------------------------------------------------------------
  // int_to_bytes

  /** int.bit_length() of a non-negative integer */
  function BitLength(v: nat): nat
  {
    if v == 0 then 0 else 1 + BitLength(v / 2)
  }

  lemma {:induction false} BitLengthBounds(v: nat)
    ensures v < Pow2(BitLength(v))
    ensures v > 0 ==> Pow2(BitLength(v) - 1) <= v
  {
    if v > 0 {
      BitLengthBounds(v / 2);
    }
  }

  lemma {:induction false} BitLengthAtMost(v: nat, k: nat)
    requires v < Pow2(k)
    ensures BitLength(v) <= k
  {
    if v > 0 {
      BitLengthAtMost(v / 2, k - 1);
    }
  }

  /** int_to_bytes: `v.to_bytes((v.bit_length() + 7) // 8, 'big')`, which
      bytes_to_int reads back as v. */
  function IntToBytes(v: nat): (r: seq<Byte>)
    ensures BytesToInt(r) == v
  {
    var len := (BitLength(v) + 7) / 8;
    IntToBytesFits(v, len);
    BytesToIntOfToBytesBE(v, len);
    ToBytesBE(v, len)
  }

  /** (bit_length(v) + 7) // 8 bytes hold v. */
  lemma IntToBytesFits(v: nat, len: nat)
    requires len == (BitLength(v) + 7) / 8
    ensures v < Pow256(len)
  {
    BitLengthBounds(v);
    Pow2Monotone(BitLength(v), 8 * len);
    Pow2Pow256(len);
  }

  /** int_to_bytes is the minimal big-endian form: empty for 0, and with no
      leading zero byte otherwise. */
  lemma IntToBytesMinimal(v: nat)
    ensures |IntToBytes(v)| == (BitLength(v) + 7) / 8
    ensures IntToBytes(v) == [] <==> v == 0
    ensures v > 0 ==> IntToBytes(v)[0] != 0
  {
    var r := IntToBytes(v);
    if v > 0 {
      var len := |r|;
      assert len >= 1;
      if r[0] == 0 {
        assert r == Zeros(1) + r[1..];
        BytesToIntLeadingZeros(1, r[1..]);
        BitLengthBounds(v);
        Pow2Monotone(8 * (len - 1), BitLength(v) - 1);
        Pow2Pow256(len - 1);
        assert false;
      }
    }
  }

  /** A value below 256^k needs at most k bytes. */
  lemma IntToBytesAtMost(v: nat, k: nat)
    requires v < Pow256(k)
    ensures |IntToBytes(v)| <= k
  {
    Pow2Pow256(k);
    BitLengthAtMost(v, 8 * k);
  }

  // ---------------------------------------------------------------------------
  // Little-endian packing and int_to_varint

  /** struct.pack('<B' / '<H' / '<I' / '<Q', v) for `len` = 1 / 2 / 4 / 8. */
  function ToBytesLE(v: nat, len: nat): (r: seq<Byte>)
    ensures |r| == len
  {
    if len == 0 then [] else [v % 256] + ToBytesLE(v / 256, len - 1)
  }

  /** The little-endian value of a byte string. */
  function LEToInt(s: seq<Byte>): nat
  {
    if s == [] then 0 else s[0] + 256 * LEToInt(s[1..])
  }

  lemma {:induction false} LEToIntOfToBytesLE(v: nat, len: nat)
    requires v < Pow256(len)
    ensures LEToInt(ToBytesLE(v, len)) == v
  {
    if len > 0 {
      var r := ToBytesLE(v, len);
      assert r[1..] == ToBytesLE(v / 256, len - 1);
      LEToIntOfToBytesLE(v / 256, len - 1);
    }
  }

  /** int_to_varint.  Negative values raise; values of 2^64 and above fall
      off the end of the Python function, which then returns None: that is
      `Ok(None)` here. */
  function IntToVarint(v: int): (r: Result<Option<seq<Byte>>>)
    ensures r.Err? <==> v < 0
    ensures r.Err? ==> r.error == NegativeSize
    ensures r == Ok(None) <==> v >= TWO_64
  {
    if v < 0 then Err(NegativeSize)
    else if v < 253 then Ok(Some([v]))
    else if v < TWO_16 then Ok(Some([0xfd] + ToBytesLE(v, 2)))
    else if v < TWO_32 then Ok(Some([0xfe] + ToBytesLE(v, 4)))
    else if v < TWO_64 then Ok(Some([0xff] + ToBytesLE(v, 8)))
    else Ok(None)
  }

  /** Reference decoder of a Bitcoin varint that spans all of `s`. */
  function DecodeVarint(s: seq<Byte>): Option<nat>
  {
    if |s| == 0 then None
    else if s[0] < 0xfd then (if |s| == 1 then Some(s[0]) else None)
    else if s[0] == 0xfd then (if |s| == 3 then Some(LEToInt(s[1..])) else None)
    else if s[0] == 0xfe then (if |s| == 5 then Some(LEToInt(s[1..])) else None)
    else (if |s| == 9 then Some(LEToInt(s[1..])) else None)
  }

  /** Every encodable value decodes back to itself, and its form is picked
      by size: one byte below 253, then 0xfd, 0xfe, 0xff with 2, 4, 8
      little-endian bytes. */
  lemma VarintRoundTrip(v: int)
    requires 0 <= v < TWO_64
    ensures IntToVarint(v).Ok? && IntToVarint(v).value.Some?
    ensures DecodeVarint(IntToVarint(v).value.value) == Some(v)
    ensures var e := IntToVarint(v).value.value;
      && (v < 253 ==> e == [v])
      && (253 <= v < TWO_16 ==> |e| == 3 && e[0] == 0xfd)
      && (TWO_16 <= v < TWO_32 ==> |e| == 5 && e[0] == 0xfe)
      && (TWO_32 <= v ==> |e| == 9 && e[0] == 0xff)
  {
    Pow256Values();
    var e := IntToVarint(v).value.value;
    if v < 253 {
    } else if v < TWO_16 {
      assert e[1..] == ToBytesLE(v, 2);
      LEToIntOfToBytesLE(v, 2);
    } else if v < TWO_32 {
      assert e[1..] == ToBytesLE(v, 4);
      LEToIntOfToBytesLE(v, 4);
    } else {
      assert e[1..] == ToBytesLE(v, 8);
      LEToIntOfToBytesLE(v, 8);
    }
  }

  // ---------------------------------------------------------------------------
  // chunks

  function Flatten<T>(ss: seq<seq<T>>): seq<T>
  {
    if ss == [] then [] else ss[0] + Flatten(ss[1..])
  }

  function ChunkEnd(n: nat, size: nat, from: nat): nat
  {
    if from + size <= n then from + size else n
  }

  /** The chunks the generator yields for i = from, from + size, ... below |items|. */
  function ChunksFrom<T>(items: seq<T>, size: nat, from: nat): seq<seq<T>>
    requires size > 0
    decreases |items| - from
  {
    if from >= |items| then []
    else [items[from..ChunkEnd(|items|, size, from)]]
         + ChunksFrom(items, size, from + size)
  }

  /** chunks(items, size).  `range` raises for a zero step and is empty for a
      negative one. */
  function Chunks<T>(items: seq<T>, size: int): (r: Result<seq<seq<T>>>)
    ensures r.Err? <==> size == 0
    ensures size < 0 ==> r == Ok([])
  {
    if size == 0 then Err(ZeroChunkSize)
    else if size < 0 then Ok([])
    else Ok(ChunksFrom(items, size, 0))
  }

  lemma {:induction false} ChunksFromUnfold<T>(items: seq<T>, size: nat, from: nat)
    requires size > 0 && from < |items|
    ensures ChunksFrom(items, size, from)
            == [items[from..ChunkEnd(|items|, size, from)]] + ChunksFrom(items, size, from + size)
  {
  }

  lemma {:induction false} ChunksFromFlatten<T>(items: seq<T>, size: nat, from: nat)
    requires size > 0 && from <= |items|
    ensures Flatten(ChunksFrom(items, size, from)) == items[from..]
    decreases |items| - from
  {
    if from < |items| {
      var r := ChunksFrom(items, size, from);
      var e := ChunkEnd(|items|, size, from);
      ChunksFromUnfold(items, size, from);
      assert r[0] == items[from..e];
      assert r[1..] == ChunksFrom(items, size, from + size);
      if from + size < |items| {
        ChunksFromFlatten(items, size, from + size);
        assert items[from..] == items[from..e] + items[from + size..];
      } else {
        assert ChunksFrom(items, size, from + size) == [];
      }
    }
  }

  lemma {:induction false} ChunksFromCount<T>(items: seq<T>, size: nat, from: nat)
    requires size > 0 && from <= |items|
    ensures |items| - from <= |ChunksFrom(items, size, from)| * size < |items| - from + size
    decreases |items| - from
  {
    if from < |items| {
      var r := ChunksFrom(items, size, from);
      var rest := ChunksFrom(items, size, from + size);
      ChunksFromUnfold(items, size, from);
      assert |r| == |rest| + 1;
      assert |r| * size == |rest| * size + size;
      if from + size < |items| {
        ChunksFromCount(items, size, from + size);
      } else {
        assert rest == [];
      }
    }
  }

  lemma {:induction false} ChunksFromLengths<T>(items: seq<T>, size: nat, from: nat)
    requires size > 0 && from <= |items|
    ensures var r := ChunksFrom(items, size, from);
      && (forall j :: 0 <= j < |r| - 1 ==> |r[j]| == size)
      && (|r| > 0 ==> 0 < |r[|r| - 1]| <= size)
    decreases |items| - from
  {
    if from < |items| {
      var r := ChunksFrom(items, size, from);
      var rest := ChunksFrom(items, size, from + size);
      ChunksFromUnfold(items, size, from);
      assert r[0] == items[from..ChunkEnd(|items|, size, from)];
      if from + size < |items| {
        ChunksFromLengths(items, size, from + size);
        assert |r[0]| == size;
        forall j | 0 <= j < |r| - 1
          ensures |r[j]| == size
        {
          if j > 0 {
            assert r[j] == rest[j - 1];
          }
        }
        assert r[|r| - 1] == rest[|rest| - 1];
      } else {
        assert rest == [];
      }
    }
  }

  /** The chunks concatenate to `items`; all but the last have exactly `size`
      elements, the last between 1 and `size`; their number is
      ceil(|items| / size), the least `c` with |items| <= c * size. */
  lemma ChunksProperties<T>(items: seq<T>, size: int)
    requires size > 0
    ensures Chunks(items, size).Ok?
    ensures var cs := Chunks(items, size).value;
      && Flatten(cs) == items
      && |items| <= |cs| * size < |items| + size
      && (forall j :: 0 <= j < |cs| - 1 ==> |cs[j]| == size)
      && (|cs| > 0 ==> 0 < |cs[|cs| - 1]| <= size)
  {
    ChunksFromFlatten(items, size, 0);
    ChunksFromCount(items, size, 0);
    ChunksFromLengths(items, size, 0);
  }
}
