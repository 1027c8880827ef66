/** The OpenNI bit set: bits packed into the 32-bit words of a growable array, most significant first. */
module XnBitSet {
  import opened Basics
  import opened Words
  import opened XnArray

  /** Bit n of a packed set; bits beyond the last word read as absent. */
  predicate Has(words: seq<word32>, n: nat) {
    n / 32 < |words| && Bit(words[n / 32], 31 - n % 32)
  }

  /** The word Set writes: one bit of the old word, or of 0 where the array must grow, replaced. */
  function NewWord(words: seq<word32>, n: nat, value: bool): nat {
    var oldVal := if n / 32 < |words| then words[n / 32] else 0;
    var mask := Shl(1, 31 - n % 32);
    if value then Or(oldVal, mask) else AndNot(oldVal, mask)
  }

  lemma {:induction false} AndNotBound(x: nat, y: nat)
    ensures AndNot(x, y) <= x
  {
    if x == 0 {
    } else {
      AndNotBound(x / 2, y / 2);
    }
  }

  lemma {:induction false} OneShl(s: nat)
    ensures Shl(1, s) == Pow2(s)
  {
    if s == 0 {
    } else {
      OneShl(s - 1);
    }
  }

  lemma NewWordIsWord(words: seq<word32>, n: nat, value: bool)
    ensures NewWord(words, n, value) < 0x1_0000_0000
  {
    var oldVal := if n / 32 < |words| then words[n / 32] else 0;
    var k := 31 - n % 32;
    OneShl(k);
    Pow32();
    Pow2Less(k, 32);
    OrBound(oldVal, Pow2(k), 32);
    AndNotBound(oldVal, Pow2(k));
  }

  /** The packed set after Set. */
  function Put(words: seq<word32>, n: nat, value: bool): (r: seq<word32>) {
    NewWordIsWord(words, n, value);
    Padded(words, n / 32 + 1, 0)[n / 32 := NewWord(words, n, value)]
  }

  /** Set changes bit n and no other, across array growth; bits in the gap read as absent. */
  lemma PutChangesOneBit(words: seq<word32>, n: nat, value: bool, m: nat)
    ensures Has(Put(words, n, value), m) == if m == n then value else Has(words, m)
  {
    var w, v := n / 32, m / 32;
    var oldVal: word32 := if w < |words| then words[w] else 0;
    var k, j := 31 - n % 32, 31 - m % 32;
    if v == w {
      OneShl(k);
      WriteBit(oldVal, k, j);
      ZeroBit(j);
      assert k == j <==> n == m;
    } else if |words| <= v {
      ZeroBit(j);
    }
  }

  // ---------------------------------------------------------------- runs of Set

  datatype Op = Op(index: nat, value: bool)

  function Run(ops: seq<Op>): seq<word32>
    decreases |ops|
  {
    if ops == [] then [] else Put(Run(Init(ops)), ops[|ops| - 1].index, ops[|ops| - 1].value)
  }

  /** The set of indices the same operations describe. */
  function Abstract(ops: seq<Op>): set<nat>
    decreases |ops|
  {
    if ops == [] then {} else
      var s, op := Abstract(Init(ops)), ops[|ops| - 1];
      if op.value then s + {op.index} else s - {op.index}
  }

  lemma {:induction false} PackedIsAbstract(ops: seq<Op>, m: nat)
    ensures Has(Run(ops), m) <==> m in Abstract(ops)
    decreases |ops|
  {
    if ops == [] {
    } else {
      PackedIsAbstract(Init(ops), m);
      PutChangesOneBit(Run(Init(ops)), ops[|ops| - 1].index, ops[|ops| - 1].value, m);
    }
  }

  /** The size after Set, in 32 bits: setting the very last index leaves it as it was. */
  function NewSize(size: nat, index: word32): nat {
    Max(size, (index + 1) % 0x1_0000_0000)
  }

  function SizeAfter(indices: seq<word32>): nat
    decreases |indices|
  {
    if indices == [] then 0 else NewSize(SizeAfter(Init(indices)), indices[|indices| - 1])
  }

  lemma NewSizeBounds(size: nat, index: word32)
    ensures size <= NewSize(size, index) && (index < 0xFFFF_FFFF ==> index < NewSize(size, index))
    ensures NewSize(size, index) == size || NewSize(size, index) == index + 1 <= 0xFFFF_FFFF
  {}

  /** The size lies past every index that was set, but for 2^32 - 1, whose size of 2^32 is none in 32 bits. */
  lemma {:induction false} SizeIsBound(indices: seq<word32>, k: nat)
    requires k < |indices| && indices[k] < 0xFFFF_FFFF
    ensures indices[k] < SizeAfter(indices)
    decreases |indices|
  {
    NewSizeBounds(SizeAfter(Init(indices)), indices[|indices| - 1]);
    if k < |indices| - 1 {
      SizeIsBound(Init(indices), k);
    }
  }

  /** And no further than one of them asks. */
  lemma {:induction false} SizeIsReached(indices: seq<word32>) returns (k: nat)
    requires SizeAfter(indices) > 0
    ensures k < |indices| && indices[k] == SizeAfter(indices) - 1 && indices[k] < 0xFFFF_FFFF
    decreases |indices|
  {
    k := |indices| - 1;
    NewSizeBounds(SizeAfter(Init(indices)), indices[k]);
    if SizeAfter(indices) == SizeAfter(Init(indices)) {
      k := SizeIsReached(Init(indices));
    }
  }

  // ---------------------------------------------------------------- bytes

  /** Bit i of a byte stream, most significant bit of each byte first. */
  predicate StreamBit(bytes: seq<byte>, i: nat)
    requires i / 8 < |bytes|
  {
    Bit(bytes[i / 8], 7 - i % 8)
  }

  function Compose(b0: byte, b1: byte, b2: byte, b3: byte): nat {
    Or(Or(Or(Shl(b0, 24), Shl(b1, 16)), Shl(b2, 8)), b3)
  }

  lemma {:induction false} ShlBound(x: nat, s: nat, n: nat)
    requires x < Pow2(n)
    ensures Shl(x, s) < Pow2(n + s)
  {
    if s == 0 {
    } else {
      ShlBound(x, s - 1, n);
    }
  }

  lemma {:induction false} WiderBound(x: nat, n: nat, m: nat)
    requires x < Pow2(n) && n <= m
    ensures x < Pow2(m)
  {
    if n < m {
      Pow2Less(n, m);
    }
  }

  lemma EightBits()
    ensures Pow2(8) == 256
  {
    assert Pow2(4) == 16;
  }

  lemma ComposeIsWord(b0: byte, b1: byte, b2: byte, b3: byte)
    ensures Compose(b0, b1, b2, b3) < 0x1_0000_0000
  {
    Pow32();
    EightBits();
    ShlBound(b0, 24, 8);
    ShlBound(b1, 16, 8);
    ShlBound(b2, 8, 8);
    WiderBound(Shl(b1, 16), 24, 32);
    WiderBound(Shl(b2, 8), 16, 32);
    OrBound(Shl(b0, 24), Shl(b1, 16), 32);
    OrBound(Or(Shl(b0, 24), Shl(b1, 16)), Shl(b2, 8), 32);
    OrBound(Or(Or(Shl(b0, 24), Shl(b1, 16)), Shl(b2, 8)), b3, 32);
  }

  /** A byte shifted up by s shows in the eight bits from s on, and nowhere else. */
  lemma ShiftedByteBit(b: byte, s: nat, k: nat)
    ensures Bit(Shl(b, s), k) == (s <= k < s + 8 && Bit(b, k - s))
  {
    ShlBit(b, s, k);
    EightBits();
    if k >= s + 8 {
      HighBit(b, 8, k - s);
    }
  }

  lemma ComposeBit(b0: byte, b1: byte, b2: byte, b3: byte, k: nat)
    requires k < 32
    ensures Bit(Compose(b0, b1, b2, b3), k)
         == if k >= 24 then Bit(b0, k - 24) else if k >= 16 then Bit(b1, k - 16)
            else if k >= 8 then Bit(b2, k - 8) else Bit(b3, k)
  {
    ShiftedByteBit(b0, 24, k);
    ShiftedByteBit(b1, 16, k);
    ShiftedByteBit(b2, 8, k);
    ShiftedByteBit(b3, 0, k);
    OrBit(Shl(b0, 24), Shl(b1, 16), k);
    OrBit(Or(Shl(b0, 24), Shl(b1, 16)), Shl(b2, 8), k);
    OrBit(Or(Or(Shl(b0, 24), Shl(b1, 16)), Shl(b2, 8)), b3, k);
  }

  function Packed(bytes: seq<byte>): (words: seq<word32>)
    ensures |words| == |bytes| / 4
  {
    if |bytes| < 4 then [] else
      ComposeIsWord(bytes[0], bytes[1], bytes[2], bytes[3]);
      [Compose(bytes[0], bytes[1], bytes[2], bytes[3])] + Packed(bytes[4..])
  }

  lemma BitOfByte(bytes: seq<byte>, j: nat, i: nat)
    requires j < |bytes| && 8 * j <= i < 8 * j + 8
    ensures i / 8 == j && StreamBit(bytes, i) == Bit(bytes[j], 7 + 8 * j - i)
  {}

  lemma BitOfWord(w: word32, words: seq<word32>, i: nat)
    requires i < 32
    ensures Has([w] + words, i) == Bit(w, 31 - i)
  {}

  lemma FirstWord(bytes: seq<byte>, i: nat)
    requires |bytes| >= 4 && i < 32
    ensures Has(Packed(bytes), i) == StreamBit(bytes, i)
  {
    ComposeBit(bytes[0], bytes[1], bytes[2], bytes[3], 31 - i);
    BitOfWord(Packed(bytes)[0], Packed(bytes[4..]), i);
    BitOfByte(bytes, if i < 8 then 0 else if i < 16 then 1 else if i < 24 then 2 else 3, i);
  }

  lemma NextWord(w: word32, words: seq<word32>, i: nat)
    requires i >= 32
    ensures Has([w] + words, i) == Has(words, i - 32)
  {
    assert (i - 32) / 32 == i / 32 - 1 && (i - 32) % 32 == i % 32;
  }

  lemma NextBytes(bytes: seq<byte>, i: nat)
    requires 32 <= i && i / 8 < |bytes|
    ensures (i - 32) / 8 < |bytes[4..]| && StreamBit(bytes, i) == StreamBit(bytes[4..], i - 32)
  {
    assert (i - 32) / 8 == i / 8 - 4 && (i - 32) % 8 == i % 8;
  }

  lemma WholeWords(n: nat, i: nat)
    requires n >= 4
    ensures 32 * (n / 4) == 32 * ((n - 4) / 4) + 32
    ensures i < 32 * (n / 4) ==> i / 8 < n
  {}

  /** Packing keeps the stream's bits in order; up to three bytes after the last whole word are lost. */
  lemma {:induction false} PackedBits(bytes: seq<byte>, i: nat)
    ensures Has(Packed(bytes), i) <==> i < 32 * (|bytes| / 4) && StreamBit(bytes, i)
  {
    if |bytes| < 4 {
    } else if i < 32 {
      FirstWord(bytes, i);
    } else {
      WholeWords(|bytes|, i);
      PackedBits(bytes[4..], i - 32);
      NextWord(Packed(bytes)[0], Packed(bytes[4..]), i);
      if i < 32 * (|bytes| / 4) {
        NextBytes(bytes, i);
      }
    }
  }

  lemma SameFour(bytes: seq<byte>, at: nat)
    requires 4 <= at && at + 4 <= |bytes|
    ensures var rest := bytes[4..];
            Compose(rest[at - 4], rest[at - 3], rest[at - 2], rest[at - 1])
              == Compose(bytes[at], bytes[at + 1], bytes[at + 2], bytes[at + 3])
  {}

  lemma PackedTail(bytes: seq<byte>, k: nat)
    requires |bytes| >= 4 && 0 < k <= |Packed(bytes[4..])|
    ensures Packed(bytes)[k] == Packed(bytes[4..])[k - 1]
  {}

  lemma {:induction false} PackedAt(bytes: seq<byte>, k: nat, at: nat)
    requires at == 4 * k && at + 4 <= |bytes|
    ensures k < |Packed(bytes)|
    ensures Packed(bytes)[k] == Compose(bytes[at], bytes[at + 1], bytes[at + 2], bytes[at + 3])
    decreases k
  {
    if k == 0 {
    } else {
      PackedAt(bytes[4..], k - 1, at - 4);
      PackedTail(bytes, k);
      SameFour(bytes, at);
    }
  }

  // ---------------------------------------------------------------- the bit set

  class BitSet {
    const store: Array<word32>
    var size: nat

    ghost predicate Valid()
      reads this, store
    {
      store.Valid()
    }

    ghost function Words(): seq<word32>
      requires Valid()
      reads this, store, store.data
    {
      store.Contents()
    }

    constructor ()
      ensures Valid() && fresh(store) && fresh(store.data)
      ensures Words() == [] && size == 0
    {
      store := new Array<word32>(BASE_SIZE);
      size := 0;
    }

    method Set(index: word32, value: bool, memory: bool) returns (ok: bool)
      requires Valid()
      modifies this`size, store, store.data
      ensures Valid()
      ensures store.data == old(store.data) || fresh(store.data)
      ensures ok == (memory || index / 32 < old(store.size) || index / 32 < old(store.allocatedSize))
      ensures Words() == if ok then Put(old(Words()), index, value) else old(Words())
      ensures size == if ok then NewSize(old(size), index) else old(size)
    {
      NewWordIsWord(Words(), index, value);
      var arrayIndex := index / 32;
      var mask := Shl(1, 31 - index % 32);
      var oldVal := if arrayIndex < store.size then store.data[arrayIndex] else 0;
      var newVal := if value then Or(oldVal, mask) else AndNot(oldVal, mask);
      ok := store.SetFill(arrayIndex, newVal, 0, memory);
      if !ok {
        return false;
      }
      size := Max(size, (index + 1) % 0x1_0000_0000);
    }

    method IsSet(index: word32) returns (r: bool)
      requires Valid()
      ensures r == Has(Words(), index)
    {
      var arrayIndex := index / 32;
      if arrayIndex >= store.size {
        return false;
      }
      OneShl(31 - index % 32);
      AndTestsBit(store.data[arrayIndex], 31 - index % 32);
      r := And(store.data[arrayIndex], Shl(1, 31 - index % 32)) != 0;
    }

    method SetData(words: seq<word32>, memory: bool) returns (ok: bool)
      requires Valid() && |words| <= MAX_RESERVE
      modifies this`size, store
      ensures Valid() && fresh(store.data)
      ensures ok == (memory || |words| <= BASE_SIZE)
      ensures Words() == if ok then words else []
      ensures size == if ok then (32 * |words|) % 0x1_0000_0000 else old(size)
    {
      ok := store.SetData(words, memory);
      if !ok {
        return false;
      }
      size := (32 * |words|) % 0x1_0000_0000;
    }

    method WriteWords(bytes: seq<byte>)
      requires Valid() && store.size == |bytes| / 4
      modifies store.data
      ensures Words() == Packed(bytes)
    {
      var byteIdx := 0;
      for dwordIdx := 0 to store.size
        invariant byteIdx == 4 * dwordIdx
        invariant store.data[..dwordIdx] == Packed(bytes)[..dwordIdx]
      {
        PackedAt(bytes, dwordIdx, byteIdx);
        store.data[dwordIdx] := Compose(bytes[byteIdx], bytes[byteIdx + 1], bytes[byteIdx + 2], bytes[byteIdx + 3]);
        byteIdx := byteIdx + 4;
      }
      assert Packed(bytes)[..store.size] == Packed(bytes);
    }

    /** The source reads four bytes however short the buffer is, so a caller owes it at least four. */
    method SetDataBytes(bytes: seq<byte>, memory: bool) returns (ok: bool)
      requires Valid() && 4 <= |bytes| < 0x1_0000_0000
      modifies this`size, store, store.data
      ensures Valid()
      ensures store.data == old(store.data) || fresh(store.data)
      ensures ok == (memory || |bytes| / 4 <= old(store.size) || |bytes| / 4 <= old(store.allocatedSize))
      ensures Words() == if ok then Packed(bytes) else old(Words())
      ensures size == if ok then (8 * |bytes|) % 0x1_0000_0000 else old(size)
    {
      var sizeInDwords := Max(1, |bytes| / 4);
      ok := store.SetSize(sizeInDwords, memory);
      if !ok {
        return false;
      }
      WriteWords(bytes);
      size := (8 * |bytes|) % 0x1_0000_0000;
    }
  }

  function Max(a: nat, b: nat): nat { if a > b then a else b }
}
