/** The growable array of the OpenNI headers: power-of-two growth over a plain sequence. */
module XnArray {
  import opened Words

  const BASE_SIZE := 8
  const MAX_RESERVE := 0x8000_0000

  // ---------------------------------------------------------------- the next power of two

  function Smear(x: nat, s: nat): nat { Or(Shr(x, s), x) }

  /** The smears from the j-th on: by 1, 2, 4, 8 and 16 for j from 0 to 4. */
  function Fill(x: nat, j: nat): nat
    decreases 5 - j
  {
    if j >= 5 then x else Fill(Smear(x, Pow2(j)), j + 1)
  }

  lemma FillByHand(x: nat)
    ensures Fill(x, 0) == Smear(Smear(Smear(Smear(Smear(x, 1), 2), 4), 8), 16)
  {
    var a := Smear(x, 1);
    var b := Smear(a, 2);
    var c := Smear(b, 4);
    var d := Smear(c, 8);
    assert Pow2(2) == 4;
    assert Pow2(3) == 8;
    assert Pow2(4) == 16;
    assert Fill(d, 4) == Smear(d, 16);
    assert Fill(c, 3) == Fill(d, 4);
    assert Fill(b, 2) == Fill(c, 3);
    assert Fill(a, 1) == Fill(b, 2);
  }

  /** Truncation to 32 bits. */
  function Wrap32(x: nat): word32 {
    if x < 0x1_0000_0000 then x else Wrap32(x - 0x1_0000_0000)
  }

  lemma {:induction false} WrapIsModulo(x: nat)
    ensures Wrap32(x) == x % 0x1_0000_0000
  {
    if x < 0x1_0000_0000 {
    } else {
      WrapIsModulo(x - 0x1_0000_0000);
    }
  }

  /** The bit trick of Reserve, in 32 bits. */
  function RoundUp(n: word32): word32
    requires n > 0
  {
    Wrap32(Fill(n - 1, 0) + 1)
  }

  /** No bit of x above t, and the w bits from t down are all set. */
  ghost predicate TopOnes(x: nat, t: nat, w: nat) {
    && x < Pow2(t + 1)
    && forall k: nat :: k <= t < k + w ==> Bit(x, k)
  }

  lemma {:induction false} TopOf(x: nat) returns (t: nat)
    requires x > 0
    ensures Pow2(t) <= x < Pow2(t + 1)
  {
    if x == 1 {
      t := 0;
    } else {
      t := TopOf(x / 2);
      t := t + 1;
    }
  }

  /** Each smear doubles the block of ones below the top bit. */
  lemma SmearDoubles(x: nat, t: nat, w: nat)
    requires TopOnes(x, t, w)
    ensures TopOnes(Smear(x, w), t, 2 * w)
  {
    ShrBound(x, w, t + 1);
    OrBound(Shr(x, w), x, t + 1);
    forall k: nat | k <= t < k + 2 * w ensures Bit(Smear(x, w), k) {
      OrBit(Shr(x, w), x, k);
      ShrBit(x, w, k);
      if t >= k + w {
        assert Bit(x, k + w);
      }
    }
  }

  lemma {:induction false} ShrBound(x: nat, s: nat, n: nat)
    requires x < Pow2(n)
    ensures Shr(x, s) < Pow2(n)
  {
    if s == 0 {
    } else {
      ShrBound(x / 2, s - 1, n);
    }
  }

  lemma {:induction false} AllOnes(n: nat, k: nat)
    requires k < n
    ensures Bit(Pow2(n) - 1, k)
  {
    assert (Pow2(n) - 1) / 2 == Pow2(n - 1) - 1 && (Pow2(n) - 1) % 2 == 1;
    if k == 0 {
    } else {
      AllOnes(n - 1, k - 1);
    }
  }

  lemma {:induction false} OnesToTheBottom(x: nat, t: nat, w: nat)
    requires TopOnes(x, t, w) && w > t
    ensures x == Pow2(t + 1) - 1
  {
    forall k: nat | k < t + 1 ensures Bit(x, k) == Bit(Pow2(t + 1) - 1, k) {
      AllOnes(t + 1, k);
    }
    SameBits(x, Pow2(t + 1) - 1, t + 1);
  }

  lemma {:induction false} FillIsOnes(x: nat, t: nat, j: nat)
    requires TopOnes(x, t, Pow2(j)) && t < 32 && j <= 5
    ensures Fill(x, j) == Pow2(t + 1) - 1
    decreases 5 - j
  {
    if j < 5 {
      SmearDoubles(x, t, Pow2(j));
      FillIsOnes(Smear(x, Pow2(j)), t, j + 1);
    } else {
      assert Pow2(3) == 8;
      assert Pow2(5) == 32;
      OnesToTheBottom(x, t, 32);
    }
  }

  lemma {:induction false} ShrZero(s: nat)
    ensures Shr(0, s) == 0
  {
    if s == 0 {
    } else {
      ShrZero(s - 1);
    }
  }

  lemma {:induction false} FillZero(j: nat)
    ensures Fill(0, j) == 0
    decreases 5 - j
  {
    if j >= 5 {
    } else {
      ShrZero(Pow2(j));
      FillZero(j + 1);
    }
  }

  /** The trick yields the least power of two not below the request, up to 2^31; beyond that the
      last increment wraps around to zero. */
  lemma RoundUpIsNextPower(n: word32) returns (k: nat)
    requires n > 0
    ensures k <= 32 && n <= Pow2(k) && (k > 0 ==> Pow2(k - 1) < n)
    ensures n <= MAX_RESERVE <==> k <= 31
    ensures RoundUp(n) == if n <= MAX_RESERVE then Pow2(k) else 0
  {
    k := FillRoundsUp(n - 1);
    WrapPower(k, Pow2(k));
  }

  lemma WrapPower(k: nat, p: nat)
    requires k <= 32 && p == Pow2(k)
    ensures Wrap32(p) == if k <= 31 then p else 0
  {
    PowerFits(k);
  }

  lemma {:induction false} FillRoundsUp(x: word32) returns (k: nat)
    ensures k <= 32 && x < Pow2(k) && (k > 0 ==> Pow2(k - 1) <= x)
    ensures x < MAX_RESERVE <==> k <= 31
    ensures Fill(x, 0) + 1 == Pow2(k)
  {
    if x == 0 {
      k := 0;
      FillZero(0);
    } else {
      var t := TopOf(x);
      TopBelow32(t, x);
      FillFromTop(x, t);
      k := t + 1;
    }
  }

  lemma FillFromTop(x: nat, t: nat)
    requires Pow2(t) <= x < Pow2(t + 1) && t < 32
    ensures Fill(x, 0) + 1 == Pow2(t + 1)
  {
    ClearTop(x, t, 0);
    FillIsOnes(x, t, 0);
  }

  lemma PowerFits(k: nat)
    requires k <= 32
    ensures k <= 31 ==> Pow2(k) <= MAX_RESERVE
    ensures k == 32 ==> Pow2(k) == 0x1_0000_0000
  {
    Pow32();
    if k < 31 {
      Pow2Less(k, 31);
    }
  }

  lemma {:induction false} Pow2Less(a: nat, b: nat)
    requires a < b
    ensures Pow2(a) < Pow2(b)
    decreases b
  {
    if a + 1 == b {
    } else {
      Pow2Less(a, b - 1);
    }
  }

  /** A 32-bit number's top bit is bit 31 at most, and bit 31 exactly from 2^31 on. */
  lemma TopBelow32(t: nat, x: word32)
    requires Pow2(t) <= x < Pow2(t + 1)
    ensures t <= 31 && (x < MAX_RESERVE <==> t < 31)
  {
    Pow32();
    if t > 31 {
      Pow2Less(31, t);
      if t > 32 {
        Pow2Less(32, t);
      }
    } else if t < 31 {
      if t < 30 {
        Pow2Less(t + 1, 31);
      }
    }
  }

  lemma {:induction false} LeastPower(n: nat, k: nat, j: nat)
    requires n <= Pow2(j) && (k > 0 ==> Pow2(k - 1) < n)
    ensures Pow2(k) <= Pow2(j)
  {
    if j < k {
      if j < k - 1 {
        Pow2Less(j, k - 1);
      }
    } else if k < j {
      Pow2Less(k, j);
    }
  }

  lemma {:induction false} RoundUpIsLeast(n: word32, j: nat)
    requires 0 < n <= MAX_RESERVE && n <= Pow2(j)
    ensures n <= RoundUp(n) <= Pow2(j)
  {
    var k := RoundUpIsNextPower(n);
    LeastPower(n, k, j);
  }

  // ---------------------------------------------------------------- growth and its cost

  /** Sizes of an array, and how many elements growing has copied so far. */
  datatype Shape = Shape(size: nat, reserved: nat, copied: nat)

  function Reserved(a: Shape, n: word32): Shape {
    if n > a.reserved then Shape(a.size, RoundUp(n), a.copied + a.size) else a
  }

  function Appended(a: Shape): Shape
    requires a.size + 1 < 0x1_0000_0000
  {
    Reserved(a, a.size + 1).(size := a.size + 1)
  }

  function Appends(k: nat): Shape
    requires k <= MAX_RESERVE
    ensures Appends(k).size == k
  {
    if k == 0 then Shape(0, BASE_SIZE, 0) else Appended(Appends(k - 1))
  }

  lemma BetweenPowers(n: nat, j: nat, k: nat)
    requires n <= Pow2(j) && (j > 0 ==> Pow2(j - 1) < n)
    requires Pow2(k) < n <= Pow2(k + 1)
    ensures j == k + 1
  {
    if j < k {
      Pow2Less(j, k);
    } else if k + 1 < j - 1 {
      Pow2Less(k + 1, j - 1);
    }
  }

  /** One past a power of two rounds up to the next. */
  lemma {:induction false} RoundUpPast(n: word32, k: nat)
    requires n == Pow2(k) + 1 <= MAX_RESERVE
    ensures RoundUp(n) == Pow2(k + 1)
  {
    var j := RoundUpIsNextPower(n);
    BetweenPowers(n, j, k);
  }

  ghost predicate Doubling(a: Shape, j: nat) {
    && a.reserved == Pow2(j) && a.copied + BASE_SIZE == a.reserved
    && a.size <= a.reserved && (a.reserved == BASE_SIZE || a.reserved < 2 * a.size)
  }

  lemma AppendDoubles(a: Shape, j: nat)
    requires Doubling(a, j) && a.size < MAX_RESERVE
    ensures Doubling(Appended(a), if a.size == a.reserved then j + 1 else j)
  {
    if a.size == a.reserved {
      RoundUpPast(a.size + 1, j);
    }
  }

  /** Growing one element at a time, the copies so far are what the allocation has gained, and the
      allocation is a power of two less than twice the size. */
  lemma {:induction false} AppendsDouble(k: nat) returns (j: nat)
    requires k <= MAX_RESERVE
    ensures Doubling(Appends(k), j)
  {
    if k == 0 {
      j := 3;
      assert Pow2(3) == 8;
    } else {
      j := AppendsDouble(k - 1);
      AppendDoubles(Appends(k - 1), j);
      j := if Appends(k - 1).size == Appends(k - 1).reserved then j + 1 else j;
    }
  }

  /** Appending k elements to a default array copies fewer than 2 * k elements in all. */
  lemma AppendsCostLinear(k: nat)
    requires 0 < k <= MAX_RESERVE
    ensures Appends(k).copied < 2 * k
  {
    var j := AppendsDouble(k);
  }

  // ---------------------------------------------------------------- the array

  class Array<T(0)> {
    var data: array<T>
    var size: nat
    var allocatedSize: nat
    ghost var copied: nat

    ghost predicate Valid()
      reads this
    {
      data.Length == allocatedSize && size <= allocatedSize
    }

    ghost function Contents(): (s: seq<T>)
      requires Valid()
      reads this, data
      ensures |s| == size
    {
      data[..size]
    }

    ghost function Sizes(): Shape
      reads this
    {
      Shape(size, allocatedSize, copied)
    }

    constructor (baseSize: word32)
      ensures Valid() && fresh(data)
      ensures Contents() == [] && Sizes() == Shape(0, baseSize, 0)
    {
      data := new T[baseSize];
      allocatedSize := baseSize;
      size := 0;
      copied := 0;
    }

    /** Room for n elements. The allocation fails when no memory is available; nothing changes then. */
    method Reserve(n: word32, memory: bool) returns (ok: bool)
      requires Valid() && n <= MAX_RESERVE
      modifies this
      ensures Valid() && Contents() == old(Contents())
      ensures data == old(data) || fresh(data)
      ensures ok == (memory || n <= old(allocatedSize))
      ensures Sizes() == if ok then Reserved(old(Sizes()), n) else old(Sizes())
      ensures ok ==> n <= allocatedSize
    {
      if n > allocatedSize {
        var rounded := NextPower(n);
        if !memory {
          return false;
        }
        Grow(rounded);
      }
      return true;
    }

    method NextPower(n: word32) returns (rounded: nat)
      requires 0 < n <= MAX_RESERVE
      ensures rounded == RoundUp(n) >= n
    {
      Pow32();
      RoundUpIsLeast(n, 31);
      var x := n - 1;
      x := Smear(x, 1);
      x := Smear(x, 2);
      x := Smear(x, 4);
      x := Smear(x, 8);
      x := Smear(x, 16);
      FillByHand(n - 1);
      WrapIsModulo(x + 1);
      rounded := (x + 1) % 0x1_0000_0000;
    }

    /** Move the elements to a new block of the given size. */
    method Grow(reserved: nat)
      requires Valid() && allocatedSize < reserved
      modifies this
      ensures Valid() && Contents() == old(Contents()) && fresh(data)
      ensures Sizes() == Shape(old(size), reserved, old(copied) + old(size))
    {
      var newData := new T[reserved];
      for i := 0 to size
        modifies newData
        invariant newData[..i] == data[..i]
      {
        newData[i] := data[i];
      }
      copied := copied + size;
      data := newData;
      allocatedSize := reserved;
    }

    /** At least n elements; new ones are whatever the memory holds. */
    method SetMinSize(n: word32, memory: bool) returns (ok: bool)
      requires Valid() && n <= MAX_RESERVE
      modifies this
      ensures Valid() && old(Contents()) <= Contents()
      ensures data == old(data) || fresh(data)
      ensures ok == (memory || n <= old(size) || n <= old(allocatedSize))
      ensures Sizes() == if ok && n > old(size) then Reserved(old(Sizes()), n).(size := n) else old(Sizes())
    {
      if n > size {
        ok := Reserve(n, memory);
        if !ok {
          return false;
        }
        size := n;
      }
      return true;
    }

    /** At least n elements; new ones hold fill. */
    method SetMinSizeFill(n: word32, fill: T, memory: bool) returns (ok: bool)
      requires Valid() && n <= MAX_RESERVE
      modifies this, data
      ensures Valid()
      ensures data == old(data) || fresh(data)
      ensures ok == (memory || n <= old(size) || n <= old(allocatedSize))
      ensures Contents() == if ok then Padded(old(Contents()), n, fill) else old(Contents())
    {
      if n > size {
        ghost var before := Contents();
        ok := Reserve(n, memory);
        if !ok {
          return false;
        }
        for i := size to n
          invariant Valid() && n <= allocatedSize
          invariant size == old(size) && (data == old(data) || fresh(data))
          invariant data[..i] == Padded(before, i, fill)
        {
          data[i] := fill;
        }
        size := n;
      }
      return true;
    }

    method Set(index: word32, val: T, memory: bool) returns (ok: bool)
      requires Valid() && index < MAX_RESERVE
      modifies this, data
      ensures Valid()
      ensures data == old(data) || fresh(data)
      ensures ok == (memory || index < old(size) || index < old(allocatedSize))
      ensures !ok ==> Contents() == old(Contents()) && Sizes() == old(Sizes())
      ensures ok ==>
        && size == (if index < old(size) then old(size) else index + 1)
        && Contents()[index] == val
        && forall i :: 0 <= i < old(size) && i != index ==> Contents()[i] == old(Contents())[i]
      ensures ok && index >= old(size) ==> Sizes() == Reserved(old(Sizes()), index + 1).(size := index + 1)
    {
      ghost var before := Contents();
      ok := SetMinSize(index + 1, memory);
      if ok {
        assert before == data[..|before|];
        data[index] := val;
      }
    }

    method SetFill(index: word32, val: T, fill: T, memory: bool) returns (ok: bool)
      requires Valid() && index < MAX_RESERVE
      modifies this, data
      ensures Valid()
      ensures data == old(data) || fresh(data)
      ensures ok == (memory || index < old(size) || index < old(allocatedSize))
      ensures Contents() == if ok then Padded(old(Contents()), index + 1, fill)[index := val] else old(Contents())
    {
      ok := SetMinSizeFill(index + 1, fill, memory);
      if ok {
        data[index] := val;
      }
    }

    method AddLast(val: T, memory: bool) returns (ok: bool)
      requires Valid() && size < MAX_RESERVE
      modifies this, data
      ensures Valid()
      ensures data == old(data) || fresh(data)
      ensures ok == (memory || old(size) < old(allocatedSize))
      ensures Contents() == if ok then old(Contents()) + [val] else old(Contents())
      ensures Sizes() == if ok then Appended(old(Sizes())) else old(Sizes())
    {
      ghost var before := Contents();
      ok := Set(size, val, memory);
      if ok {
        assert Contents() == before + [val];
      }
    }

    method Clear()
      requires Valid()
      modifies this
      ensures Valid() && fresh(data) && Contents() == [] && allocatedSize == BASE_SIZE
    {
      data := new T[BASE_SIZE];
      allocatedSize := BASE_SIZE;
      size := 0;
    }

    method SetSize(n: word32, memory: bool) returns (ok: bool)
      requires Valid() && n <= MAX_RESERVE
      modifies this
      ensures Valid()
      ensures data == old(data) || fresh(data)
      ensures ok == (memory || n <= old(size) || n <= old(allocatedSize))
      ensures ok ==> size == n && forall i :: 0 <= i < n && i < old(size) ==> Contents()[i] == old(Contents())[i]
      ensures !ok ==> Contents() == old(Contents())
    {
      ghost var before := Contents();
      ok := SetMinSize(n, memory);
      if ok {
        assert before == data[..|before|];
        size := n;
      }
    }

    /** The array becomes a copy of the values; when memory runs out it is left empty. */
    method SetData(values: seq<T>, memory: bool) returns (ok: bool)
      requires Valid() && |values| <= MAX_RESERVE
      modifies this
      ensures Valid() && fresh(data)
      ensures ok == (memory || |values| <= BASE_SIZE)
      ensures Contents() == if ok then values else []
    {
      Clear();
      ok := SetSize(|values|, memory);
      if ok {
        for i := 0 to |values|
          invariant Valid() && fresh(data) && size == |values|
          invariant data[..i] == values[..i]
        {
          data[i] := values[i];
        }
      }
    }
  }

  /** A sequence extended to length n with copies of fill. */
  function Padded<T>(s: seq<T>, n: nat, fill: T): (r: seq<T>)
    ensures |r| == if |s| < n then n else |s|
    ensures s <= r
    ensures forall i :: |s| <= i < |r| ==> r[i] == fill
  {
    if |s| < n then s + seq(n - |s|, _ => fill) else s
  }
}
