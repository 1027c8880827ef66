/** One cell of the room map: a 256-bit history of observations and a cached count of the open ones. */
module Occupancy {
  import opened Basics
  import opened Words

  const WORDS := 8
  const HISTORY := 256
  const WINDOW := 255
  const PATTERN: word32 := 0xAAAA_AAAA

  function CountOpen(s: seq<bool>): (n: nat)
    ensures n <= |s|
  {
    if s == [] then 0 else CountOpen(Init(s)) + (if s[|s| - 1] then 1 else 0)
  }

  function WordBits(w: word32): (r: seq<bool>)
    ensures |r| == 32
  {
    seq(32, k requires 0 <= k < 32 => Bit(w, k))
  }

  /** The history register, newest observation first: bit p is bit p % 32 of word p / 32. */
  function Register(words: seq<word32>): (r: seq<bool>)
    ensures |r| == 32 * |words|
  {
    if words == [] then [] else WordBits(words[0]) + Register(words[1..])
  }

  // ---------------------------------------------------------------- one shift

  /** The words after the loop that shifts them, and the bit it pushes out of the last one. */
  function ShiftWords(words: seq<word32>, carry: bool): (r: seq<word32>)
    ensures |r| == |words|
  {
    if words == [] then [] else [ShiftIn(words[0], carry)] + ShiftWords(words[1..], TopBit(words[0]))
  }

  function PushedOut(words: seq<word32>, carry: bool): bool {
    if words == [] then carry else PushedOut(words[1..], TopBit(words[0]))
  }

  lemma ShiftNext(words: seq<word32>, i: nat, carry: bool)
    requires i < |words|
    ensures ShiftWords(words[i..], carry) == [ShiftIn(words[i], carry)] + ShiftWords(words[i + 1..], TopBit(words[i]))
  {
    assert words[i..][1..] == words[i + 1..];
  }

  lemma Advance(done: seq<word32>, words: seq<word32>, i: nat, w: word32, rest: seq<word32>)
    requires i == |done| < |words|
    ensures (done + words[i..])[i := w] == (done + [w]) + words[i + 1..]
    ensures done + ([w] + rest) == (done + [w]) + rest
  {}

  lemma WordShift(w: word32, carry: bool)
    ensures WordBits(ShiftIn(w, carry)) + [TopBit(w)] == [carry] + WordBits(w)
  {
    var after, expected := WordBits(ShiftIn(w, carry)) + [TopBit(w)], [carry] + WordBits(w);
    forall k | 0 <= k < 33 ensures after[k] == expected[k] {
      if k < 32 {
        ShiftInBit(w, carry, k);
      } else {
        TopBitIsBit31(w);
      }
    }
  }

  /** Across all words, the loop is one push at the newest end of the register. */
  lemma {:induction false} ShiftIsPush(words: seq<word32>, carry: bool)
    ensures Register(ShiftWords(words, carry)) + [PushedOut(words, carry)] == [carry] + Register(words)
  {
    if words == [] {
    } else {
      var w, rest := words[0], words[1..];
      var c := TopBit(w);
      WordShift(w, carry);
      ShiftIsPush(rest, c);
      Regroup(WordBits(ShiftIn(w, carry)), Register(ShiftWords(rest, c)), PushedOut(rest, c),
              c, carry, WordBits(w), Register(rest));
    }
  }

  lemma Regroup(a: seq<bool>, b: seq<bool>, out: bool, mid: bool, carry: bool, x: seq<bool>, y: seq<bool>)
    requires a + [mid] == [carry] + x
    requires b + [out] == [mid] + y
    ensures (a + b) + [out] == [carry] + (x + y)
  {
    assert (a + b) + [out] == a + (b + [out]);
    assert a + ([mid] + y) == (a + [mid]) + y;
    assert ([carry] + x) + y == [carry] + (x + y);
  }

  function Push(r: seq<bool>, b: bool): seq<bool>
    requires |r| == HISTORY
  {
    [b] + Init(r)
  }

  lemma {:induction false} TopOfRegister(words: seq<word32>)
    requires words != []
    ensures Register(words)[32 * |words| - 1] == TopBit(words[|words| - 1])
  {
    if |words| == 1 {
      TopBitIsBit31(words[0]);
    } else {
      TopOfRegister(words[1..]);
    }
  }

  /** The eight shifted words hold the pushed register; the last one's top bit just left the window. */
  lemma ShiftedRegister(words: seq<word32>, b: bool)
    requires |words| == WORDS
    ensures var after := ShiftWords(words, b);
            Register(after) == Push(Register(words), b) && Register(after)[WINDOW] == TopBit(after[7])
  {
    ShiftIsPush(words, b);
    assert Push(Register(words), b) == Init([b] + Register(words));
    TopOfRegister(ShiftWords(words, b));
  }

  lemma CountPush(r: seq<bool>, b: bool)
    requires |r| == HISTORY
    ensures CountOpen(Push(r, b)[..WINDOW]) + (if Push(r, b)[WINDOW] then 1 else 0)
         == CountOpen(r[..WINDOW]) + (if b then 1 else 0)
  {
    var s := Push(r, b);
    assert s == [b] + r[..WINDOW];
    CountCons(b, r[..WINDOW]);
    assert Init(s) == s[..WINDOW];
  }

  lemma {:induction false} CountCons(b: bool, s: seq<bool>)
    ensures CountOpen([b] + s) == (if b then 1 else 0) + CountOpen(s)
  {
    if s == [] {
      assert [b] + s == [b] && Init([b]) == [];
    } else {
      assert Init([b] + s) == [b] + Init(s);
      CountCons(b, Init(s));
    }
  }

  // ---------------------------------------------------------------- the initial pattern

  function Alternating(n: nat): nat {
    if n == 0 then 0 else 4 * Alternating(n - 1) + 2
  }

  lemma {:induction false} AlternatingBit(n: nat, k: nat)
    requires k < 2 * n
    ensures Bit(Alternating(n), k) == (k % 2 == 1)
  {
    var x := Alternating(n);
    assert x % 2 == 0 && x / 2 == 2 * Alternating(n - 1) + 1;
    if k < 2 {
    } else {
      assert x / 2 / 2 == Alternating(n - 1);
      AlternatingBit(n - 1, k - 2);
    }
  }

  lemma PatternIsAlternating()
    ensures Alternating(16) == PATTERN
  {
    assert Alternating(2) == 0xA;
    assert Alternating(4) == 0xAA;
    assert Alternating(6) == 0xAAA;
    assert Alternating(8) == 0xAAAA;
    assert Alternating(10) == 0xA_AAAA;
    assert Alternating(12) == 0xAA_AAAA;
    assert Alternating(14) == 0xAAA_AAAA;
  }

  function OddPositions(n: nat): seq<bool> {
    seq(n, p requires 0 <= p < n => p % 2 == 1)
  }

  lemma {:induction false} CountOdd(n: nat)
    ensures CountOpen(OddPositions(n)) == n / 2
  {
    if n == 0 {
    } else {
      assert Init(OddPositions(n)) == OddPositions(n - 1);
      CountOdd(n - 1);
    }
  }

  lemma {:induction false} InitialRegister(words: seq<word32>)
    requires forall i :: 0 <= i < |words| ==> words[i] == PATTERN
    ensures Register(words) == OddPositions(32 * |words|)
  {
    if words == [] {
    } else {
      InitialRegister(words[1..]);
      forall k | 0 <= k < 32 ensures WordBits(words[0])[k] == (k % 2 == 1) {
        PatternIsAlternating();
        AlternatingBit(16, k);
      }
      var n := 32 * |words|;
      forall p | 0 <= p < n ensures Register(words)[p] == OddPositions(n)[p] {
        if p >= 32 {
          assert OddPositions(n - 32)[p - 32] == ((p - 32) % 2 == 1);
        }
      }
    }
  }

  // ---------------------------------------------------------------- the cell

  class Point {
    var opencount: byte
    const history: array<word32>

    ghost function Bits(): (r: seq<bool>)
      requires history.Length == WORDS
      reads history
      ensures |r| == HISTORY
    {
      Register(history[..])
    }

    /** The cached count is the number of open observations among the newest 255. */
    ghost predicate Valid()
      reads this, history
    {
      history.Length == WORDS && opencount == CountOpen(Bits()[..WINDOW])
    }

    constructor ()
      ensures Valid() && fresh(history)
      ensures Bits() == OddPositions(HISTORY)
    {
      opencount := 127;
      history := new word32[WORDS];
      new;
      for i := 0 to WORDS
        invariant opencount == 127
        invariant forall j :: 0 <= j < i ==> history[j] == PATTERN
      {
        history[i] := 0xAAAA_AAAA;
      }
      InitialRegister(history[..]);
      assert OddPositions(HISTORY)[..WINDOW] == OddPositions(WINDOW);
      CountOdd(WINDOW);
    }

    /** Probability from 0 to 255 that the cell can be crossed. */
    method GetProb() returns (p: byte)
      requires Valid()
      ensures p == CountOpen(Bits()[..WINDOW])
    {
      p := opencount;
    }

    method ShiftHistory(bit: bool)
      requires history.Length == WORDS
      modifies history
      ensures history[..] == ShiftWords(old(history[..]), bit)
    {
      ghost var words, done: seq<word32> := history[..], [];
      var newbit := bit;
      for i := 0 to WORDS
        invariant |done| == i && history[..] == done + words[i..]
        invariant ShiftWords(words, bit) == done + ShiftWords(words[i..], newbit)
      {
        ShiftNext(words, i, newbit);
        assert history[i] == words[i];
        var oldbit := TopBit(history[i]);
        history[i] := ShiftIn(history[i], newbit);
        Advance(done, words, i, ShiftIn(words[i], newbit), ShiftWords(words[i + 1..], oldbit));
        done := done + [ShiftIn(words[i], newbit)];
        newbit := oldbit;
      }
    }

    /** The count is a byte: it may pass through 256, read as 0, between the two updates. */
    method Shift(newbit: bool)
      requires Valid()
      modifies this`opencount, history
      ensures Valid() && Bits() == Push(old(Bits()), newbit)
    {
      CountPush(Bits(), newbit);
      if newbit {
        opencount := if opencount == 255 then 0 else opencount + 1;
      }
      ShiftedRegister(history[..], newbit);
      ShiftHistory(newbit);
      if TopBit(history[7]) {
        opencount := if opencount == 0 then 255 else opencount - 1;
      }
    }

    method IncOpen()
      requires Valid()
      modifies this`opencount, history
      ensures Valid() && Bits() == Push(old(Bits()), true)
    {
      Shift(true);
    }

    method IncClosed()
      requires Valid()
      modifies this`opencount, history
      ensures Valid() && Bits() == Push(old(Bits()), false)
    {
      Shift(false);
    }
  }

  // ---------------------------------------------------------------- runs of observations

  /** A register after a run of observations, oldest first. */
  function Observed(r: seq<bool>, obs: seq<bool>): (r': seq<bool>)
    requires |r| == HISTORY
    ensures |r'| == HISTORY
    decreases |obs|
  {
    if obs == [] then r else Push(Observed(r, Init(obs)), obs[|obs| - 1])
  }

  function Reverse(s: seq<bool>): (r: seq<bool>)
    ensures |r| == |s|
  {
    if s == [] then [] else [s[|s| - 1]] + Reverse(Init(s))
  }

  /** A register's bits, oldest first, followed by the observations. */
  function Timeline(r: seq<bool>, obs: seq<bool>): (t: seq<bool>)
    ensures |t| == |r| + |obs|
  {
    Reverse(r) + obs
  }

  function Last(s: seq<bool>, n: nat): (r: seq<bool>)
    requires n <= |s|
    ensures |r| == n
  {
    s[|s| - n..]
  }

  lemma {:induction false} ReverseCons(b: bool, s: seq<bool>)
    ensures Reverse([b] + s) == Reverse(s) + [b]
  {
    if s == [] {
      assert [b] + s == [b] && Init([b]) == [];
    } else {
      assert Init([b] + s) == [b] + Init(s);
      ReverseCons(b, Init(s));
    }
  }

  lemma {:induction false} CountReverse(s: seq<bool>)
    ensures CountOpen(Reverse(s)) == CountOpen(s)
  {
    if s == [] {
    } else {
      CountReverse(Init(s));
      CountCons(s[|s| - 1], Reverse(Init(s)));
    }
  }

  lemma LastSnoc(s: seq<bool>, b: bool, n: nat)
    requires 0 < n <= |s|
    ensures Last(s + [b], n) == Last(s, n)[1..] + [b]
  {}

  lemma {:induction false} ReversePush(r: seq<bool>, b: bool)
    requires |r| == HISTORY
    ensures Reverse(Push(r, b)) == Reverse(r)[1..] + [b]
  {
    ReverseCons(b, Init(r));
    ReverseInit(r);
  }

  lemma {:induction false} RecentStep(r: seq<bool>, t: seq<bool>, b: bool)
    requires |r| == HISTORY <= |t| && Reverse(r) == Last(t, HISTORY)
    ensures Reverse(Push(r, b)) == Last(t + [b], HISTORY)
  {
    ReversePush(r, b);
    LastSnoc(t, b, HISTORY);
  }

  lemma TimelineSnoc(r: seq<bool>, obs: seq<bool>)
    requires obs != []
    ensures Timeline(r, obs) == Timeline(r, Init(obs)) + [obs[|obs| - 1]]
  {}

  lemma {:induction false} RegisterIsRecentPast(r: seq<bool>, obs: seq<bool>)
    requires |r| == HISTORY
    ensures Reverse(Observed(r, obs)) == Last(Timeline(r, obs), HISTORY)
    decreases |obs|
  {
    if obs == [] {
      assert Timeline(r, obs) == Reverse(r);
    } else {
      var b := obs[|obs| - 1];
      RegisterIsRecentPast(r, Init(obs));
      RecentStep(Observed(r, Init(obs)), Timeline(r, Init(obs)), b);
      TimelineSnoc(r, obs);
    }
  }

  lemma ReverseInit(s: seq<bool>)
    requires s != []
    ensures Reverse(Init(s)) == Reverse(s)[1..]
  {}

  /** After any run of observations the count over the register's window is the number of open
      entries among the last 255 of the initial bits followed by the observations. */
  lemma {:induction false} CountIsRecentOpen(r: seq<bool>, obs: seq<bool>)
    requires |r| == HISTORY
    ensures CountOpen(Observed(r, obs)[..WINDOW]) == CountOpen(Last(Timeline(r, obs), WINDOW))
  {
    var now := Observed(r, obs);
    RegisterIsRecentPast(r, obs);
    assert Init(now) == now[..WINDOW];
    ReverseInit(now);
    CountReverse(now[..WINDOW]);
    assert Last(Timeline(r, obs), HISTORY)[1..] == Last(Timeline(r, obs), WINDOW);
  }
}
