/** Bubble sort with a caller's comparer. */
module XnAlgorithms {

  /** A comparer that orders elements up to ties: never both ways, and transitive with its ties. */
  ghost predicate StrictWeak<T(!new)>(comp: (T, T) -> bool) {
    && (forall a, b :: comp(a, b) ==> !comp(b, a))
    && (forall a, b, c :: !comp(b, a) && !comp(c, b) ==> !comp(c, a))
  }

  /** No later element belongs before an earlier one. */
  ghost predicate Sorted<T(!new)>(comp: (T, T) -> bool, s: seq<T>) {
    forall i, j :: 0 <= i < j < |s| ==> !comp(s[j], s[i])
  }

  /** Elements from n on are sorted, and nothing below n belongs after any of them. */
  ghost predicate Settled<T(!new)>(comp: (T, T) -> bool, s: seq<T>, n: nat) {
    n <= |s| && forall i, j :: 0 <= i < j < |s| && n <= j ==> !comp(s[j], s[i])
  }

  /** Nothing before position k belongs after the element at k. */
  ghost predicate MaxAt<T(!new)>(comp: (T, T) -> bool, s: seq<T>, k: nat) {
    k < |s| && forall i :: 0 <= i < k ==> !comp(s[k], s[i])
  }

  ghost predicate Ascending<T(!new)>(comp: (T, T) -> bool, s: seq<T>, k: nat) {
    k <= |s| && forall i, j :: 0 <= i && j == i + 1 < k ==> comp(s[i], s[j])
  }

  function Swapped<T>(s: seq<T>, i: nat): (r: seq<T>)
    requires i + 1 < |s|
    ensures |r| == |s|
  {
    s[i := s[i + 1]][i + 1 := s[i]]
  }

  lemma SwapPermutes<T>(s: seq<T>, i: nat)
    requires i + 1 < |s|
    ensures multiset(Swapped(s, i)) == multiset(s)
  {}

  /** A swap below n keeps everything settled from n on. */
  lemma SwapKeepsSettled<T(!new)>(comp: (T, T) -> bool, s: seq<T>, i: nat, n: nat)
    requires Settled(comp, s, n) && i + 1 < n
    ensures Settled(comp, Swapped(s, i), n)
  {
    var r := Swapped(s, i);
    forall a, b | 0 <= a < b < |r| && n <= b ensures !comp(r[b], r[a]) {
      var a' := if a == i then i + 1 else if a == i + 1 then i else a;
      assert r[a] == s[a'] && r[b] == s[b];
    }
  }

  /** The step of the inner loop at i: whichever way it goes, the maximum moves on to i + 1. */
  lemma StepMovesMax<T(!new)>(comp: (T, T) -> bool, s: seq<T>, i: nat)
    requires StrictWeak(comp) && i + 1 < |s| && MaxAt(comp, s, i)
    ensures MaxAt(comp, if comp(s[i], s[i + 1]) then s else Swapped(s, i), i + 1)
  {
    var r := if comp(s[i], s[i + 1]) then s else Swapped(s, i);
    forall k | 0 <= k < i + 1 ensures !comp(r[i + 1], r[k]) {
      if k < i {
        assert !comp(s[i], s[k]);
      }
    }
  }

  /** A maximum at the end of the unsettled part settles it. */
  lemma MaxSettles<T(!new)>(comp: (T, T) -> bool, s: seq<T>, n: nat)
    requires Settled(comp, s, n) && n > 0 && MaxAt(comp, s, n - 1)
    ensures Settled(comp, s, n - 1)
  {}

  /** A pass without a swap found a strictly ascending prefix. */
  lemma {:induction false} AscendingIsSorted<T(!new)>(comp: (T, T) -> bool, s: seq<T>, i: nat, j: nat, k: nat)
    requires StrictWeak(comp) && Ascending(comp, s, k) && i < j < k
    ensures !comp(s[j], s[i])
    decreases j
  {
    assert comp(s[j - 1], s[j]);
    if i == j - 1 {
    } else {
      AscendingIsSorted(comp, s, i, j - 1, k);
    }
  }

  lemma QuietPassSorts<T(!new)>(comp: (T, T) -> bool, s: seq<T>, n: nat)
    requires StrictWeak(comp) && Ascending(comp, s, n) && Settled(comp, s, n)
    ensures Sorted(comp, s)
  {
    forall i, j | 0 <= i < j < |s| ensures !comp(s[j], s[i]) {
      if j < n {
        AscendingIsSorted(comp, s, i, j, n);
      }
    }
  }

  /** What holds in the middle of a pass, at position i. */
  ghost predicate InPass<T(!new)>(comp: (T, T) -> bool, before: seq<T>, s: seq<T>, n: nat, i: nat, swapped: bool) {
    && multiset(s) == multiset(before) && i < n <= |s| == |before|
    && (StrictWeak(comp) && Settled(comp, before, n) ==> Settled(comp, s, n) && MaxAt(comp, s, i))
    && (swapped ==> n >= 2)
    && (!swapped ==> s == before && Ascending(comp, before, i + 1))
  }

  /** The step of the loop at position i. */
  function Compared<T>(comp: (T, T) -> bool, s: seq<T>, i: nat): (r: seq<T>)
    requires i + 1 < |s|
  {
    if comp(s[i], s[i + 1]) then s else Swapped(s, i)
  }

  lemma PassStep<T(!new)>(comp: (T, T) -> bool, before: seq<T>, s: seq<T>, n: nat, i: nat, swapped: bool)
    requires InPass(comp, before, s, n, i, swapped) && i + 1 < n
    ensures InPass(comp, before, Compared(comp, s, i), n, i + 1, swapped || !comp(s[i], s[i + 1]))
  {
    SwapPermutes(s, i);
    if StrictWeak(comp) && Settled(comp, before, n) {
      StepMovesMax(comp, s, i);
      if !comp(s[i], s[i + 1]) {
        SwapKeepsSettled(comp, s, i, n);
      }
    }
  }

  /** One pass over the first n elements; it swaps ties too. */
  method SortPass<T(!new)>(elements: array<T>, n: nat, comp: (T, T) -> bool) returns (swapped: bool)
    requires 1 <= n <= elements.Length
    modifies elements
    ensures multiset(elements[..]) == multiset(old(elements[..]))
    ensures StrictWeak(comp) && Settled(comp, old(elements[..]), n) ==> Settled(comp, elements[..], n - 1)
    ensures swapped ==> n >= 2
    ensures !swapped ==> elements[..] == old(elements[..]) && Ascending(comp, elements[..], n)
  {
    ghost var before := elements[..];
    swapped := false;
    for i := 0 to n - 1
      invariant InPass(comp, before, elements[..], n, i, swapped)
    {
      PassStep(comp, before, elements[..], n, i, swapped);
      ghost var after := Compared(comp, elements[..], i);
      if !comp(elements[i], elements[i + 1]) {
        var temp := elements[i];
        elements[i] := elements[i + 1];
        elements[i + 1] := temp;
        swapped := true;
      }
      assert elements[..] == after;
    }
    if StrictWeak(comp) && Settled(comp, before, n) {
      MaxSettles(comp, elements[..], n);
    }
  }

  /** Terminates and permutes for every comparer at all; sorts for every strict weak order. A swap
      needs two elements, so the unsigned bound cannot run below zero. */
  method BubbleSort<T(!new)>(elements: array<T>, comp: (T, T) -> bool)
    modifies elements
    ensures multiset(elements[..]) == multiset(old(elements[..]))
    ensures StrictWeak(comp) ==> Sorted(comp, elements[..])
  {
    var n := elements.Length;
    if n == 0 {
      return;
    }
    var swapped := true;
    while swapped
      invariant 0 <= n <= elements.Length && (swapped ==> n >= 1)
      invariant multiset(elements[..]) == multiset(old(elements[..]))
      invariant StrictWeak(comp) ==> Settled(comp, elements[..], n)
      invariant StrictWeak(comp) && !swapped ==> Sorted(comp, elements[..])
      decreases n, swapped
    {
      swapped := SortPass(elements, n, comp);
      if !swapped && StrictWeak(comp) {
        QuietPassSorts(comp, elements[..], n);
      }
      n := n - 1;
    }
  }
}
