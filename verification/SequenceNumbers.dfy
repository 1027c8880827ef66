/** The 256 packet sequence numbers: which are waited for, and what reply each one last got. */
module SequenceNumbers {
  import opened Basics
  import opened Framing

  const NUMBERS := 256

  /** One lock per number, and the frame last stored under it. */
  datatype Table = Table(last: byte, locked: seq<bool>, incoming: seq<Packet>)
  {
    ghost predicate Valid() { |locked| == NUMBERS && |incoming| == NUMBERS }
  }

  /** k steps after n, wrapping around at 256. */
  function Ahead(n: byte, k: nat): byte { (n + k) % NUMBERS }

  predicate HasFree(locked: seq<bool>)
    requires |locked| == NUMBERS
  {
    exists n: byte | 0 <= n < NUMBERS :: !locked[n]
  }

  /** The number sendpacket's search stops at when it starts after n and tries at most fuel + 1 times. */
  function Search(locked: seq<bool>, n: byte, fuel: nat): byte
    requires |locked| == NUMBERS
    decreases fuel
  {
    var next := (n + 1) % NUMBERS;
    if fuel == 0 || !locked[next] then next else Search(locked, next, fuel - 1)
  }

  function NextFree(locked: seq<bool>, last: byte): byte
    requires |locked| == NUMBERS
  {
    Search(locked, last, NUMBERS - 1)
  }

  /** n is the first free number at or after start, going round: k steps away, all before it taken. */
  ghost predicate FirstFree(locked: seq<bool>, start: byte, k: nat, n: byte)
    requires |locked| == NUMBERS
  {
    && n == Ahead(start, k) && !locked[n]
    && forall j: nat :: j < k ==> locked[Ahead(start, j)]
  }

  lemma FirstFreeLater(locked: seq<bool>, start: byte, k: nat, n: byte)
    requires |locked| == NUMBERS
    requires locked[start] && FirstFree(locked, Ahead(start, 1), k, n)
    ensures FirstFree(locked, start, k + 1, n)
  {
    forall j: nat | j < k + 1 ensures locked[Ahead(start, j)] {
      if j > 0 {
        assert Ahead(start, j) == Ahead(Ahead(start, 1), j - 1);
      }
    }
  }

  lemma {:induction false} SearchStops(locked: seq<bool>, n: byte, fuel: nat, free: nat) returns (k: nat)
    requires |locked| == NUMBERS
    requires free <= fuel && !locked[Ahead(Ahead(n, 1), free)]
    ensures k <= free && FirstFree(locked, Ahead(n, 1), k, Search(locked, n, fuel))
    decreases fuel
  {
    var next := Ahead(n, 1);
    if !locked[next] {
      k := 0;
    } else {
      assert free > 0;
      assert Ahead(Ahead(next, 1), free - 1) == Ahead(next, free);
      k := SearchStops(locked, next, fuel - 1, free - 1);
      FirstFreeLater(locked, next, k, Search(locked, n, fuel));
      k := k + 1;
    }
  }

  /** While any number is free, the search ends on the first free one after the last, cyclically. */
  lemma NextFreeIsFirstFree(locked: seq<bool>, last: byte)
    requires |locked| == NUMBERS && HasFree(locked)
    ensures !locked[NextFree(locked, last)]
    ensures exists k: nat :: k < NUMBERS && FirstFree(locked, Ahead(last, 1), k, NextFree(locked, last))
  {
    var n: byte :| !locked[n];
    var start := Ahead(last, 1);
    var free: nat := if n >= start then n - start else n - start + NUMBERS;
    assert Ahead(start, free) == n;
    var k := SearchStops(locked, last, NUMBERS - 1, free);
  }

  datatype Event = Send(wait: bool) | Receive(packet: Packet)

  function Allocate(t: Table, wait: bool): Table
    requires t.Valid() && HasFree(t.locked)
  {
    var n := NextFree(t.locked, t.last);
    t.(last := n, locked := t.locked[n := wait])
  }

  function Store(t: Table, p: Packet): Table
    requires t.Valid()
  {
    t.(incoming := t.incoming[p.seqNo := p], locked := t.locked[p.seqNo := false])
  }

  function StoreAll(t: Table, ps: seq<Packet>): (t': Table)
    requires t.Valid()
    ensures t'.Valid() && t'.last == t.last
    decreases |ps|
  {
    if ps == [] then t else StoreAll(Store(t, ps[0]), ps[1..])
  }

  lemma {:induction false} StoreAllAppend(t: Table, ps: seq<Packet>, qs: seq<Packet>)
    requires t.Valid()
    ensures StoreAll(t, ps + qs) == StoreAll(StoreAll(t, ps), qs)
    decreases |ps|
  {
    if ps == [] {
      assert ps + qs == qs;
    } else {
      assert (ps + qs)[1..] == ps[1..] + qs;
      StoreAllAppend(Store(t, ps[0]), ps[1..], qs);
    }
  }

  /** A send with every number taken spins forever; until a reply arrives it changes nothing. */
  function Step(t: Table, e: Event): (t': Table)
    requires t.Valid()
    ensures t'.Valid()
  {
    match e
    case Send(wait) => if HasFree(t.locked) then Allocate(t, wait) else t
    case Receive(p) => Store(t, p)
  }

  function Run(t: Table, es: seq<Event>): (t': Table)
    requires t.Valid()
    ensures t'.Valid()
    decreases |es|
  {
    if es == [] then t else Step(Run(t, es[..|es| - 1]), es[|es| - 1])
  }

  /** A send takes the first free number after the last one sent, and that number's lock exactly if it
      waits for a reply; every other number is left as it was. */
  lemma SendTakesFirstFree(t: Table, wait: bool)
    requires t.Valid() && HasFree(t.locked)
    ensures var t' := Step(t, Send(wait));
            && (exists k: nat :: k < NUMBERS && FirstFree(t.locked, Ahead(t.last, 1), k, t'.last))
            && t'.locked[t'.last] == wait && t'.incoming == t.incoming
            && forall n: byte :: n != t'.last ==> t'.locked[n] == t.locked[n]
  {
    NextFreeIsFirstFree(t.locked, t.last);
    var n := NextFree(t.locked, t.last);
    var k: nat :| k < NUMBERS && FirstFree(t.locked, Ahead(t.last, 1), k, n);
    assert Step(t, Send(wait)).last == n;
  }

  function Remove(s: seq<byte>, n: byte): seq<byte> {
    if s == [] then [] else if s[0] == n then Remove(s[1..], n) else [s[0]] + Remove(s[1..], n)
  }

  /** The numbers sent with a wait for a reply and still unanswered, oldest first. */
  function Outstanding(t: Table, es: seq<Event>): seq<byte>
    requires t.Valid()
    decreases |es|
  {
    if es == [] then [] else
      var waiting := Outstanding(t, es[..|es| - 1]);
      match es[|es| - 1]
      case Send(wait) =>
        if wait && HasFree(Run(t, es[..|es| - 1]).locked) then waiting + [Run(t, es).last] else waiting
      case Receive(p) => Remove(waiting, p.seqNo)
  }

  ghost predicate Distinct(s: seq<byte>) {
    forall i, j :: 0 <= i < j < |s| ==> s[i] != s[j]
  }

  lemma {:induction false} RemoveKeepsOthers(s: seq<byte>, n: byte)
    ensures forall m :: m in Remove(s, n) <==> m in s && m != n
    ensures Distinct(s) ==> Distinct(Remove(s, n))
  {
    if s == [] {
    } else {
      RemoveKeepsOthers(s[1..], n);
      assert s == [s[0]] + s[1..];
      assert Distinct(s) ==> Distinct(s[1..]) && s[0] !in s[1..];
    }
  }

  ghost predicate Unlocked(t: Table) {
    t.Valid() && forall n: byte :: !t.locked[n]
  }

  /** Through wrap-around and replies in any order, no two outstanding requests share a number,
      and the locked numbers are exactly the outstanding ones. */
  lemma {:induction false} OutstandingAreDistinct(t: Table, es: seq<Event>)
    requires Unlocked(t)
    ensures Distinct(Outstanding(t, es))
    ensures forall n: byte :: Run(t, es).locked[n] <==> n in Outstanding(t, es)
    decreases |es|
  {
    if es == [] {
    } else {
      var init := es[..|es| - 1];
      OutstandingAreDistinct(t, init);
      var before := Run(t, init);
      if HasFree(before.locked) {
        NextFreeIsFirstFree(before.locked, before.last);
      }
      if es[|es| - 1].Receive? {
        RemoveKeepsOthers(Outstanding(t, init), es[|es| - 1].packet.seqNo);
      }
    }
  }

  lemma {:induction false} AllBytesCovered(s: seq<byte>, k: nat)
    requires k <= NUMBERS && Distinct(s)
    requires forall n: byte :: n < k ==> n in s
    ensures |s| >= k
    decreases k
  {
    if k == 0 {
    } else {
      var n: byte := k - 1;
      RemoveOne(s, n);
      RemoveKeepsOthers(s, n);
      AllBytesCovered(Remove(s, n), k - 1);
    }
  }

  lemma {:induction false} RemoveOne(s: seq<byte>, n: byte)
    requires n in s
    ensures |Remove(s, n)| < |s|
  {
    if s[0] == n {
      RemoveShrinks(s[1..], n);
    } else {
      RemoveOne(s[1..], n);
    }
  }

  lemma {:induction false} RemoveShrinks(s: seq<byte>, n: byte)
    ensures |Remove(s, n)| <= |s|
  {
    if s == [] {
    } else {
      RemoveShrinks(s[1..], n);
    }
  }

  /** The search terminates as long as fewer than 256 requests are outstanding. */
  lemma SearchTerminates(t: Table, es: seq<Event>)
    requires Unlocked(t)
    requires |Outstanding(t, es)| < NUMBERS
    ensures HasFree(Run(t, es).locked)
  {
    OutstandingAreDistinct(t, es);
    if !HasFree(Run(t, es).locked) {
      AllBytesCovered(Outstanding(t, es), NUMBERS);
    }
  }

  /** The last reply received under a number. */
  function LastReply(es: seq<Event>, n: byte): Option<Packet>
    decreases |es|
  {
    if es == [] then None else
      var e := es[|es| - 1];
      if e.Receive? && e.packet.seqNo == n then Some(e.packet) else LastReply(es[..|es| - 1], n)
  }

  /** A waited-for number becomes free only once a reply to it is stored: whoever finds it free
      reads the newest reply received since the wait began. */
  lemma {:induction false} FreedOnlyWithReply(t: Table, es: seq<Event>, n: byte)
    requires t.Valid() && t.locked[n]
    ensures LastReply(es, n) == None ==> Run(t, es).locked[n] && Run(t, es).incoming[n] == t.incoming[n]
    ensures LastReply(es, n).Some? ==> Run(t, es).incoming[n] == LastReply(es, n).value
    decreases |es|
  {
    if es == [] {
    } else {
      FreedOnlyWithReply(t, es[..|es| - 1], n);
      var before := Run(t, es[..|es| - 1]);
      if HasFree(before.locked) {
        NextFreeIsFirstFree(before.locked, before.last);
      }
    }
  }
}
