// Pivot election (savitri-consensus/src/lattice/pivot.rs): slots are dealt out in proportion to the
// scores and then shuffled; the pivot of a cycle is the peer in the cycle's slot.
module Pivot {
  import opened Arithmetic
  import opened Basics
  import opened Weights

  // One slot per schedule.
  const PIVOT_TENURE_SLOTS: nat := 1

  /** Slots dealt out to the first k peers. */
  function Dealt(ranked: seq<Ranked>, slots: nat, k: nat): nat
    requires ranked != [] && k <= |ranked|
  {
    Prefix(ranked, k) * slots / Total(ranked)
  }

  lemma DealtGrows(ranked: seq<Ranked>, slots: nat, k: nat)
    requires k < |ranked|
    ensures Dealt(ranked, slots, k) <= Dealt(ranked, slots, k + 1)
  {
    assert Prefix(ranked, k) * slots <= Prefix(ranked, k + 1) * slots;
    DivMonotone(Prefix(ranked, k) * slots, Prefix(ranked, k + 1) * slots, Total(ranked));
  }

  /** Every slot is dealt out: there is nothing left to pad. */
  lemma AllDealt(ranked: seq<Ranked>, slots: nat)
    requires ranked != []
    ensures Dealt(ranked, slots, 0) == 0
    ensures Dealt(ranked, slots, |ranked|) == slots
  {
    Quotient(0, Total(ranked), 0);
    Quotient(Total(ranked) * slots, Total(ranked), slots);
  }

  // ---------- The schedule ----------

  function Share(ranked: seq<Ranked>, slots: nat, k: nat): nat
    requires k < |ranked|
  {
    DealtGrows(ranked, slots, k);
    Dealt(ranked, slots, k + 1) - Dealt(ranked, slots, k)
  }

  /** The slots of the first k peers before the shuffle. */
  function Schedule(ranked: seq<Ranked>, slots: nat, k: nat): seq<Peer>
    requires ranked != [] && k <= |ranked|
  {
    if k == 0 then []
    else Schedule(ranked, slots, k - 1) + seq(Share(ranked, slots, k - 1), _ => ranked[k - 1].peer)
  }

  lemma {:induction false} ScheduleLength(ranked: seq<Ranked>, slots: nat, k: nat)
    requires ranked != [] && k <= |ranked|
    ensures |Schedule(ranked, slots, k)| == Dealt(ranked, slots, k)
  {
    if k == 0 {
      AllDealt(ranked, slots);
    } else {
      ScheduleLength(ranked, slots, k - 1);
    }
  }

  method DealSlots(ranked: seq<Ranked>, slots: nat) returns (schedule: seq<Peer>)
    requires ranked != []
    ensures schedule == Schedule(ranked, slots, |ranked|) && |schedule| == slots
  {
    schedule := [];
    var acc := 0;
    var total := SumWeights(ranked);
    for k := 0 to |ranked|
      invariant acc == Prefix(ranked, k)
      invariant schedule == Schedule(ranked, slots, k)
    {
      var target := (acc + Weight(ranked[k])) * slots / total;
      ScheduleLength(ranked, slots, k);
      DealtGrows(ranked, slots, k);
      ghost var before := schedule;
      while |schedule| < target
        invariant |before| <= |schedule| <= target
        invariant schedule == before + seq(|schedule| - |before|, _ => ranked[k].peer)
      {
        schedule := schedule + [ranked[k].peer];
      }
      acc := acc + Weight(ranked[k]);
    }
    ScheduleLength(ranked, slots, |ranked|);
    AllDealt(ranked, slots);  // so the source's padding loop has nothing to do
  }

  function Swap(s: seq<Peer>, i: nat, j: nat): (r: seq<Peer>)
    requires i < |s| && j < |s|
    ensures |r| == |s| && multiset(r) == multiset(s)
  {
    s[i := s[j]][j := s[i]]
  }

  /** Positions i - 1 down to 1 each take the element at the position drawn for them. */
  function Shuffled(s: seq<Peer>, draw: nat -> nat, i: nat): (r: seq<Peer>)
    requires i <= |s|
    ensures |r| == |s| && multiset(r) == multiset(s)
    decreases i
  {
    if i <= 1 then s else Shuffled(Swap(s, i - 1, draw(i - 1) % i), draw, i - 1)
  }

  /** Positions from i on stay as they are, and the last of the others takes the element at its drawn position. */
  lemma {:induction false} ShuffledFrom(s: seq<Peer>, draw: nat -> nat, i: nat, k: nat)
    requires i <= |s| && k < |s|
    ensures k >= i ==> Shuffled(s, draw, i)[k] == s[k]
    ensures k + 1 == i && i > 1 ==> Shuffled(s, draw, i)[k] == s[draw(k) % i]
    decreases i
  {
    if i > 1 {
      ShuffledFrom(Swap(s, i - 1, draw(i - 1) % i), draw, i - 1, k);
    }
  }

  lemma {:induction false} SameDraws(s: seq<Peer>, draw: nat -> nat, draw': nat -> nat, i: nat)
    requires i <= |s| && forall k :: 0 <= k < i ==> draw(k) == draw'(k)
    ensures Shuffled(s, draw, i) == Shuffled(s, draw', i)
    decreases i
  {
    if i > 1 {
      SameDraws(Swap(s, i - 1, draw(i - 1) % i), draw, draw', i - 1);
    }
  }

  lemma SwapFront(s: seq<Peer>, i: nat, j: nat)
    requires j <= i < |s|
    ensures multiset(Swap(s, i, j)[..i]) == multiset(s[..i + 1]) - multiset{s[j]}
  {
    var t := Swap(s, i, j);
    assert t[..i + 1] == Swap(s[..i + 1], i, j);
    assert t[..i + 1] == t[..i] + [t[i]] && t[i] == s[j];
  }

  /** r differs from s only in the order of the first i. */
  ghost predicate Rearranged(s: seq<Peer>, r: seq<Peer>, i: nat) {
    i <= |s| == |r| && multiset(s[..i]) == multiset(r[..i]) && s[i..] == r[i..]
  }

  lemma SwapRest(s: seq<Peer>, r: seq<Peer>, i: nat, j: nat)
    requires j <= i < |s| == |r| && s[j] == r[i] && Rearranged(s, r, i + 1)
    ensures Rearranged(Swap(s, i, j), r, i)
  {
    SwapFront(s, i, j);
    assert r[..i + 1] == r[..i] + [r[i]];
    assert Swap(s, i, j)[i..] == [s[j]] + s[i + 1..];
    assert r[i..] == [r[i]] + r[i + 1..];
  }

  lemma Fetch(s: seq<Peer>, r: seq<Peer>, i: nat) returns (j: nat)
    requires 0 < i && Rearranged(s, r, i)
    ensures j < i && s[j] == r[i - 1]
  {
    assert r[..i][i - 1] in multiset(r[..i]);
    assert r[i - 1] in s[..i];
    j :| 0 <= j < i && s[..i][j] == r[i - 1];
  }

  lemma SmallRemainder(j: nat, i: nat)
    requires j < i
    ensures j % i == j
  {
  }

  ghost predicate ComesOut(s: seq<Peer>, draw: nat -> nat, i: nat, r: seq<Peer>) {
    i <= |s| && Shuffled(s, draw, i) == r
  }

  lemma FirstDraw(s: seq<Peer>, rest: nat -> nat, i: nat, j: nat, r: seq<Peer>) returns (draw: nat -> nat)
    requires 1 < i <= |s| && j < i && ComesOut(Swap(s, i - 1, j), rest, i - 1, r)
    ensures ComesOut(s, draw, i, r)
  {
    draw := (k: nat) => if k == i - 1 then j else rest(k);
    SmallRemainder(j, i);
    SameDraws(Swap(s, i - 1, j), draw, rest, i - 1);
  }

  lemma NoDraw(s: seq<Peer>, r: seq<Peer>, i: nat) returns (draw: nat -> nat)
    requires i <= 1 && Rearranged(s, r, i)
    ensures ComesOut(s, draw, i, r)
  {
    draw := _ => 0;
    OneLeft(s, r, i);
  }

  lemma OneLeft(s: seq<Peer>, r: seq<Peer>, i: nat)
    requires i <= 1 && Rearranged(s, r, i)
    ensures s == r
  {
    assert s == s[..i] + s[i..] && r == r[..i] + r[i..];
    if i == 1 {
      var j := Fetch(s, r, i);
    }
  }

  /** Every arrangement of the first i elements comes of some draws. */
  lemma {:induction false} Arranged(s: seq<Peer>, r: seq<Peer>, i: nat) returns (draw: nat -> nat)
    requires Rearranged(s, r, i)
    ensures ComesOut(s, draw, i, r)
    decreases i
  {
    if i <= 1 {
      draw := NoDraw(s, r, i);
    } else {
      var j := Fetch(s, r, i);
      SwapRest(s, r, i - 1, j);
      var rest := Arranged(Swap(s, i - 1, j), r, i - 1);
      draw := FirstDraw(s, rest, i, j, r);
    }
  }

  /** The shuffle can give every arrangement of the schedule, and nothing else. */
  lemma AnyArrangement(s: seq<Peer>, r: seq<Peer>)
    ensures (exists draw :: ComesOut(s, draw, |s|, r)) <==> multiset(s) == multiset(r)
  {
    if multiset(s) == multiset(r) {
      assert |s| == |multiset(s)| == |multiset(r)| == |r|;
      assert s[..|s|] == s && r[..|s|] == r && s[|s|..] == r[|s|..];
      var draw := Arranged(s, r, |s|);
    }
  }

  /** Fisher-Yates; draw(i) is what the generator gives for position i. */
  method Shuffle(schedule: seq<Peer>, draw: nat -> nat) returns (shuffled: seq<Peer>)
    ensures shuffled == Shuffled(schedule, draw, |schedule|)
    ensures multiset(shuffled) == multiset(schedule)
  {
    shuffled := schedule;
    var i := |schedule|;
    while i > 1
      invariant 0 <= i <= |schedule| == |shuffled|
      invariant Shuffled(shuffled, draw, i) == Shuffled(schedule, draw, |schedule|)
    {
      i := i - 1;
      var j := draw(i) % (i + 1);
      shuffled := shuffled[i := shuffled[j]][j := shuffled[i]];
    }
  }

  method BuildSchedule(ranked: seq<Ranked>, slots: nat, draw: nat -> nat) returns (schedule: seq<Peer>)
    requires ranked != []
    ensures |Schedule(ranked, slots, |ranked|)| == slots
    ensures schedule == Shuffled(Schedule(ranked, slots, |ranked|), draw, slots)
  {
    var dealt := DealSlots(ranked, slots);
    schedule := Shuffle(dealt, draw);
  }

  method PivotForCycle(cycle: nat, ranked: seq<Ranked>, draw: nat -> nat) returns (pivot: Option<Peer>)
    ensures ranked == [] ==> pivot == None
    ensures ranked != [] ==> pivot == Some(ranked[|ranked| - 1].peer)
  {
    if ranked == [] {
      return None;
    }
    var schedule := BuildSchedule(ranked, PIVOT_TENURE_SLOTS, draw);
    var slot := cycle % PIVOT_TENURE_SLOTS;
    OneSlotGoesLast(ranked);
    assert schedule[slot] in multiset(schedule);
    pivot := Some(schedule[slot]);
  }

  // ---------- What the schedule means ----------

  lemma Apart(t: nat, x: nat, y: nat, a: nat, b: nat)
    requires t * x <= a < t * x + t && t * y <= b < t * y + t
    ensures b - a - t < (y - x) * t < b - a + t
  {
    Distribute(t, y, x);
  }

  /** A peer's share differs from its exact proportion of the slots by less than one slot. */
  lemma FairShare(ranked: seq<Ranked>, slots: nat, k: nat)
    requires k < |ranked|
    ensures
      var exact := Weight(ranked[k]) * slots;
      var given := Share(ranked, slots, k) * Total(ranked);
      exact - Total(ranked) < given < exact + Total(ranked)
  {
    var t := Total(ranked);
    var a, b := Prefix(ranked, k) * slots, Prefix(ranked, k + 1) * slots;
    assert b - a == Weight(ranked[k]) * slots;
    DivBounds(a, t);
    DivBounds(b, t);
    Apart(t, Dealt(ranked, slots, k), Dealt(ranked, slots, k + 1), a, b);
  }

  lemma {:induction false} NoSlotYet(ranked: seq<Ranked>, k: nat)
    requires k < |ranked|
    ensures Schedule(ranked, 1, k) == [] && Dealt(ranked, 1, k) == 0
  {
    PrefixGrows(ranked, k, |ranked|);
    Quotient(Prefix(ranked, k), Total(ranked), 0);
    if k > 0 {
      NoSlotYet(ranked, k - 1);
    }
  }

  /** With a single slot the rounding gives it to the last, lowest ranked peer, whatever the scores. */
  lemma OneSlotGoesLast(ranked: seq<Ranked>)
    requires ranked != []
    ensures Schedule(ranked, 1, |ranked|) == [ranked[|ranked| - 1].peer]
  {
    NoSlotYet(ranked, |ranked| - 1);
    AllDealt(ranked, 1);
  }

  /** The number of slots of each peer, when no peer is ranked twice. */
  lemma {:induction false} SlotsOfPeer(ranked: seq<Ranked>, slots: nat, k: nat, i: nat)
    requires i < |ranked| && k <= |ranked|
    requires forall a, b :: 0 <= a < b < |ranked| ==> ranked[a].peer != ranked[b].peer
    ensures multiset(Schedule(ranked, slots, k))[ranked[i].peer] == if i < k then Share(ranked, slots, i) else 0
  {
    if k > 0 {
      SlotsOfPeer(ranked, slots, k - 1, i);
      CountRepeat(ranked[k - 1].peer, ranked[i].peer, Share(ranked, slots, k - 1));
    }
  }

  lemma {:induction false} CountRepeat(p: Peer, x: Peer, n: nat)
    ensures multiset(seq(n, _ => p))[x] == if x == p then n else 0
  {
    if n > 0 {
      CountRepeat(p, x, n - 1);
      assert seq(n, _ => p) == seq(n - 1, _ => p) + [p];
    }
  }
}
