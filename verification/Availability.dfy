// The availability monitor (savitri-lightnode/src/availability.rs): per peer a bitmap of the slots of
// the epoch with counters kept alongside, and a bounded set of pings waiting for an answer.
module Availability {
  import opened Basics
  import Quorum

  type Peer = nat
  type Nonce = nat

  const U32_MAX := 0xFFFF_FFFF
  const MAX_PENDING_PINGS := 256

  datatype Stats = Stats(slotsOk: int, longestMiss: int, currentMiss: int, bitmap: seq<bool>)

  const FRESH := Stats(0, 0, 0, [])

  /** u32 addition that stops at the largest value. */
  function SaturatingAdd(a: int, b: int): int {
    Capped(a + b)
  }

  function Capped(n: int): int {
    if n < U32_MAX then n else U32_MAX
  }

  // ---------- What the counters should mean ----------

  function Ones(b: seq<bool>): nat {
    if b == [] then 0 else Ones(b[..|b| - 1]) + if b[|b| - 1] then 1 else 0
  }

  /** Slots i up to but not including j were all missed. */
  ghost predicate Missed(b: seq<bool>, i: int, j: int) {
    0 <= i <= j <= |b| && forall k :: i <= k < j ==> !b[k]
  }

  ghost predicate IsTrailingMiss(b: seq<bool>, n: int) {
    Missed(b, |b| - n, |b|) && forall i :: Missed(b, i, |b|) ==> |b| - i <= n
  }

  ghost predicate IsLongestMiss(b: seq<bool>, n: int) {
    (exists i, j :: Missed(b, i, j) && j - i == n) && forall i, j :: Missed(b, i, j) ==> j - i <= n
  }

  /** The counters agree with the bitmap. */
  ghost predicate Consistent(s: Stats) {
    && s.slotsOk == Capped(Ones(s.bitmap))
    && (exists t :: IsTrailingMiss(s.bitmap, t) && s.currentMiss == Capped(t))
    && (exists l :: IsLongestMiss(s.bitmap, l) && s.longestMiss == Capped(l))
  }

  // ---------- One slot of one peer ----------

  function Slot(s: Stats, success: bool): Stats {
    var pushed := s.(bitmap := s.bitmap + [success]);
    if success then pushed.(slotsOk := SaturatingAdd(s.slotsOk, 1), currentMiss := 0)
    else
      var miss := SaturatingAdd(s.currentMiss, 1);
      pushed.(currentMiss := miss, longestMiss := if miss > s.longestMiss then miss else s.longestMiss)
  }

  lemma MissedEarlier(b: seq<bool>, x: bool, i: int, j: int)
    requires j <= |b|
    ensures Missed(b + [x], i, j) <==> Missed(b, i, j)
  {
    if Missed(b + [x], i, j) {
      forall k | i <= k < j ensures !b[k] { assert (b + [x])[k] == b[k]; }
    }
  }

  lemma TrailingAfter(b: seq<bool>, x: bool, t: int)
    requires IsTrailingMiss(b, t)
    ensures IsTrailingMiss(b + [x], if x then 0 else t + 1)
  {
    var b' := b + [x];
    MissedEarlier(b, x, |b| - t, |b|);
    forall i | Missed(b', i, |b'|) ensures |b'| - i <= if x then 0 else t + 1 {
      if i < |b'| {
        assert !b'[|b|];
        assert Missed(b', i, |b|);
        MissedEarlier(b, x, i, |b|);
      }
    }
  }

  lemma LongestAfter(b: seq<bool>, x: bool, t: int, l: int)
    requires IsTrailingMiss(b, t) && IsLongestMiss(b, l)
    ensures IsLongestMiss(b + [x], if !x && t + 1 > l then t + 1 else l)
  {
    var b' := b + [x];
    var l' := if !x && t + 1 > l then t + 1 else l;
    TrailingAfter(b, x, t);
    if l' == l {
      var i, j :| Missed(b, i, j) && j - i == l;
      MissedEarlier(b, x, i, j);
      assert Missed(b', i, j);
    } else {
      assert Missed(b', |b'| - l', |b'|);
    }
    forall i, j | Missed(b', i, j) ensures j - i <= l' {
      if j <= |b| {
        MissedEarlier(b, x, i, j);
      } else {
        assert Missed(b', i, |b'|);
      }
    }
  }

  lemma SlotKeepsOnes(s: Stats, success: bool)
    requires s.slotsOk == Capped(Ones(s.bitmap))
    ensures Slot(s, success).slotsOk == Capped(Ones(s.bitmap + [success]))
  {
    assert (s.bitmap + [success])[..|s.bitmap|] == s.bitmap;
  }

  lemma SlotCaps(s: Stats, success: bool, t: int, l: int)
    requires s.currentMiss == Capped(t) && s.longestMiss == Capped(l) && 0 <= t && 0 <= l
    ensures Slot(s, success).currentMiss == Capped(if success then 0 else t + 1)
    ensures Slot(s, success).longestMiss == Capped(if !success && t + 1 > l then t + 1 else l)
  {
  }

  lemma SlotKeeps(s: Stats, success: bool)
    requires Consistent(s)
    ensures Consistent(Slot(s, success))
  {
    var t :| IsTrailingMiss(s.bitmap, t) && s.currentMiss == Capped(t);
    var l :| IsLongestMiss(s.bitmap, l) && s.longestMiss == Capped(l);
    assert 0 <= l;
    SlotKeepsOnes(s, success);
    SlotCaps(s, success, t, l);
    TrailingAfter(s.bitmap, success, t);
    LongestAfter(s.bitmap, success, t, l);
  }

  lemma FreshConsistent()
    ensures Consistent(FRESH)
  {
    assert IsTrailingMiss([], 0);
    assert Missed([], 0, 0);
    assert IsLongestMiss([], 0);
    assert Capped(0) == 0;
  }

  /** The counters after an epoch's outcomes, slot by slot. */
  function Replay(outcomes: seq<bool>): Stats {
    if outcomes == [] then FRESH else Slot(Replay(outcomes[..|outcomes| - 1]), outcomes[|outcomes| - 1])
  }

  /** For every history the running counters are what the whole bitmap says. */
  lemma {:induction false} ReplayRefines(outcomes: seq<bool>)
    ensures Replay(outcomes).bitmap == outcomes && Consistent(Replay(outcomes))
  {
    if outcomes == [] {
      FreshConsistent();
    } else {
      var n := |outcomes| - 1;
      ReplayRefines(outcomes[..n]);
      assert outcomes == outcomes[..n] + [outcomes[n]];
      SlotKeeps(Replay(outcomes[..n]), outcomes[n]);
    }
  }

  // ---------- The monitor ----------

  /** A peer without an entry gets a fresh one. */
  function Enter(stats: map<Peer, Stats>, p: Peer): (r: map<Peer, Stats>)
    ensures r.Keys == stats.Keys + {p} && r[p] == (if p in stats then stats[p] else FRESH)
    ensures forall q :: q in stats ==> r[q] == stats[q]
    ensures AllConsistent(stats) ==> AllConsistent(r)
  {
    FreshConsistent();
    if p in stats then stats else stats[p := FRESH]
  }

  class Monitor {
    const local: Peer
    const slotsPerEpoch: nat
    var stats: map<Peer, Stats>
    var successes: set<Peer>
    var slotInEpoch: nat
    var pending: set<Nonce>
    var order: seq<Nonce>

    ghost predicate Valid()
      reads this
    {
      && slotInEpoch < slotsPerEpoch
      && AllConsistent(stats)
      && (forall n :: n in pending ==> n in order)
      && |pending| <= MAX_PENDING_PINGS
    }

    constructor (local: Peer, slotsPerEpoch: nat)
      ensures Valid() && stats == map[] && pending == {} && order == []
      ensures this.local == local && this.slotsPerEpoch == if slotsPerEpoch > 0 then slotsPerEpoch else 20
    {
      this.local := local;
      this.slotsPerEpoch := if slotsPerEpoch > 0 then slotsPerEpoch else 20;
      stats, successes, slotInEpoch, pending, order := map[], {}, 0, {}, [];
    }

    /** A heartbeat of p; an answer to a ping that is still pending, after a measurable time, counts as
        a sign of the local peer too. */
    method Heartbeat(p: Peer, answers: Option<Nonce>, elapsedMs: nat)
      requires Valid()
      modifies this`stats, this`successes
      ensures Valid() && successes == old(successes) + {p}
      ensures
        var timed := answers.Some? && answers.value in pending && elapsedMs > 0;
        stats == if timed then Enter(Enter(old(stats), p), local) else Enter(old(stats), p)
    {
      successes := successes + {p};
      stats := Enter(stats, p);
      if answers.Some? && answers.value in pending && elapsedMs > 0 {
        stats := Enter(stats, local);
      }
    }

    /** The eviction loop ends because every pending nonce is still in the queue. The oldest pings
        go first, and a ping with a new nonce is kept. */
    method SendPing(nonce: Nonce)
      requires Valid()
      modifies this`pending, this`order
      ensures Valid() && pending <= old(pending) + {nonce}
      ensures nonce !in old(order) ==> nonce in pending
      ensures exists k :: 0 <= k <= |old(order)| + 1 && order == (old(order) + [nonce])[k..]
                          && forall n :: n in old(pending) && n !in pending ==> n in (old(order) + [nonce])[..k]
    {
      pending := pending + {nonce};
      order := order + [nonce];
      ghost var queue, k := order, 0;
      while |pending| > MAX_PENDING_PINGS
        invariant 0 <= k <= |queue| && order == queue[k..]
        invariant nonce !in old(order) ==> nonce in pending
        invariant pending <= old(pending) + {nonce}
        invariant forall n :: n in pending ==> n in order
        invariant forall n :: n in old(pending) && n !in pending ==> n in queue[..k]
        decreases |order|
      {
        if |order| == 1 {
          Quorum.Smaller(pending, {order[0]});
        }
        NonEmpty(pending, order);
        var evicted := order[0];
        assert queue[..k + 1] == queue[..k] + [evicted];
        assert evicted == queue[k] && (k < |old(order)| ==> queue[k] == old(order)[k]);
        order := order[1..];
        pending := pending - {evicted};
        k := k + 1;
      }
    }

    method ProcessSlot()
      requires Valid()
      modifies this`stats, this`successes
      ensures Valid() && successes == {}
      ensures stats == SlotAll(old(stats), old(successes) + {local})
      ensures stats.Keys == old(stats).Keys + old(successes) + {local}
      ensures forall p :: p in stats ==>
                stats[p].bitmap == (if p in old(stats) then old(stats)[p].bitmap else []) + [p in old(successes) || p == local]
    {
      successes := successes + {local};
      SlotAllKeeps(stats, successes);
      stats := UpdateAll(stats, successes, slotInEpoch, slotsPerEpoch);
      successes := {};
    }

    /** Resets every peer, or only those visited up to the local one when the broadcast retry ends the
        method early. The claim for the local peer counts its answered slots. */
    method FinalizeEpoch(endAfterLocal: bool) returns (claim: nat)
      requires Valid() && local in stats
      modifies this`stats
      ensures Valid() && stats.Keys == old(stats).Keys && stats[local] == FRESH
      ensures forall p :: p in stats ==> stats[p] == FRESH || (endAfterLocal && stats[p] == old(stats)[p])
      ensures claim == Ones(old(stats)[local].bitmap)
      ensures |old(stats)[local].bitmap| < U32_MAX ==> claim == old(stats)[local].slotsOk
    {
      FreshConsistent();
      claim := CountOnes(stats[local].bitmap);
      OnesBounded(stats[local].bitmap);
      assert Consistent(stats[local]);
      stats := ResetAll(stats, local, endAfterLocal);
    }

    /** One tick of the slot timer after the ping was sent. */
    method Tick(endAfterLocal: bool)
      requires Valid()
      modifies this
      ensures Valid() && pending == old(pending) && order == old(order)
      ensures slotInEpoch == (if old(slotInEpoch) + 1 >= slotsPerEpoch then 0 else old(slotInEpoch) + 1)
      ensures successes == {}
      ensures
        var counted := SlotAll(old(stats), old(successes) + {local});
        if slotInEpoch != 0 then stats == counted
        else
          && stats.Keys == counted.Keys && stats[local] == FRESH
          && forall p :: p in stats ==> stats[p] == FRESH || (endAfterLocal && stats[p] == counted[p])
    {
      ProcessSlot();
      assert local in stats;
      if slotInEpoch + 1 >= slotsPerEpoch {
        var _ := FinalizeEpoch(endAfterLocal);
        slotInEpoch := 0;
      } else {
        slotInEpoch := slotInEpoch + 1;
      }
    }
  }

  // ---------- The loops over all peers ----------

  ghost predicate AllConsistent(stats: map<Peer, Stats>) {
    forall p :: p in stats ==> Consistent(stats[p])
  }

  function SlotAll(stats: map<Peer, Stats>, successes: set<Peer>): map<Peer, Stats> {
    map p | p in stats.Keys + successes :: Slot(if p in stats then stats[p] else FRESH, p in successes)
  }

  /** The entries after slots in which these peers were seen. */
  function AfterSlots(seen: seq<set<Peer>>): map<Peer, Stats> {
    if seen == [] then map[] else SlotAll(AfterSlots(seen[..|seen| - 1]), seen[|seen| - 1])
  }

  /** The peer was seen first in slot f, and from then on its bitmap says in which slots it was seen. */
  ghost predicate Witnesses(b: seq<bool>, seen: seq<set<Peer>>, p: Peer, f: nat) {
    && f < |seen| && p in seen[f] && (forall i :: 0 <= i < f ==> p !in seen[i])
    && |b| == |seen| - f && forall k :: f <= k < |seen| ==> (b[k - f] <==> p in seen[k])
  }

  lemma WitnessesMore(b: seq<bool>, seen: seq<set<Peer>>, p: Peer, f: nat, more: set<Peer>)
    requires Witnesses(b, seen, p, f)
    ensures Witnesses(b + [p in more], seen + [more], p, f)
  {
  }

  /** For every epoch: exactly the peers seen so far have an entry, its bitmap tells in which slots since the first, and
      the counters agree with it. */
  lemma {:induction false} SlotsAre(seen: seq<set<Peer>>, p: Peer)
    ensures p in AfterSlots(seen) <==> exists i :: 0 <= i < |seen| && p in seen[i]
    ensures p in AfterSlots(seen) ==> Consistent(AfterSlots(seen)[p]) && exists f: nat :: Witnesses(AfterSlots(seen)[p].bitmap, seen, p, f)
  {
    if seen != [] {
      var before, last := seen[..|seen| - 1], seen[|seen| - 1];
      assert seen == before + [last];
      SlotsAre(before, p);
      var entry := if p in AfterSlots(before) then AfterSlots(before)[p] else FRESH;
      FreshConsistent();
      SlotKeeps(entry, p in last);
      assert Slot(entry, p in last).bitmap == entry.bitmap + [p in last];
      if p in AfterSlots(before) {
        var f: nat :| Witnesses(entry.bitmap, before, p, f);
        WitnessesMore(entry.bitmap, before, p, f, last);
      } else if p in last {
        assert Witnesses([true], seen, p, |before|);
      }
    }
  }

  lemma SlotAllKeeps(stats: map<Peer, Stats>, successes: set<Peer>)
    requires AllConsistent(stats)
    ensures AllConsistent(SlotAll(stats, successes))
  {
    FreshConsistent();
    forall p | p in stats.Keys + successes ensures Consistent(SlotAll(stats, successes)[p]) {
      SlotKeeps(if p in stats then stats[p] else FRESH, p in successes);
    }
  }

  method UpdateEntry(s: Stats, success: bool, slotIndex: nat, slotsPerEpoch: nat) returns (s': Stats)
    requires slotIndex < slotsPerEpoch
    ensures s' == Slot(s, success)
  {
    s' := s;
    if success {
      s' := s'.(slotsOk := SaturatingAdd(s.slotsOk, 1), currentMiss := 0);
    } else {
      s' := s'.(currentMiss := SaturatingAdd(s.currentMiss, 1));
      if s'.currentMiss > s'.longestMiss {
        s' := s'.(longestMiss := s'.currentMiss);
      }
    }
    if slotIndex < slotsPerEpoch {
      s' := s'.(bitmap := s'.bitmap + [success]);
    }
  }

  method UpdateAll(stats: map<Peer, Stats>, successes: set<Peer>, slotIndex: nat, slotsPerEpoch: nat) returns (stats': map<Peer, Stats>)
    requires slotIndex < slotsPerEpoch
    ensures stats' == SlotAll(stats, successes)
  {
    stats' := map p | p in stats.Keys + successes :: if p in stats then stats[p] else FRESH;
    ghost var before := stats';
    var rest := stats'.Keys;
    while rest != {}
      invariant stats'.Keys == before.Keys && rest <= stats'.Keys
      invariant forall p :: p in stats' ==> stats'[p] == if p in rest then before[p] else Slot(before[p], p in successes)
      decreases rest
    {
      var p :| p in rest;
      var s := UpdateEntry(stats'[p], p in successes, slotIndex, slotsPerEpoch);
      stats' := stats'[p := s];
      rest := rest - {p};
    }
  }

  method ResetAll(stats: map<Peer, Stats>, local: Peer, endAfterLocal: bool) returns (stats': map<Peer, Stats>)
    requires local in stats
    ensures stats'.Keys == stats.Keys && stats'[local] == FRESH
    ensures forall p :: p in stats' ==> stats'[p] == FRESH || (endAfterLocal && stats'[p] == stats[p])
  {
    stats' := stats;
    var rest := stats.Keys;
    while rest != {}
      invariant stats'.Keys == stats.Keys && rest <= stats.Keys
      invariant forall p :: p in stats ==> stats'[p] == if p in rest then stats[p] else FRESH
      decreases rest
    {
      var p :| p in rest;
      stats' := stats'[p := FRESH];
      rest := rest - {p};
      if p == local && endAfterLocal {
        return;
      }
    }
  }

  lemma NonEmpty(pending: set<Nonce>, order: seq<Nonce>)
    requires |pending| > 0 && forall n :: n in pending ==> n in order
    ensures order != []
  {
    var n :| n in pending;
  }

  method CountOnes(b: seq<bool>) returns (n: nat)
    ensures n == Ones(b)
  {
    n := 0;
    for i := 0 to |b|
      invariant n == Ones(b[..i])
    {
      assert b[..i + 1][..i] == b[..i];
      if b[i] {
        n := n + 1;
      }
    }
    assert b[..|b|] == b;
  }

  lemma {:induction false} OnesBounded(b: seq<bool>)
    ensures Ones(b) <= |b|
  {
    if b != [] {
      OnesBounded(b[..|b| - 1]);
    }
  }
}
