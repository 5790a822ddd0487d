// Vote thresholds (savitri-consensus/src/primitives/quorum.rs, types/lattice.rs) and what they
// guarantee: two quorums of one committee share a member that is not faulty.
module Quorum {
  /** The canonical threshold, ceil(2n/3). */
  function QuorumForVoters(n: nat): (q: nat)
    ensures 2 * n <= 3 * q < 2 * n + 3
  {
    if n == 0 then 0 else (2 * n + 2) / 3
  }

  /** The faults a committee of n is meant to survive. */
  function MaxFaulty(n: nat): (f: nat)
    ensures n > 0 ==> 3 * f < n <= 3 * f + 3
  {
    if n == 0 then 0 else (n - 1) / 3
  }

  /** The threshold of the lattice, 2f + 1. */
  function LatticeQuorum(n: nat): nat {
    if n == 0 then 0 else 2 * MaxFaulty(n) + 1
  }

  /** Attestations it takes: at least one, even for a threshold of zero. */
  function LatticeVotes(size: nat): (q: nat)
    ensures q >= 1 && q >= LatticeQuorum(size)
  {
    if size == 0 then 1 else LatticeQuorum(size)
  }

  /** Two sets of at least q members of a committee of n with at most f faulty members. */
  ghost predicate TwoQuorums<T>(n: nat, q: nat, f: nat, members: set<T>, faulty: set<T>, a: set<T>, b: set<T>) {
    && |members| == n
    && faulty <= members && |faulty| <= f
    && a <= members && |a| >= q
    && b <= members && |b| >= q
  }

  /** Quorums of size q always share a member that is not faulty. */
  ghost predicate Intersecting(n: nat, q: nat, f: nat) {
    forall members: set<nat>, faulty, a, b ::
      TwoQuorums(n, q, f, members, faulty, a, b) ==> a * b - faulty != {}
  }

  lemma Overlap<T>(a: set<T>, b: set<T>, members: set<T>)
    requires a <= members && b <= members
    ensures |a * b| >= |a| + |b| - |members|
  {
    assert |a + b| == |a| + |b| - |a * b|;
    Smaller(a + b, members);
  }

  lemma Smaller<T>(a: set<T>, b: set<T>)
    requires a <= b
    ensures |a| <= |b|
  {
    assert b == a + (b - a);
  }

  /** The intersection argument, for any committee. */
  lemma SharedHonest<T>(n: nat, q: nat, f: nat, members: set<T>, faulty: set<T>, a: set<T>, b: set<T>)
    requires TwoQuorums(n, q, f, members, faulty, a, b)
    requires 2 * q > n + f
    ensures a * b - faulty != {}
  {
    Overlap(a, b, members);
    assert a * b <= faulty + (a * b - faulty);
    Smaller(a * b, faulty + (a * b - faulty));
  }

  function Range(lo: nat, hi: nat): (s: set<nat>)
    requires lo <= hi
    ensures |s| == hi - lo
    ensures forall x :: x in s <==> lo <= x < hi
    decreases hi
  {
    if lo == hi then {} else Range(lo, hi - 1) + {hi - 1}
  }

  /** A threshold q is safe for n members of whom f may be faulty exactly when 2q > n + f. */
  lemma IntersectingIff(n: nat, q: nat, f: nat)
    requires q <= n && f <= n
    ensures Intersecting(n, q, f) <==> 2 * q > n + f
  {
    if 2 * q > n + f {
      forall members: set<nat>, faulty, a, b | TwoQuorums(n, q, f, members, faulty, a, b)
        ensures a * b - faulty != {}
      {
        SharedHonest(n, q, f, members, faulty, a, b);
      }
    } else {
      var members, faulty, a, b := DisjointBeyondFaults(n, q, f);
    }
  }

  /** Otherwise two quorums exist that have only faulty members in common. */
  lemma DisjointBeyondFaults(n: nat, q: nat, f: nat)
    returns (members: set<nat>, faulty: set<nat>, a: set<nat>, b: set<nat>)
    requires q <= n && f <= n && 2 * q <= n + f
    ensures TwoQuorums(n, q, f, members, faulty, a, b)
    ensures a * b <= faulty
    ensures members == Range(0, n) && a == Range(0, q) && b == Range(n - q, n)
  {
    members, a, b := Range(0, n), Range(0, q), Range(n - q, n);
    faulty := if n - q <= q then Range(n - q, q) else {};
    InRange(0, n - q, q, n);
  }

  /** The first p and the last q of n have at most f in common if p + q <= n + f. */
  lemma FewShared(n: nat, p: nat, q: nat, f: nat)
    requires p <= n && q <= n && p + q <= n + f
    ensures |Range(0, p) * Range(n - q, n)| <= f
  {
    InRange(0, n - q, p, n);
  }

  lemma InRange(lo: nat, mid: nat, end: nat, hi: nat)
    requires lo <= mid <= hi && lo <= end <= hi
    ensures Range(lo, end) <= Range(lo, hi) && Range(mid, hi) <= Range(lo, hi)
    ensures Range(lo, end) * Range(mid, hi) == if mid <= end then Range(mid, end) else {}
  {
  }

  /** ceil(2n/3) is safe for every committee that survives faults below a third. */
  lemma VotersQuorumSafe(n: nat, f: nat)
    requires 3 * f < n
    ensures 2 * QuorumForVoters(n) > n + f
    ensures Intersecting(n, QuorumForVoters(n), f)
  {
    IntersectingIff(n, QuorumForVoters(n), f);
  }

  /** 2f + 1 is safe exactly for committees of 3f + 1 members. */
  lemma LatticeQuorumSafeIff(n: nat)
    requires n > 0
    ensures Intersecting(n, LatticeQuorum(n), MaxFaulty(n)) <==> n % 3 == 1
  {
    IntersectingIff(n, LatticeQuorum(n), MaxFaulty(n));
  }

  /** The lattice threshold mirrors the canonical one exactly for those committees. */
  lemma ThresholdsAgreeIff(n: nat)
    ensures LatticeQuorum(n) <= QuorumForVoters(n)
    ensures LatticeQuorum(n) == QuorumForVoters(n) <==> n == 0 || n % 3 == 1
  {
  }
}
