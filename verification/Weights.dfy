// Peers with scores, as the pivot schedule and the proposer selection weigh them.
module Weights {
  import opened ByteStrings

  type Peer = Bytes

  datatype Ranked = Ranked(peer: Peer, score: nat)

  function Weight(r: Ranked): (n: nat)
    ensures n >= 1 && n >= r.score && (n == 1 || n == r.score)
  {
    if r.score < 1 then 1 else r.score
  }

  /** Total weight of the first k peers. */
  function Prefix(ranked: seq<Ranked>, k: nat): (n: nat)
    requires k <= |ranked|
    ensures n >= k
  {
    if k == 0 then 0 else Prefix(ranked, k - 1) + Weight(ranked[k - 1])
  }

  function Total(ranked: seq<Ranked>): nat {
    Prefix(ranked, |ranked|)
  }

  lemma {:induction false} PrefixGrows(ranked: seq<Ranked>, i: nat, k: nat)
    requires i <= k <= |ranked|
    ensures Prefix(ranked, i) + (k - i) <= Prefix(ranked, k)
  {
    if i < k {
      PrefixGrows(ranked, i, k - 1);
    }
  }

  method SumWeights(ranked: seq<Ranked>) returns (total: nat)
    ensures total == Total(ranked)
  {
    total := 0;
    for k := 0 to |ranked|
      invariant total == Prefix(ranked, k)
    {
      total := total + Weight(ranked[k]);
    }
  }
}
