// Weighted proposer selection (savitri-consensus/src/lib.rs): a hash value modulo the total weight is
// looked up in the running sum of the weights.
module WeightedSelection {
  import opened Weights
  import Quorum

  /** The index whose share of the running sum holds the target. */
  ghost predicate Chosen(proposers: seq<Ranked>, target: nat, i: nat) {
    i < |proposers| && Prefix(proposers, i) <= target < Prefix(proposers, i + 1)
  }

  method Select(proposers: seq<Ranked>, randVal: nat) returns (i: nat)
    ensures proposers == [] ==> i == 0
    ensures proposers != [] ==> Chosen(proposers, randVal % Total(proposers), i)
  {
    if proposers == [] {
      return 0;
    }
    var total := SumWeights(proposers);
    var target := randVal % total;
    var cumulative := 0;
    for k := 0 to |proposers|
      invariant cumulative == Prefix(proposers, k) <= target
    {
      cumulative := cumulative + Weight(proposers[k]);
      if target < cumulative {
        return k;
      }
    }
    assert false;  // the fallback to the last proposer is never reached
  }

  /** Exactly one index is chosen for each target. */
  lemma ChosenUnique(proposers: seq<Ranked>, target: nat, i: nat, j: nat)
    requires Chosen(proposers, target, i) && Chosen(proposers, target, j)
    ensures i == j
  {
    if i < j {
      PrefixGrows(proposers, i + 1, j);
    } else {
      PrefixGrows(proposers, if j < i then j + 1 else j, i);
    }
  }

  ghost function Targets(proposers: seq<Ranked>, i: nat): set<nat> {
    set t | t in Quorum.Range(0, Total(proposers)) && Chosen(proposers, t, i)
  }

  /** Over all targets below the total weight each proposer is chosen exactly as often as it weighs. */
  lemma Proportional(proposers: seq<Ranked>, i: nat)
    requires i < |proposers|
    ensures |Targets(proposers, i)| == Weight(proposers[i])
  {
    PrefixGrows(proposers, i + 1, |proposers|);
    assert Targets(proposers, i) == Quorum.Range(Prefix(proposers, i), Prefix(proposers, i + 1));
  }
}
