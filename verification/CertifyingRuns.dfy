// Runs of the aggregator that certify given cells (savitri-consensus/src/lattice/aggregator.rs): whatever a node
// has certified so far, a quorum of attestations under different names adds one cell.
module CertifyingRuns {
  import opened Basics
  import opened ByteStrings
  import opened LatticeCells
  import opened LatticeAggregator
  import Quorum

  function Fill(b: Byte, n: nat): (s: Bytes)
    ensures |s| == n
  {
    seq(n, _ => b)
  }

  // ---------- Names ----------

  /** Member i is called by i zero bytes. */
  function Name(i: nat): (s: Bytes)
    ensures |s| == i
  {
    if i == 0 then [] else Name(i - 1) + [0]
  }

  function Names(s: set<nat>): set<Bytes> {
    set i | i in s :: Name(i)
  }

  lemma {:induction false} NamesSize(s: set<nat>)
    ensures |Names(s)| == |s|
  {
    if s != {} {
      var i :| i in s;
      NamesSize(s - {i});
      assert forall x :: x in Names(s - {i}) ==> |x| in s - {i};
      assert Names(s) == Names(s - {i}) + {Name(i)};
    }
  }

  // ---------- One cell ----------

  /** What is sent under the name of member i. */
  type Votes = nat -> Attestation

  ghost predicate UnderNames(v: Votes) {
    forall i :: v(i).signer == Name(i)
  }

  function Ballot(v: Votes, lo: nat, m: nat): Attestations {
    if m == 0 then map[] else Ballot(v, lo, m - 1)[Name(lo + m - 1) := v(lo + m - 1)]
  }

  lemma {:induction false} BallotIs(v: Votes, lo: nat, m: nat)
    ensures |Ballot(v, lo, m)| == m
    ensures forall x :: x in Ballot(v, lo, m) ==> lo <= |x| < lo + m
  {
    if m > 0 {
      BallotIs(v, lo, m - 1);
    }
  }

  function Voting(w: Crypto, c: Cell, v: Votes, lo: nat, m: nat): seq<Event> {
    if m == 0 then [SeeCell(c)] else Voting(w, c, v, lo, m - 1) + [SeeAttestation(w.id(c), v(lo + m - 1))]
  }

  /** A node that has seen nothing and has room for as many attestations as it takes. */
  function Fresh(size: nat): State {
    Initial(size, 0, Quorum.LatticeVotes(size))
  }

  /** Nothing is pending, and there is room for as many attestations as it takes. */
  ghost predicate Clear(s: State) {
    s.pending == map[] && s.cap >= Quorum.LatticeVotes(s.groupSize)
  }

  function Later(a: u64, b: u64): u64 {
    if a < b then b else a
  }

  /** The cell is pending with m attestations. */
  function Pending(w: Crypto, s: State, c: Cell, v: Votes, lo: nat, m: nat): State {
    s.(pending := map[w.id(c) := Signed(c, Ballot(v, lo, m))], highWater := Later(s.highWater, c.round))
  }

  /** The cell is certified. */
  function Filed(s: State, c: Cell, ballot: Attestations): State {
    s.(certified := s.certified[KeyOf(c) := Signed(c, ballot)], highWater := Later(s.highWater, c.round))
  }

  /** A first attestation of its signer for a pending cell, with room for it. */
  ghost predicate Counts(w: Crypto, s: State, c: Cell, a: Attestation) {
    && w.id(c) in s.pending && s.pending[w.id(c)].cell == c && w.AttestationOk(a, c)
    && |s.pending[w.id(c)].attestations| < s.cap && a.signer !in s.pending[w.id(c)].attestations
  }

  lemma CertifyingStep(w: Crypto, s: State, c: Cell, a: Attestation)
    requires Counts(w, s, c, a) && |s.pending[w.id(c)].attestations| + 1 >= Quorum.LatticeQuorum(s.groupSize)
    ensures
      var signed := Signed(c, s.pending[w.id(c)].attestations[a.signer := a]);
      Step(w, s, SeeAttestation(w.id(c), a)) == s.(pending := s.pending - {w.id(c)}, certified := s.certified[KeyOf(c) := signed])
  {
  }

  lemma WaitingStep(w: Crypto, s: State, c: Cell, a: Attestation)
    requires Counts(w, s, c, a) && |s.pending[w.id(c)].attestations| + 1 < Quorum.LatticeQuorum(s.groupSize)
    ensures
      var signed := Signed(c, s.pending[w.id(c)].attestations[a.signer := a]);
      Step(w, s, SeeAttestation(w.id(c), a)) == s.(pending := s.pending[w.id(c) := signed])
  {
  }

  lemma NextCounts(w: Crypto, s: State, c: Cell, v: Votes, lo: nat, m: nat)
    requires UnderNames(v) && w.AttestationOk(v(lo + m), c) && Clear(s) && m < Quorum.LatticeVotes(s.groupSize)
    ensures Counts(w, Pending(w, s, c, v, lo, m), c, v(lo + m))
    ensures Pending(w, s, c, v, lo, m).pending[w.id(c)].attestations == Ballot(v, lo, m)
    ensures |Ballot(v, lo, m)| == m
  {
    BallotIs(v, lo, m);
    assert |v(lo + m).signer| == lo + m;
  }

  /** The state after m attestations for the cell. */
  function After(w: Crypto, s: State, c: Cell, v: Votes, lo: nat, m: nat): State {
    if m < Quorum.LatticeVotes(s.groupSize) then Pending(w, s, c, v, lo, m) else Filed(s, c, Ballot(v, lo, m))
  }

  lemma NextStep(w: Crypto, s: State, c: Cell, v: Votes, lo: nat, m: nat)
    requires UnderNames(v) && w.AttestationOk(v(lo + m), c) && Clear(s) && m < Quorum.LatticeVotes(s.groupSize)
    ensures Step(w, After(w, s, c, v, lo, m), SeeAttestation(w.id(c), v(lo + m))) == After(w, s, c, v, lo, m + 1)
  {
    NextCounts(w, s, c, v, lo, m);
    if m + 1 < Quorum.LatticeVotes(s.groupSize) {
      WaitingStep(w, Pending(w, s, c, v, lo, m), c, v(lo + m));
    } else {
      CertifyingStep(w, Pending(w, s, c, v, lo, m), c, v(lo + m));
    }
  }

  lemma VotingRun(w: Crypto, s: State, c: Cell, v: Votes, lo: nat, m: nat)
    ensures Run(w, s, Voting(w, c, v, lo, m + 1)) ==
            Step(w, Run(w, s, Voting(w, c, v, lo, m)), SeeAttestation(w.id(c), v(lo + m)))
  {
    RunAppend(w, s, Voting(w, c, v, lo, m), SeeAttestation(w.id(c), v(lo + m)));
  }

  lemma NextRun(w: Crypto, s: State, c: Cell, v: Votes, lo: nat, m: nat)
    requires UnderNames(v) && w.AttestationOk(v(lo + m), c) && Clear(s) && m < Quorum.LatticeVotes(s.groupSize)
    requires Run(w, s, Voting(w, c, v, lo, m)) == After(w, s, c, v, lo, m)
    ensures Run(w, s, Voting(w, c, v, lo, m + 1)) == After(w, s, c, v, lo, m + 1)
  {
    VotingRun(w, s, c, v, lo, m);
    NextStep(w, s, c, v, lo, m);
  }

  lemma CellArrives(w: Crypto, s: State, c: Cell, v: Votes, lo: nat)
    requires w.AuthorOk(c) && Clear(s) && KeyOf(c) !in s.certified
    ensures Run(w, s, Voting(w, c, v, lo, 0)) == After(w, s, c, v, lo, 0)
  {
    RunAppend(w, s, [], SeeCell(c));
    assert [] + [SeeCell(c)] == Voting(w, c, v, lo, 0);
  }

  ghost predicate Attested(w: Crypto, c: Cell, v: Votes, lo: nat, m: nat) {
    forall i :: lo <= i < lo + m ==> w.AttestationOk(v(i), c)
  }

  /** The cell is new, and its first m attestations verify. */
  ghost predicate Proper(w: Crypto, s: State, c: Cell, v: Votes, lo: nat, m: nat) {
    UnderNames(v) && w.AuthorOk(c) && Attested(w, c, v, lo, m) && Clear(s) && KeyOf(c) !in s.certified
  }

  lemma {:induction false} VotesArrive(w: Crypto, s: State, c: Cell, v: Votes, lo: nat, m: nat)
    requires Proper(w, s, c, v, lo, m) && m <= Quorum.LatticeVotes(s.groupSize)
    ensures Run(w, s, Voting(w, c, v, lo, m)) == After(w, s, c, v, lo, m)
  {
    if m == 0 {
      CellArrives(w, s, c, v, lo);
    } else {
      VotesArrive(w, s, c, v, lo, m - 1);
      NextRun(w, s, c, v, lo, m - 1);
    }
  }

  /** Any first quorum of attestations certifies the cell, and changes nothing else. */
  lemma Certifies(w: Crypto, s: State, c: Cell, v: Votes, lo: nat, q: nat)
    requires Proper(w, s, c, v, lo, q) && q == Quorum.LatticeVotes(s.groupSize)
    ensures Run(w, s, Voting(w, c, v, lo, q)) == Filed(s, c, Ballot(v, lo, q))
  {
    VotesArrive(w, s, c, v, lo, q);
  }

  lemma {:induction false} VotingWithin(w: Crypto, c: Cell, v: Votes, lo: nat, m: nat, play: Play)
    requires c in play.cells && forall i :: lo <= i < lo + m ==> Sent(w.id(c), v(i)) in play.sent
    ensures AllWithin(play, Voting(w, c, v, lo, m))
  {
    if m > 0 {
      VotingWithin(w, c, v, lo, m - 1, play);
    }
  }

  function OneKey(key: Hash32, signature: Hash64): Votes {
    (i: nat) => Attestation(Name(i), key, signature)
  }

  // ---------- Many cells ----------

  /** The cells one after the other, each with its attestations. */
  function CertifyAll(w: Crypto, cells: seq<Cell>, v: Votes, q: nat): seq<Event> {
    if cells == [] then [] else CertifyAll(w, cells[..|cells| - 1], v, q) + Voting(w, cells[|cells| - 1], v, 0, q)
  }

  function AllFiled(s: State, cells: seq<Cell>, ballot: Attestations): State {
    if cells == [] then s else Filed(AllFiled(s, cells[..|cells| - 1], ballot), cells[|cells| - 1], ballot)
  }

  ghost predicate DistinctKeys(cells: seq<Cell>) {
    forall i, j :: 0 <= i < j < |cells| ==> KeyOf(cells[i]) != KeyOf(cells[j])
  }

  ghost predicate AllAttested(w: Crypto, cells: seq<Cell>, v: Votes, q: nat) {
    UnderNames(v) && forall i :: 0 <= i < |cells| ==> w.AuthorOk(cells[i]) && Attested(w, cells[i], v, 0, q)
  }

  /** The table then holds these cells and no others. */
  ghost predicate HoldsJust(t: map<Key, Signed>, cells: seq<Cell>) {
    && (forall i :: 0 <= i < |cells| ==> KeyOf(cells[i]) in t && t[KeyOf(cells[i])].cell == cells[i])
    && (forall k :: k in t ==> exists i :: 0 <= i < |cells| && KeyOf(cells[i]) == k)
  }

  lemma HoldsMore(t: map<Key, Signed>, cells: seq<Cell>, c: Cell, ballot: Attestations)
    requires HoldsJust(t, cells) && DistinctKeys(cells + [c])
    ensures HoldsJust(t[KeyOf(c) := Signed(c, ballot)], cells + [c])
  {
    var more, u := cells + [c], t[KeyOf(c) := Signed(c, ballot)];
    forall i | 0 <= i < |more| ensures KeyOf(more[i]) in u && u[KeyOf(more[i])].cell == more[i] {
      assert i < |cells| ==> more[i] == cells[i] && KeyOf(more[i]) != KeyOf(more[|cells|]);
    }
    forall k | k in u ensures exists i :: 0 <= i < |more| && KeyOf(more[i]) == k {
      if k == KeyOf(c) {
        assert KeyOf(more[|cells|]) == k;
      } else {
        var i :| 0 <= i < |cells| && KeyOf(cells[i]) == k;
        assert KeyOf(more[i]) == k;
      }
    }
  }

  lemma {:induction false} AllFiledHolds(s: State, cells: seq<Cell>, ballot: Attestations)
    requires s.certified == map[] && DistinctKeys(cells)
    ensures HoldsJust(AllFiled(s, cells, ballot).certified, cells)
    ensures
      var t := AllFiled(s, cells, ballot);
      t == s.(certified := t.certified, highWater := t.highWater)
  {
    if cells != [] {
      var n := |cells| - 1;
      AllFiledHolds(s, cells[..n], ballot);
      assert cells == cells[..n] + [cells[n]];
      HoldsMore(AllFiled(s, cells[..n], ballot).certified, cells[..n], cells[n], ballot);
    }
  }

  lemma {:induction false} AllFiledHigh(s: State, cells: seq<Cell>, ballot: Attestations, round: u64)
    requires s.highWater <= round && forall i :: 0 <= i < |cells| ==> cells[i].round <= round
    ensures AllFiled(s, cells, ballot).highWater <= round
  {
    if cells != [] {
      AllFiledHigh(s, cells[..|cells| - 1], ballot, round);
    }
  }

  lemma FreshKey(t: map<Key, Signed>, cells: seq<Cell>, c: Cell)
    requires HoldsJust(t, cells) && DistinctKeys(cells + [c])
    ensures KeyOf(c) !in t
  {
    var more := cells + [c];
    forall i | 0 <= i < |cells| ensures KeyOf(cells[i]) != KeyOf(c) {
      assert more[i] == cells[i] && more[|cells|] == c;
    }
  }

  lemma RunThenVotes(w: Crypto, start: State, events: seq<Event>, s: State, c: Cell, v: Votes, q: nat)
    requires Run(w, start, events) == s && Proper(w, s, c, v, 0, q) && q == Quorum.LatticeVotes(s.groupSize)
    ensures Run(w, start, events + Voting(w, c, v, 0, q)) == Filed(s, c, Ballot(v, 0, q))
  {
    RunConcat(w, start, events, Voting(w, c, v, 0, q));
    Certifies(w, s, c, v, 0, q);
  }

  /** A node that has certified cells is ready for one more. */
  lemma ReadyForMore(w: Crypto, size: nat, cells: seq<Cell>, c: Cell, v: Votes, q: nat)
    requires DistinctKeys(cells + [c]) && UnderNames(v) && w.AuthorOk(c) && Attested(w, c, v, 0, q)
    ensures
      var s := AllFiled(Fresh(size), cells, Ballot(v, 0, q));
      Proper(w, s, c, v, 0, q) && s.groupSize == size
  {
    var s := AllFiled(Fresh(size), cells, Ballot(v, 0, q));
    assert forall i :: 0 <= i < |cells| ==> (cells + [c])[i] == cells[i];
    AllFiledHolds(Fresh(size), cells, Ballot(v, 0, q));
    FreshKey(s.certified, cells, c);
  }

  /** A node certifies any cells of different authors and rounds, given their attestations. */
  lemma {:induction false} CertifiesAll(w: Crypto, size: nat, cells: seq<Cell>, v: Votes, q: nat)
    requires DistinctKeys(cells) && AllAttested(w, cells, v, q) && q == Quorum.LatticeVotes(size)
    ensures Run(w, Fresh(size), CertifyAll(w, cells, v, q)) == AllFiled(Fresh(size), cells, Ballot(v, 0, q))
  {
    if cells != [] {
      var before, c := cells[..|cells| - 1], cells[|cells| - 1];
      assert cells == before + [c];
      CertifiesAll(w, size, before, v, q);
      ReadyForMore(w, size, before, c, v, q);
      RunThenVotes(w, Fresh(size), CertifyAll(w, before, v, q), AllFiled(Fresh(size), before, Ballot(v, 0, q)), c, v, q);
    }
  }

  /** All attestations are those that the play holds. */
  lemma {:induction false} CertifyAllWithin(w: Crypto, cells: seq<Cell>, v: Votes, q: nat, play: Play)
    requires forall c :: c in cells ==> c in play.cells && forall i :: 0 <= i < q ==> Sent(w.id(c), v(i)) in play.sent
    ensures AllWithin(play, CertifyAll(w, cells, v, q))
  {
    if cells != [] {
      var n := |cells| - 1;
      CertifyAllWithin(w, cells[..n], v, q, play);
      assert cells[n] in cells;
      VotingWithin(w, cells[n], v, 0, q, play);
    }
  }
}
