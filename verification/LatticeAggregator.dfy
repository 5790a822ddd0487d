// The cell aggregator (savitri-consensus/src/lattice/aggregator.rs): cells and attestations arrive
// in any order, a cell with a quorum of attestations is certified, old cells are dropped.
module LatticeAggregator {
  import opened Basics
  import opened ByteStrings
  import opened LatticeCells
  import Quorum

  type Attestations = map<Bytes, Attestation>

  /** A cell with its attestations by signer: pending, or certified. The source keeps the
      attestations of a certificate in a list sorted by signer. */
  datatype Signed = Signed(cell: Cell, attestations: Attestations)

  datatype State = State(groupSize: nat, retention: nat, cap: nat,
                         pending: map<CellId, Signed>, certified: map<Key, Signed>, highWater: u64)

  datatype Outcome =
    | Waiting(signers: nat, quorum: nat)
    | Certified(certificate: Signed)
    | AlreadyCertified
    | BadSignature
    | UnknownCell
    | CapReached

  /** What the light node configures, in every group; nothing sets the size later. */
  const DEFAULT_GROUP_SIZE := 5

  datatype Event = SeeCell(cell: Cell) | SeeAttestation(id: CellId, attestation: Attestation) | Collect

  function Initial(groupSize: nat, retention: nat, cap: nat): State {
    State(groupSize, retention, cap, map[], map[], 0)
  }

  // ---------- Steps ----------

  function ObserveCell(w: Crypto, s: State, c: Cell): State {
    if !w.AuthorOk(c) then s
    else
      var seen := s.(highWater := if s.highWater < c.round then c.round else s.highWater);
      if KeyOf(c) in s.certified || w.id(c) in s.pending then seen
      else seen.(pending := s.pending[w.id(c) := Signed(c, map[])])
  }

  function ObserveAttestation(w: Crypto, s: State, id: CellId, a: Attestation): (State, Outcome) {
    if id !in s.pending then
      (s, if exists k :: k in s.certified && w.id(s.certified[k].cell) == id then AlreadyCertified else UnknownCell)
    else
      var p := s.pending[id];
      if !w.AttestationOk(a, p.cell) then (s, BadSignature)
      else if |p.attestations| >= s.cap && a.signer !in p.attestations then (s, CapReached)
      else
        var signed := Signed(p.cell, p.attestations[a.signer := a]);
        var quorum := Quorum.LatticeQuorum(s.groupSize);
        if |signed.attestations| >= quorum then
          (s.(pending := s.pending - {id}, certified := s.certified[KeyOf(p.cell) := signed]), Certified(signed))
        else
          (s.(pending := s.pending[id := signed]), Waiting(|signed.attestations|, quorum))
  }

  function Cutoff(s: State): nat {
    if s.highWater < s.retention then 0 else s.highWater - s.retention
  }

  function KeptPending(pending: map<CellId, Signed>, cutoff: nat): map<CellId, Signed> {
    map id | id in pending && pending[id].cell.round >= cutoff :: pending[id]
  }

  function KeptCertified(certified: map<Key, Signed>, cutoff: nat): map<Key, Signed> {
    map k | k in certified && k.round >= cutoff :: certified[k]
  }

  function GcOldCells(s: State): State {
    s.(pending := KeptPending(s.pending, Cutoff(s)), certified := KeptCertified(s.certified, Cutoff(s)))
  }

  function Step(w: Crypto, s: State, e: Event): State {
    match e
    case SeeCell(c) => ObserveCell(w, s, c)
    case SeeAttestation(id, a) => ObserveAttestation(w, s, id, a).0
    case Collect => GcOldCells(s)
  }

  function Run(w: Crypto, s: State, events: seq<Event>): State {
    if events == [] then s else Step(w, Run(w, s, events[..|events| - 1]), events[|events| - 1])
  }

  lemma RunAppend(w: Crypto, s: State, events: seq<Event>, e: Event)
    ensures Run(w, s, events + [e]) == Step(w, Run(w, s, events), e)
  {
    assert (events + [e])[..|events|] == events;
  }

  lemma LastApart(a: seq<Event>, b: seq<Event>)
    requires b != []
    ensures b == b[..|b| - 1] + [b[|b| - 1]] && a + b == (a + b[..|b| - 1]) + [b[|b| - 1]]
  {
  }

  lemma {:induction false} RunConcat(w: Crypto, s: State, a: seq<Event>, b: seq<Event>)
    ensures Run(w, s, a + b) == Run(w, Run(w, s, a), b)
  {
    if b == [] {
      assert a + b == a;
    } else {
      var rest, e := b[..|b| - 1], b[|b| - 1];
      RunConcat(w, s, a, rest);
      LastApart(a, b);
      RunAppend(w, s, a + rest, e);
      RunAppend(w, Run(w, s, a), rest, e);
    }
  }

  lemma RunOne(w: Crypto, s: State, e: Event)
    ensures Run(w, s, [e]) == Step(w, s, e)
  {
    assert [e][..0] == [];
  }

  // ---------- The object that takes these steps ----------

  class Aggregator {
    const crypto: Crypto
    const groupSize: nat
    const retention: nat
    const cap: nat
    var pending: map<CellId, Signed>
    var certified: map<Key, Signed>
    var highWater: u64

    ghost function View(): State
      reads this
    {
      State(groupSize, retention, cap, pending, certified, highWater)
    }

    constructor (crypto: Crypto, groupSize: nat, retention: nat, cap: nat)
      ensures View() == Initial(groupSize, retention, cap) && this.crypto == crypto
    {
      this.crypto := crypto;
      this.groupSize, this.retention, this.cap := groupSize, retention, cap;
      pending, certified, highWater := map[], map[], 0;
    }

    method Observe(cell: Cell) returns (ok: bool)
      modifies this
      ensures View() == ObserveCell(crypto, old(View()), cell)
      ensures ok == crypto.AuthorOk(cell)
    {
      ok := crypto.AuthorOk(cell);
      if !ok { return; }
      if highWater < cell.round {
        highWater := cell.round;
      }
      if KeyOf(cell) in certified { return; }
      var id := crypto.id(cell);
      if id !in pending {
        pending := pending[id := Signed(cell, map[])];
      }
    }

    method Attest(id: CellId, a: Attestation) returns (outcome: Outcome)
      modifies this
      ensures (View(), outcome) == ObserveAttestation(crypto, old(View()), id, a)
    {
      if id !in pending {
        if exists k :: k in certified && crypto.id(certified[k].cell) == id {
          return AlreadyCertified;
        }
        return UnknownCell;
      }
      var p := pending[id];
      if !crypto.AttestationOk(a, p.cell) { return BadSignature; }
      if |p.attestations| >= cap && a.signer !in p.attestations { return CapReached; }
      p := p.(attestations := p.attestations[a.signer := a]);
      pending := pending[id := p];
      var quorum := Quorum.LatticeQuorum(groupSize);
      if |p.attestations| >= quorum {
        pending := pending - {id};
        certified := certified[KeyOf(p.cell) := p];
        outcome := Certified(p);
        assert pending == old(pending) - {id};
      } else {
        outcome := Waiting(|p.attestations|, quorum);
      }
    }

    /** Drops the cells below the retention window and counts them. */
    method Gc() returns (evicted: nat)
      modifies this
      ensures View() == GcOldCells(old(View()))
      ensures evicted == (|old(pending)| - |pending|) + (|old(certified)| - |certified|)
    {
      var cutoff := if highWater < retention then 0 else highWater - retention;
      var kept, stale := DropPending(pending, cutoff);
      var left, dropped := DropCertified(certified, cutoff);
      pending, certified := kept, left;
      evicted := stale + dropped;
    }
  }

  method DropPending(pending: map<CellId, Signed>, cutoff: nat) returns (kept: map<CellId, Signed>, dropped: nat)
    ensures kept == KeptPending(pending, cutoff) && dropped == |pending| - |kept|
  {
    var stale := set id | id in pending && pending[id].cell.round < cutoff;
    RemoveKeys(pending, stale);
    kept, dropped := pending - stale, |stale|;
  }

  method DropCertified(certified: map<Key, Signed>, cutoff: nat) returns (kept: map<Key, Signed>, dropped: nat)
    ensures kept == KeptCertified(certified, cutoff) && dropped == |certified| - |kept|
  {
    var past := set k | k in certified && k.round < cutoff;
    RemoveKeys(certified, past);
    kept, dropped := certified - past, |past|;
  }

  lemma RemoveKeys<K, V>(m: map<K, V>, s: set<K>)
    requires s <= m.Keys
    ensures |m - s| == |m| - |s|
  {
    assert (m - s).Keys == m.Keys - s;
    assert |m.Keys| == |m| && |(m - s).Keys| == |m - s|;
  }

  // ---------- What every run keeps ----------

  /** An attestation handed to a node, for the cell with this identifier. */
  datatype Sent = Sent(id: CellId, attestation: Attestation)

  /** The cells and attestations that reach nodes. */
  datatype Play = Play(cells: set<Cell>, sent: set<Sent>)

  /** A delivered attestation that verifies for a delivered cell. */
  ghost predicate Backs(w: Crypto, play: Play, a: Attestation, c: Cell) {
    c in play.cells && Sent(w.id(c), a) in play.sent && w.AttestationOk(a, c)
  }

  ghost predicate WellSigned(w: Crypto, play: Play, p: Signed) {
    && p.cell in play.cells && w.AuthorOk(p.cell)
    && forall x :: x in p.attestations ==> p.attestations[x].signer == x && Backs(w, play, p.attestations[x], p.cell)
  }

  ghost predicate PendingOk(w: Crypto, play: Play, n: nat, high: u64, id: CellId, p: Signed) {
    && WellSigned(w, play, p)
    && w.id(p.cell) == id
    && p.cell.round <= high
    && (|p.attestations| == 0 || |p.attestations| < Quorum.LatticeQuorum(n))
  }

  ghost predicate CertifiedOk(w: Crypto, play: Play, n: nat, high: u64, k: Key, p: Signed) {
    && WellSigned(w, play, p)
    && KeyOf(p.cell) == k
    && k.round <= high
    && |p.attestations| >= Quorum.LatticeVotes(n)
  }

  ghost predicate AllPendingOk(w: Crypto, play: Play, s: State) {
    forall id :: id in s.pending ==> PendingOk(w, play, s.groupSize, s.highWater, id, s.pending[id])
  }

  ghost predicate AllCertifiedOk(w: Crypto, play: Play, s: State) {
    forall k :: k in s.certified ==> CertifiedOk(w, play, s.groupSize, s.highWater, k, s.certified[k])
  }

  /** A certified cell is no longer pending. */
  ghost predicate Apart(w: Crypto, s: State) {
    forall k :: k in s.certified ==> w.id(s.certified[k].cell) !in s.pending
  }

  ghost predicate Inv(w: Crypto, play: Play, s: State) {
    AllPendingOk(w, play, s) && AllCertifiedOk(w, play, s) && Apart(w, s)
  }

  ghost predicate Within(play: Play, e: Event) {
    match e
    case SeeCell(c) => c in play.cells
    case SeeAttestation(id, a) => Sent(id, a) in play.sent
    case Collect => true
  }

  ghost predicate AllWithin(play: Play, events: seq<Event>) {
    forall i :: 0 <= i < |events| ==> Within(play, events[i])
  }

  /** Identifiers stand for the contents of the cells in play. */
  ghost predicate Faithful(w: Crypto, cells: set<Cell>) {
    forall c, d :: c in cells && d in cells ==> (w.id(c) == w.id(d) <==> Same(c, d))
  }

  /** A hash of the signed bytes without collisions is faithful if no name holds a separator. */
  lemma CollisionFreeIsFaithful(w: Crypto, cells: set<Cell>)
    requires forall c :: c in cells ==> PlainNames(c)
    requires forall c, d :: c in cells && d in cells ==> (w.id(c) == w.id(d) <==> SignableBytes(c) == SignableBytes(d))
    ensures Faithful(w, cells)
  {
    forall c, d | c in cells && d in cells ensures w.id(c) == w.id(d) <==> Same(c, d) {
      SignableInjective(c, d);
    }
  }

  lemma StepKeeps(w: Crypto, play: Play, s: State, e: Event)
    requires Inv(w, play, s) && Faithful(w, play.cells) && Within(play, e)
    ensures Inv(w, play, Step(w, s, e))
    ensures Step(w, s, e).groupSize == s.groupSize
  {
    match e
    case SeeCell(c) => CellKeeps(w, play, s, c);
    case SeeAttestation(id, a) => AttestationKeeps(w, play, s, id, a);
    case Collect => GcKeeps(w, play, s);
  }

  lemma CellKeeps(w: Crypto, play: Play, s: State, c: Cell)
    requires Inv(w, play, s) && Faithful(w, play.cells) && c in play.cells
    ensures Inv(w, play, ObserveCell(w, s, c))
  {
    CellKeepsPending(w, play, s, c);
    CellKeepsApart(w, play, s, c);
    assert AllCertifiedOk(w, play, ObserveCell(w, s, c)) by {
      forall k | k in s.certified
        ensures CertifiedOk(w, play, s.groupSize, ObserveCell(w, s, c).highWater, k, s.certified[k])
      {
        assert CertifiedOk(w, play, s.groupSize, s.highWater, k, s.certified[k]);
      }
    }
  }

  lemma CellKeepsPending(w: Crypto, play: Play, s: State, c: Cell)
    requires AllPendingOk(w, play, s) && c in play.cells
    ensures AllPendingOk(w, play, ObserveCell(w, s, c))
  {
    var s' := ObserveCell(w, s, c);
    forall id | id in s'.pending ensures PendingOk(w, play, s.groupSize, s'.highWater, id, s'.pending[id]) {
      if id in s.pending {
        assert PendingOk(w, play, s.groupSize, s.highWater, id, s.pending[id]);
      } else {
        NewPendingOk(w, play, s.groupSize, s'.highWater, c);
      }
    }
  }

  lemma NewPendingOk(w: Crypto, play: Play, n: nat, high: u64, c: Cell)
    requires c in play.cells && w.AuthorOk(c) && c.round <= high
    ensures PendingOk(w, play, n, high, w.id(c), Signed(c, map[]))
  {
  }

  lemma CellKeepsApart(w: Crypto, play: Play, s: State, c: Cell)
    requires Apart(w, s) && AllCertifiedOk(w, play, s) && Faithful(w, play.cells) && c in play.cells
    ensures Apart(w, ObserveCell(w, s, c))
  {
    forall k | k in s.certified ensures w.id(s.certified[k].cell) !in ObserveCell(w, s, c).pending {
      assert CertifiedOk(w, play, s.groupSize, s.highWater, k, s.certified[k]);
      var d := s.certified[k].cell;
      assert w.id(d) == w.id(c) ==> Same(d, c);
    }
  }

  lemma GcKeeps(w: Crypto, play: Play, s: State)
    requires Inv(w, play, s)
    ensures Inv(w, play, GcOldCells(s))
  {
  }

  lemma AttestationKeeps(w: Crypto, play: Play, s: State, id: CellId, a: Attestation)
    requires Inv(w, play, s) && Sent(id, a) in play.sent
    ensures Inv(w, play, ObserveAttestation(w, s, id, a).0)
  {
    if id in s.pending {
      var p := s.pending[id];
      assert PendingOk(w, play, s.groupSize, s.highWater, id, p);
      var signed := Signed(p.cell, p.attestations[a.signer := a]);
      if w.AttestationOk(a, p.cell) {
        assert WellSigned(w, play, signed);
        assert a.signer in signed.attestations;
        FilingKeeps(w, play, s, id, signed);
      }
    }
  }

  lemma FilingKeeps(w: Crypto, play: Play, s: State, id: CellId, p: Signed)
    requires Inv(w, play, s) && id in s.pending && WellSigned(w, play, p) && |p.attestations| >= 1
    requires w.id(p.cell) == id && p.cell.round <= s.highWater
    ensures |p.attestations| >= Quorum.LatticeQuorum(s.groupSize) ==>
              Inv(w, play, s.(pending := s.pending - {id}, certified := s.certified[KeyOf(p.cell) := p]))
    ensures |p.attestations| < Quorum.LatticeQuorum(s.groupSize) ==>
              Inv(w, play, s.(pending := s.pending[id := p]))
  {
  }

  /** Whatever arrives in whatever order: every certified entry is filed under its own round and
      author, carries a quorum of delivered and verified attestations and lies below the high-water round. */
  lemma {:induction false} RunKeeps(w: Crypto, play: Play, s: State, events: seq<Event>)
    requires Inv(w, play, s) && Faithful(w, play.cells) && AllWithin(play, events)
    ensures Inv(w, play, Run(w, s, events))
    ensures Run(w, s, events).groupSize == s.groupSize
  {
    if events != [] {
      var n := |events| - 1;
      RunKeeps(w, play, s, events[..n]);
      StepKeeps(w, play, Run(w, s, events[..n]), events[n]);
    }
  }

  // ---------- How long a certificate stays ----------

  /** The attestation brings a pending cell to the threshold. */
  ghost predicate Completes(w: Crypto, s: State, id: CellId, a: Attestation) {
    && id in s.pending && w.AttestationOk(a, s.pending[id].cell)
    && (|s.pending[id].attestations| < s.cap || a.signer in s.pending[id].attestations)
    && |s.pending[id].attestations[a.signer := a]| >= Quorum.LatticeQuorum(s.groupSize)
  }

  ghost predicate Stays(s: State, t: State, k: Key)
    requires k in s.certified
  {
    k in t.certified && Same(s.certified[k].cell, t.certified[k].cell)
  }

  /** A certified cell is not final: it stays through a step exactly when it is not collected and the step
      does not complete another pending cell of its author and round. */
  lemma SlotStaysIff(w: Crypto, play: Play, s: State, e: Event, k: Key)
    requires Inv(w, play, s) && Faithful(w, play.cells) && k in s.certified
    ensures Stays(s, Step(w, s, e), k) <==>
            match e
            case SeeCell(_) => true
            case SeeAttestation(id, a) => !(Completes(w, s, id, a) && KeyOf(s.pending[id].cell) == k)
            case Collect => k.round >= Cutoff(s)
  {
    assert CertifiedOk(w, play, s.groupSize, s.highWater, k, s.certified[k]);
    if e.SeeAttestation? && Completes(w, s, e.id, e.attestation) {
      assert PendingOk(w, play, s.groupSize, s.highWater, e.id, s.pending[e.id]);
    }
  }

  /** Exactly when each answer to an attestation is given, and that only a counted one changes anything. */
  lemma AnswerIff(w: Crypto, s: State, id: CellId, a: Attestation)
    ensures
      var (t, outcome) := ObserveAttestation(w, s, id, a);
      var known := id in s.pending;
      var verified := known && w.signs(a.signerPubkey, a.signature, s.pending[id].cell);
      var room := known && (|s.pending[id].attestations| < s.cap || a.signer in s.pending[id].attestations);
      && (outcome == UnknownCell <==> !known && !exists k :: k in s.certified && w.id(s.certified[k].cell) == id)
      && (outcome == AlreadyCertified <==> !known && exists k :: k in s.certified && w.id(s.certified[k].cell) == id)
      && (outcome == BadSignature <==> known && !verified)
      && (outcome == CapReached <==> verified && !room)
      && (outcome.Certified? || outcome.Waiting? <==> verified && room)
      && (!(outcome.Certified? || outcome.Waiting?) ==> t == s)
  {
  }

  /** A counted attestation joins those of its cell, in place of an earlier one of its signer. The cell is certified
      with all of them exactly when they have become a quorum, and otherwise waits with them. */
  lemma CountedIs(w: Crypto, s: State, id: CellId, a: Attestation)
    requires id in s.pending && w.signs(a.signerPubkey, a.signature, s.pending[id].cell)
    requires |s.pending[id].attestations| < s.cap || a.signer in s.pending[id].attestations
    ensures
      var (t, outcome) := ObserveAttestation(w, s, id, a);
      var c, joined := s.pending[id].cell, s.pending[id].attestations[a.signer := a];
      var n := |s.pending[id].attestations.Keys + {a.signer}|;
      && (outcome == Certified(Signed(c, joined)) <==> n >= Quorum.LatticeQuorum(s.groupSize))
      && (outcome == Waiting(n, Quorum.LatticeQuorum(s.groupSize)) <==> n < Quorum.LatticeQuorum(s.groupSize))
      && (outcome.Certified? ==> id !in t.pending && t.certified == s.certified[Key(c.round, c.author) := Signed(c, joined)])
      && (outcome.Waiting? ==> id in t.pending && t.pending[id] == Signed(c, joined) && t.certified == s.certified)
      && (forall x :: x != id ==>
            (x in t.pending <==> x in s.pending) && (x in t.pending && x in s.pending ==> t.pending[x] == s.pending[x]))
      && t.highWater == s.highWater && t.groupSize == s.groupSize && t.retention == s.retention && t.cap == s.cap
  {
    var joined := s.pending[id].attestations[a.signer := a];
    assert joined.Keys == s.pending[id].attestations.Keys + {a.signer};
    assert |joined| == |joined.Keys|;
  }

  /** A cell whose signature verifies arrives. */
  ghost predicate Hears(w: Crypto, e: Event) {
    e.SeeCell? && w.AuthorOk(e.cell)
  }

  /** No cell that arrived is of a higher round, and unless the round is the first one some cell is of it. */
  ghost predicate Highest(w: Crypto, events: seq<Event>, first: u64, round: u64) {
    && first <= round && (forall i :: 0 <= i < |events| && Hears(w, events[i]) ==> events[i].cell.round <= round)
    && (round == first || exists i :: 0 <= i < |events| && Hears(w, events[i]) && events[i].cell.round == round)
  }

  lemma HighestMore(w: Crypto, events: seq<Event>, e: Event, first: u64, round: u64)
    requires Highest(w, events, first, round)
    ensures Highest(w, events + [e], first, if Hears(w, e) && round < e.cell.round then e.cell.round else round)
  {
    var more := events + [e];
    assert forall i :: 0 <= i < |events| ==> more[i] == events[i];
    if Hears(w, e) && round < e.cell.round {
      assert more[|events|] == e;
    } else if round != first {
      var i :| 0 <= i < |events| && Hears(w, events[i]) && events[i].cell.round == round;
      assert Hears(w, more[i]);
    }
  }

  lemma HighWaterStep(w: Crypto, s: State, e: Event)
    ensures Step(w, s, e).highWater == if Hears(w, e) && s.highWater < e.cell.round then e.cell.round else s.highWater
    ensures Step(w, s, e).retention == s.retention
  {
  }

  /** The high-water round is the highest round of all cells that ever arrived: it never falls. */
  lemma {:induction false} HighWaterIs(w: Crypto, s: State, events: seq<Event>)
    ensures Run(w, s, events).retention == s.retention
    ensures Highest(w, events, s.highWater, Run(w, s, events).highWater)
  {
    if events != [] {
      var before, e := events[..|events| - 1], events[|events| - 1];
      assert events == before + [e];
      HighWaterIs(w, s, before);
      HighWaterStep(w, Run(w, s, before), e);
      HighestMore(w, before, e, s.highWater, Run(w, s, before).highWater);
    }
  }

  /** A certified cell survives a collection exactly when no cell that arrived before is of a round further ahead
      than the retention. Rounds of arriving cells are not checked against anything: after one cell of a far round
      no collection leaves a cell of the present. */
  lemma CollectedIff(w: Crypto, s: State, events: seq<Event>, k: Key)
    requires s == Initial(s.groupSize, s.retention, s.cap) && k in Run(w, s, events).certified
    ensures k in Run(w, s, events + [Collect]).certified <==>
            forall i :: 0 <= i < |events| && Hears(w, events[i]) ==> events[i].cell.round <= k.round + s.retention
  {
    HighWaterIs(w, s, events);
    RunAppend(w, s, events, Collect);
  }

  /** The same for a pending cell; and what survives is left as it is. */
  lemma PendingCollectedIff(w: Crypto, s: State, events: seq<Event>, id: CellId)
    requires s == Initial(s.groupSize, s.retention, s.cap) && id in Run(w, s, events).pending
    ensures
      var before, after := Run(w, s, events), Run(w, s, events + [Collect]);
      && (id in after.pending <==>
          forall i :: 0 <= i < |events| && Hears(w, events[i]) ==>
            events[i].cell.round <= before.pending[id].cell.round + s.retention)
      && (id in after.pending ==> after.pending[id] == before.pending[id])
      && (forall k :: k in after.certified ==> k in before.certified && after.certified[k] == before.certified[k])
  {
    HighWaterIs(w, s, events);
    RunAppend(w, s, events, Collect);
  }

  // ---------- Agreement between nodes ----------

  /** The members of a group by name, with their keys. */
  type Roster = map<Bytes, Hash32>

  /** Every attestation that counts names a member and carries that member's key. The aggregator does
      not check this; attestations of the runtime are of this kind. */
  ghost predicate Bound(w: Crypto, play: Play, roster: Roster) {
    forall c, a :: Backs(w, play, a, c) ==> a.signer in roster && a.signerPubkey == roster[a.signer]
  }

  ghost predicate KeyBacks(w: Crypto, play: Play, key: Hash32, c: Cell) {
    exists a :: Backs(w, play, a, c) && a.signerPubkey == key
  }

  /** The key backs at most one cell of an author in a round. */
  ghost predicate Single(w: Crypto, play: Play, key: Hash32) {
    forall c, d :: KeyBacks(w, play, key, c) && KeyBacks(w, play, key, d) && KeyOf(c) == KeyOf(d) ==> Same(c, d)
  }

  /** So do the keys of all members that are not faulty. Neither the aggregator nor the runtime sees to it. */
  ghost predicate OneEach(w: Crypto, play: Play, roster: Roster, faulty: set<Bytes>) {
    forall m :: m in roster && m !in faulty ==> Single(w, play, roster[m])
  }

  /** No two different verified cells of one author and round are in play. */
  ghost predicate NoTwins(w: Crypto, cells: set<Cell>) {
    forall c, d :: c in cells && d in cells && w.AuthorOk(c) && w.AuthorOk(d) && KeyOf(c) == KeyOf(d) ==> Same(c, d)
  }

  /** A committee in which quorums of attestations exclude each other. The threshold comes from the configured
      group size, which nothing ties to the number of members. */
  ghost predicate Committee(w: Crypto, play: Play, size: nat, roster: Roster, faulty: set<Bytes>) {
    && faulty <= roster.Keys && Bound(w, play, roster) && OneEach(w, play, roster, faulty)
    && 2 * Quorum.LatticeVotes(size) > |roster| + |faulty|
  }

  lemma SignersBack(w: Crypto, play: Play, roster: Roster, p: Signed)
    requires Bound(w, play, roster) && WellSigned(w, play, p)
    ensures p.attestations.Keys <= roster.Keys
    ensures forall x :: x in p.attestations ==> KeyBacks(w, play, roster[x], p.cell)
  {
    forall x | x in p.attestations ensures x in roster && KeyBacks(w, play, roster[x], p.cell) {
      assert Backs(w, play, p.attestations[x], p.cell);
    }
  }

  ghost predicate Holds(s: State, c: Cell) {
    KeyOf(c) in s.certified && s.certified[KeyOf(c)].cell == c
  }

  /** Two certificates of one author and round carry the same cell. */
  lemma CertificatesAgree(w: Crypto, play: Play, size: nat, roster: Roster, faulty: set<Bytes>, p: Signed, r: Signed)
    requires Committee(w, play, size, roster, faulty) && WellSigned(w, play, p) && WellSigned(w, play, r)
    requires |p.attestations| >= Quorum.LatticeVotes(size) && |r.attestations| >= Quorum.LatticeVotes(size)
    requires KeyOf(p.cell) == KeyOf(r.cell)
    ensures Same(p.cell, r.cell)
  {
    SignersBack(w, play, roster, p);
    SignersBack(w, play, roster, r);
    var a, b := p.attestations.Keys, r.attestations.Keys;
    Quorum.SharedHonest(|roster|, Quorum.LatticeVotes(size), |faulty|, roster.Keys, faulty, a, b);
    var x :| x in a * b - faulty;
    assert Single(w, play, roster[x]);
  }

  /** Why the tables of two nodes agree: quorums exclude each other, or there is nothing to exclude. */
  ghost predicate Agreeing(w: Crypto, play: Play, size: nat, roster: Roster, faulty: set<Bytes>) {
    Committee(w, play, size, roster, faulty) || NoTwins(w, play.cells)
  }

  lemma TablesAgree(w: Crypto, play: Play, size: nat, roster: Roster, faulty: set<Bytes>, s: State, t: State, k: Key)
    requires AllCertifiedOk(w, play, s) && AllCertifiedOk(w, play, t) && s.groupSize == t.groupSize == size
    requires Agreeing(w, play, size, roster, faulty) && k in s.certified && k in t.certified
    ensures Same(s.certified[k].cell, t.certified[k].cell)
  {
    assert CertifiedOk(w, play, size, s.highWater, k, s.certified[k]);
    assert CertifiedOk(w, play, size, t.highWater, k, t.certified[k]);
    if !NoTwins(w, play.cells) {
      CertificatesAgree(w, play, size, roster, faulty, s.certified[k], t.certified[k]);
    }
  }

  /** No two runs, on any nodes and with any events, certify different cells of one author in one round. */
  lemma RunsAgree(w: Crypto, play: Play, size: nat, roster: Roster, faulty: set<Bytes>,
                  s: State, events: seq<Event>, t: State, others: seq<Event>, k: Key)
    requires Faithful(w, play.cells) && AllWithin(play, events) && AllWithin(play, others)
    requires s == Initial(size, s.retention, s.cap) && t == Initial(size, t.retention, t.cap)
    requires Agreeing(w, play, size, roster, faulty)
    requires k in Run(w, s, events).certified && k in Run(w, t, others).certified
    ensures Same(Run(w, s, events).certified[k].cell, Run(w, t, others).certified[k].cell)
  {
    RunKeeps(w, play, s, events);
    RunKeeps(w, play, t, others);
    TablesAgree(w, play, size, roster, faulty, Run(w, s, events), Run(w, t, others), k);
  }
}
