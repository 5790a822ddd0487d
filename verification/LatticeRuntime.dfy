// The runtime's handlers (savitri-lightnode/src/lattice_runtime.rs): a node attests every cell of its group
// that its aggregator accepts, except those under its own name. What this means for a whole group: when
// cells get certified, and when two nodes certify different ones.
module LatticeRuntime {
  import opened ByteStrings
  import opened LatticeCells
  import opened LatticeAggregator
  import Quorum

  /** The group: the size it is configured for, its members with their keys, how they sign, and which of them run. */
  datatype Group = Group(crypto: Crypto, id: Bytes, size: nat, roster: Roster, sign: (Bytes, Cell) -> Hash64,
                         active: set<Bytes>, retention: nat, cap: nat)

  function Endorse(g: Group, m: Bytes, c: Cell): Attestation
    requires m in g.roster
  {
    Attestation(m, g.roster[m], g.sign(m, c))
  }

  function Letter(g: Group, m: Bytes, c: Cell): Sent
    requires m in g.roster
  {
    Sent(g.crypto.id(c), Endorse(g, m, c))
  }

  /** What members sign verifies under their key. */
  ghost predicate Sound(g: Group) {
    && g.roster != map[] && g.active <= g.roster.Keys
    && forall m, c :: m in g.roster ==> g.crypto.AttestationOk(Endorse(g, m, c), c)
  }

  function Threshold(g: Group): nat {
    Quorum.LatticeVotes(g.size)
  }

  predicate Acceptable(g: Group, c: Cell) {
    c.groupId == g.id && g.crypto.AuthorOk(c)
  }

  // ---------- One node ----------

  /** A cell that arrives, or that the node publishes itself: the new aggregator state and what is broadcast. */
  function HearCell(g: Group, m: Bytes, s: State, c: Cell): (State, set<Sent>)
    requires m in g.roster
  {
    if !Acceptable(g, c) then (s, {})
    else if c.author == m then (ObserveCell(g.crypto, s, c), {})
    else (ObserveAttestation(g.crypto, ObserveCell(g.crypto, s, c), g.crypto.id(c), Endorse(g, m, c)).0, {Letter(g, m, c)})
  }

  class Runtime {
    const group: Group
    const me: Bytes
    const aggregator: Aggregator
    var outbox: set<Sent>

    ghost predicate Valid()
      reads this
    {
      me in group.roster && aggregator.crypto == group.crypto
    }

    constructor (group: Group, me: Bytes)
      requires me in group.roster
      ensures Valid() && this.group == group && this.me == me && outbox == {} && fresh(aggregator)
      ensures aggregator.View() == Initial(group.size, group.retention, group.cap)
    {
      this.group, this.me, outbox := group, me, {};
      aggregator := new Aggregator(group.crypto, group.size, group.retention, group.cap);
    }

    /** `inGroup` tells whether the node has been assigned to the group. */
    method ProcessCell(inGroup: bool, c: Cell)
      requires Valid()
      modifies this, aggregator
      ensures Valid()
      ensures
        var (s, sent) := HearCell(group, me, old(aggregator.View()), c);
        if inGroup then aggregator.View() == s && outbox == old(outbox) + sent
        else aggregator.View() == old(aggregator.View()) && outbox == old(outbox)
      ensures
        var attests := inGroup && c.groupId == group.id && group.crypto.signs(c.authorPubkey, c.signature, c) && c.author != me;
        outbox == if attests
                  then old(outbox) + {Sent(group.crypto.id(c), Attestation(me, group.roster[me], group.sign(me, c)))}
                  else old(outbox)
    {
      if !inGroup || c.groupId != group.id { return; }
      var ok := aggregator.Observe(c);
      if !ok { return; }
      if c.author == me { return; }
      var a := Endorse(group, me, c);
      var _ := aggregator.Attest(group.crypto.id(c), a);
      outbox := outbox + {Sent(group.crypto.id(c), a)};
    }

    method ProcessAttestation(v: Sent)
      requires Valid()
      modifies aggregator
      ensures Valid()
      ensures aggregator.View() == ObserveAttestation(group.crypto, old(aggregator.View()), v.id, v.attestation).0
    {
      var _ := aggregator.Attest(v.id, v.attestation);
    }
  }

  // ---------- A group of nodes ----------

  /** The aggregators, the attestations that nodes are about to make after observing a cell, and those sent. */
  datatype Net = Net(nodes: map<Bytes, State>, due: set<(Bytes, Cell)>, sent: set<Sent>)

  /** Steps are locked sections: a node observes a cell, which may come from anywhere, and later attests it;
      letters are those that nodes have broadcast. */
  datatype Delivery =
    | CellTo(to: Bytes, cell: Cell)
    | EndorseBy(to: Bytes, cell: Cell)
    | LetterTo(to: Bytes, letter: Sent)
    | CollectAt(to: Bytes)

  function Start(g: Group): Net {
    Net(map m | m in g.active :: Initial(g.size, g.retention, g.cap), {}, {})
  }

  function NetStep(g: Group, net: Net, e: Delivery): Net {
    if e.to !in net.nodes || e.to !in g.roster then net
    else
      match e
      case CellTo(m, c) =>
        if !Acceptable(g, c) then net
        else net.(nodes := net.nodes[m := ObserveCell(g.crypto, net.nodes[m], c)],
                  due := if c.author == m then net.due else net.due + {(m, c)})
      case EndorseBy(m, c) =>
        if (m, c) !in net.due then net
        else Net(net.nodes[m := ObserveAttestation(g.crypto, net.nodes[m], g.crypto.id(c), Endorse(g, m, c)).0],
                 net.due - {(m, c)}, net.sent + {Letter(g, m, c)})
      case LetterTo(m, v) =>
        if v !in net.sent then net
        else net.(nodes := net.nodes[m := ObserveAttestation(g.crypto, net.nodes[m], v.id, v.attestation).0])
      case CollectAt(m) => net.(nodes := net.nodes[m := GcOldCells(net.nodes[m])])
  }

  function NetRun(g: Group, events: seq<Delivery>): Net {
    if events == [] then Start(g) else NetStep(g, NetRun(g, events[..|events| - 1]), events[|events| - 1])
  }

  lemma NetAppend(g: Group, events: seq<Delivery>, e: Delivery)
    ensures NetRun(g, events + [e]) == NetStep(g, NetRun(g, events), e)
  {
    assert (events + [e])[..|events|] == events;
  }

  /** What a node broadcasts on a cell: its attestation, exactly when the cell is of the group, carries a signature that
      verifies, and is under another name. */
  lemma BroadcastIs(g: Group, m: Bytes, s: State, c: Cell)
    requires m in g.roster
    ensures HearCell(g, m, s, c).1 ==
            if c.groupId == g.id && g.crypto.signs(c.authorPubkey, c.signature, c) && c.author != m
            then {Sent(g.crypto.id(c), Attestation(m, g.roster[m], g.sign(m, c)))} else {}
  {
  }

  /** What one step of the net is for the aggregator of m. */
  function Heeds(g: Group, net: Net, e: Delivery, m: Bytes): seq<Event>
    requires m in g.roster
  {
    if e.to != m then []
    else
      match e
      case CellTo(_, c) => if Acceptable(g, c) then [SeeCell(c)] else []
      case EndorseBy(_, c) => if (m, c) in net.due then [SeeAttestation(g.crypto.id(c), Endorse(g, m, c))] else []
      case LetterTo(_, v) => if v in net.sent then [SeeAttestation(v.id, v.attestation)] else []
      case CollectAt(_) => [Collect]
  }

  function HeardBy(g: Group, events: seq<Delivery>, m: Bytes): seq<Event>
    requires m in g.roster
  {
    if events == [] then []
    else
      var n := |events| - 1;
      HeardBy(g, events[..n], m) + Heeds(g, NetRun(g, events[..n]), events[n], m)
  }

  lemma HeedsOne(g: Group, net: Net, e: Delivery, m: Bytes)
    requires m in g.roster && m in net.nodes && e.to == m && Heeds(g, net, e, m) != []
    ensures NetStep(g, net, e).nodes == net.nodes[m := Step(g.crypto, net.nodes[m], Heeds(g, net, e, m)[0])]
  {
  }

  lemma HeedsNone(g: Group, net: Net, e: Delivery, m: Bytes)
    requires m in g.roster && m in net.nodes && Heeds(g, net, e, m) == []
    ensures m in NetStep(g, net, e).nodes && NetStep(g, net, e).nodes[m] == net.nodes[m]
  {
  }

  lemma StepProjects(g: Group, net: Net, e: Delivery, m: Bytes)
    requires m in g.roster && m in net.nodes
    ensures m in NetStep(g, net, e).nodes
    ensures NetStep(g, net, e).nodes[m] == Run(g.crypto, net.nodes[m], Heeds(g, net, e, m))
  {
    var heeds := Heeds(g, net, e, m);
    if heeds == [] {
      HeedsNone(g, net, e, m);
    } else {
      HeedsOne(g, net, e, m);
      RunOne(g.crypto, net.nodes[m], heeds[0]);
      assert heeds == [heeds[0]];
    }
  }

  /** In every run of the net each node is where an aggregator of its own gets by what the node heeds. */
  lemma {:induction false} NetProjects(g: Group, events: seq<Delivery>, m: Bytes)
    requires m in g.active && m in g.roster
    ensures m in NetRun(g, events).nodes
    ensures NetRun(g, events).nodes[m] == Run(g.crypto, Initial(g.size, g.retention, g.cap), HeardBy(g, events, m))
  {
    if events != [] {
      var n := |events| - 1;
      NetProjects(g, events[..n], m);
      StepProjects(g, NetRun(g, events[..n]), events[n], m);
      RunConcat(g.crypto, Initial(g.size, g.retention, g.cap), HeardBy(g, events[..n], m),
                Heeds(g, NetRun(g, events[..n]), events[n], m));
    }
  }

  /** A cell under another name, observed and then attested. */
  lemma HandledIs(g: Group, net: Net, m: Bytes, c: Cell)
    requires m in g.roster && m in net.nodes && (m, c) !in net.due && Acceptable(g, c) && c.author != m
    ensures
      var (s, sent) := HearCell(g, m, net.nodes[m], c);
      NetStep(g, NetStep(g, net, CellTo(m, c)), EndorseBy(m, c)) == Net(net.nodes[m := s], net.due, net.sent + sent)
  {
    var seen := ObserveCell(g.crypto, net.nodes[m], c);
    var s := ObserveAttestation(g.crypto, seen, g.crypto.id(c), Endorse(g, m, c)).0;
    assert NetStep(g, net, CellTo(m, c)) == Net(net.nodes[m := seen], net.due + {(m, c)}, net.sent);
    assert net.due + {(m, c)} - {(m, c)} == net.due;
    assert net.nodes[m := seen][m := s] == net.nodes[m := s];
  }

  /** A cell that is not accepted or under the own name. */
  lemma NotHandledIs(g: Group, net: Net, m: Bytes, c: Cell)
    requires m in g.roster && m in net.nodes && (m, c) !in net.due && (!Acceptable(g, c) || c.author == m)
    ensures
      var (s, sent) := HearCell(g, m, net.nodes[m], c);
      var after := NetStep(g, net, CellTo(m, c));
      after == Net(net.nodes[m := s], net.due, net.sent + sent) && NetStep(g, after, EndorseBy(m, c)) == after
  {
    assert net.nodes[m := net.nodes[m]] == net.nodes;
  }

  /** The sections of handling a cell that is not due yet. */
  function Handling(m: Bytes, c: Cell): seq<Delivery> {
    if c.author == m then [CellTo(m, c)] else [CellTo(m, c), EndorseBy(m, c)]
  }

  /** The net does what the object does: the node gets the state the object gets, what is sent grows by exactly what
      the object puts out, and nothing else changes. */
  lemma NetIsObject(g: Group, before: seq<Delivery>, m: Bytes, c: Cell)
    requires m in g.roster && m in NetRun(g, before).nodes && (m, c) !in NetRun(g, before).due
    ensures
      var net := NetRun(g, before);
      var (s, sent) := HearCell(g, m, net.nodes[m], c);
      NetRun(g, before + Handling(m, c)) == Net(net.nodes[m := s], net.due, net.sent + sent)
  {
    var observed := before + [CellTo(m, c)];
    NetAppend(g, before, CellTo(m, c));
    if c.author != m {
      assert before + Handling(m, c) == observed + [EndorseBy(m, c)];
      NetAppend(g, observed, EndorseBy(m, c));
    }
    if c.author != m && Acceptable(g, c) {
      HandledIs(g, NetRun(g, before), m, c);
    } else {
      NotHandledIs(g, NetRun(g, before), m, c);
    }
  }

  ghost predicate FromCells(cells: set<Cell>, events: seq<Delivery>) {
    forall i :: 0 <= i < |events| && events[i].CellTo? ==> events[i].cell in cells
  }

  // ---------- What every run keeps ----------

  function Accepted(g: Group, cells: set<Cell>): set<Cell> {
    set c | c in cells && Acceptable(g, c)
  }

  /** A letter of a running member about an accepted cell under another name. */
  ghost predicate Genuine(g: Group, cells: set<Cell>, v: Sent) {
    exists m, c :: m in g.active && m in g.roster && c in Accepted(g, cells) && m != c.author && v == Letter(g, m, c)
  }

  ghost predicate Capped(p: Signed, cap: nat) {
    |p.attestations| <= cap
  }

  ghost predicate AllCapped(s: State, cap: nat) {
    && (forall id :: id in s.pending ==> Capped(s.pending[id], cap))
    && (forall k :: k in s.certified ==> Capped(s.certified[k], cap))
  }

  ghost predicate NodeOk(g: Group, cells: set<Cell>, sent: set<Sent>, s: State) {
    && Inv(g.crypto, Play(Accepted(g, cells), sent), s)
    && s.groupSize == g.size && s.cap == g.cap && AllCapped(s, g.cap)
  }

  ghost predicate NetOk(g: Group, cells: set<Cell>, net: Net) {
    && net.nodes.Keys == g.active
    && (forall m :: m in net.nodes ==> NodeOk(g, cells, net.sent, net.nodes[m]))
    && (forall m, c :: (m, c) in net.due ==> m in g.active && c in Accepted(g, cells) && m != c.author)
    && (forall v :: v in net.sent ==> Genuine(g, cells, v))
  }

  lemma BacksGrows(w: Crypto, cells: set<Cell>, sent: set<Sent>, more: set<Sent>, p: Signed)
    requires WellSigned(w, Play(cells, sent), p) && sent <= more
    ensures WellSigned(w, Play(cells, more), p)
  {
    forall x | x in p.attestations ensures Backs(w, Play(cells, more), p.attestations[x], p.cell) {
      assert Backs(w, Play(cells, sent), p.attestations[x], p.cell);
    }
  }

  lemma InvGrows(w: Crypto, cells: set<Cell>, sent: set<Sent>, more: set<Sent>, s: State)
    requires Inv(w, Play(cells, sent), s) && sent <= more
    ensures Inv(w, Play(cells, more), s)
  {
    forall id | id in s.pending ensures PendingOk(w, Play(cells, more), s.groupSize, s.highWater, id, s.pending[id]) {
      assert PendingOk(w, Play(cells, sent), s.groupSize, s.highWater, id, s.pending[id]);
      BacksGrows(w, cells, sent, more, s.pending[id]);
    }
    forall k | k in s.certified ensures CertifiedOk(w, Play(cells, more), s.groupSize, s.highWater, k, s.certified[k]) {
      assert CertifiedOk(w, Play(cells, sent), s.groupSize, s.highWater, k, s.certified[k]);
      BacksGrows(w, cells, sent, more, s.certified[k]);
    }
  }

  lemma AttestationCapped(w: Crypto, s: State, id: CellId, a: Attestation)
    requires AllCapped(s, s.cap)
    ensures AllCapped(ObserveAttestation(w, s, id, a).0, s.cap)
  {
  }

  lemma LetterKeeps(g: Group, cells: set<Cell>, sent: set<Sent>, s: State, v: Sent)
    requires NodeOk(g, cells, sent, s) && v in sent
    ensures NodeOk(g, cells, sent, ObserveAttestation(g.crypto, s, v.id, v.attestation).0)
  {
    assert Sent(v.id, v.attestation) == v;
    AttestationKeeps(g.crypto, Play(Accepted(g, cells), sent), s, v.id, v.attestation);
    AttestationCapped(g.crypto, s, v.id, v.attestation);
  }

  lemma CellHeardKeeps(g: Group, cells: set<Cell>, sent: set<Sent>, s: State, c: Cell)
    requires Faithful(g.crypto, cells) && c in Accepted(g, cells) && NodeOk(g, cells, sent, s)
    ensures NodeOk(g, cells, sent, ObserveCell(g.crypto, s, c))
  {
    CellKeeps(g.crypto, Play(Accepted(g, cells), sent), s, c);
  }

  lemma NodesGrow(g: Group, cells: set<Cell>, net: Net, sent: set<Sent>)
    requires NetOk(g, cells, net) && net.sent <= sent
    ensures forall m :: m in net.nodes ==> NodeOk(g, cells, sent, net.nodes[m])
  {
    forall m | m in net.nodes ensures NodeOk(g, cells, sent, net.nodes[m]) {
      assert NodeOk(g, cells, net.sent, net.nodes[m]);
      InvGrows(g.crypto, Accepted(g, cells), net.sent, sent, net.nodes[m]);
    }
  }

  lemma EndorseKeeps(g: Group, cells: set<Cell>, net: Net, m: Bytes, c: Cell)
    requires Sound(g) && NetOk(g, cells, net) && m in net.nodes && (m, c) in net.due
    ensures NetOk(g, cells, NetStep(g, net, EndorseBy(m, c)))
  {
    var sent := net.sent + {Letter(g, m, c)};
    NodesGrow(g, cells, net, sent);
    LetterKeeps(g, cells, sent, net.nodes[m], Letter(g, m, c));
    assert Genuine(g, cells, Letter(g, m, c));
  }

  lemma NodeReplaced(g: Group, cells: set<Cell>, net: Net, m: Bytes, s: State)
    requires NetOk(g, cells, net) && m in net.nodes && NodeOk(g, cells, net.sent, s)
    ensures NetOk(g, cells, net.(nodes := net.nodes[m := s]))
  {
  }

  lemma ObserveKeeps(g: Group, cells: set<Cell>, net: Net, m: Bytes, c: Cell)
    requires Faithful(g.crypto, cells) && NetOk(g, cells, net) && c in cells && m in net.nodes && m in g.roster && Acceptable(g, c)
    ensures NetOk(g, cells, NetStep(g, net, CellTo(m, c)))
  {
    CellHeardKeeps(g, cells, net.sent, net.nodes[m], c);
    NodeReplaced(g, cells, net, m, ObserveCell(g.crypto, net.nodes[m], c));
  }

  lemma NetStepKeeps(g: Group, cells: set<Cell>, net: Net, e: Delivery)
    requires Sound(g) && Faithful(g.crypto, cells) && NetOk(g, cells, net) && (e.CellTo? ==> e.cell in cells)
    ensures NetOk(g, cells, NetStep(g, net, e))
  {
    if e.to in net.nodes {
      var s := net.nodes[e.to];
      match e
      case CellTo(m, c) =>
        if Acceptable(g, c) {
          ObserveKeeps(g, cells, net, m, c);
        }
      case EndorseBy(m, c) =>
        if (m, c) in net.due {
          EndorseKeeps(g, cells, net, m, c);
        }
      case LetterTo(m, v) =>
        if v in net.sent {
          LetterKeeps(g, cells, net.sent, s, v);
          NodeReplaced(g, cells, net, m, ObserveAttestation(g.crypto, s, v.id, v.attestation).0);
        }
      case CollectAt(m) =>
        GcKeeps(g.crypto, Play(Accepted(g, cells), net.sent), s);
        NodeReplaced(g, cells, net, m, GcOldCells(s));
    }
  }

  /** In every run: tables are sound, and letters come from running members about accepted cells of others. */
  lemma {:induction false} NetRunKeeps(g: Group, cells: set<Cell>, events: seq<Delivery>)
    requires Sound(g) && Faithful(g.crypto, cells) && FromCells(cells, events)
    ensures NetOk(g, cells, NetRun(g, events))
  {
    if events != [] {
      var n := |events| - 1;
      NetRunKeeps(g, cells, events[..n]);
      NetStepKeeps(g, cells, NetRun(g, events[..n]), events[n]);
    }
  }

  /** Runs of the runtime tie names to keys. */
  lemma NetIsBound(g: Group, cells: set<Cell>, events: seq<Delivery>)
    requires Sound(g) && Faithful(g.crypto, cells) && FromCells(cells, events)
    ensures Bound(g.crypto, Play(Accepted(g, cells), NetRun(g, events).sent), g.roster)
  {
    NetRunKeeps(g, cells, events);
    var play := Play(Accepted(g, cells), NetRun(g, events).sent);
    forall c, a | Backs(g.crypto, play, a, c) ensures a.signer in g.roster && a.signerPubkey == g.roster[a.signer] {
      assert Genuine(g, cells, Sent(g.crypto.id(c), a));
    }
  }

  // ---------- Who can have signed a certificate ----------

  lemma LetterNames(g: Group, cells: set<Cell>, c: Cell, a: Attestation)
    requires Faithful(g.crypto, cells) && c in cells && Genuine(g, cells, Sent(g.crypto.id(c), a))
    ensures a.signer in g.active - {c.author}
  {
    var m, d :| m in g.active && m in g.roster && d in Accepted(g, cells) && m != d.author && Sent(g.crypto.id(c), a) == Letter(g, m, d);
    assert Same(c, d);
  }

  /** A certified cell was accepted and has a threshold of signers among the running members other than its author. */
  lemma CertifiedNeeds(g: Group, cells: set<Cell>, net: Net, m: Bytes, k: Key)
    requires Faithful(g.crypto, cells) && NetOk(g, cells, net) && m in net.nodes && k in net.nodes[m].certified
    ensures
      var c := net.nodes[m].certified[k].cell;
      && c in Accepted(g, cells) && KeyOf(c) == k
      && Threshold(g) <= |g.active - {c.author}| && Threshold(g) <= g.cap
  {
    var s := net.nodes[m];
    var p := s.certified[k];
    assert NodeOk(g, cells, net.sent, s);
    assert CertifiedOk(g.crypto, Play(Accepted(g, cells), net.sent), s.groupSize, s.highWater, k, p);
    forall x | x in p.attestations.Keys ensures x in g.active - {p.cell.author} {
      assert Backs(g.crypto, Play(Accepted(g, cells), net.sent), p.attestations[x], p.cell);
      LetterNames(g, cells, p.cell, p.attestations[x]);
    }
    Quorum.Smaller(p.attestations.Keys, g.active - {p.cell.author});
    assert Capped(p, g.cap);
  }

  // ---------- A node on its way to certify a cell ----------

  /** The cell is certified, or is pending with the attestations of at least `names`. */
  ghost predicate Gathers(g: Group, s: State, c: Cell, names: set<Bytes>) {
    && s.groupSize == g.size && s.cap == g.cap
    && (|| (Holds(s, c) && g.crypto.id(c) !in s.pending)
        || (&& g.crypto.id(c) in s.pending && s.pending[g.crypto.id(c)].cell == c
            && names <= s.pending[g.crypto.id(c)].attestations.Keys
            && |s.pending[g.crypto.id(c)].attestations| < Threshold(g)))
  }

  /** And no other cell of its author and round is certified before. */
  ghost predicate Leaning(g: Group, s: State, c: Cell, names: set<Bytes>) {
    Gathers(g, s, c, names) && (g.crypto.id(c) in s.pending ==> KeyOf(c) !in s.certified)
  }

  /** One more attestation is taken, and other pending cells stay as they are. */
  lemma GathersMore(g: Group, s: State, c: Cell, names: set<Bytes>, m: Bytes)
    requires Sound(g) && m in g.roster && Gathers(g, s, c, names) && Threshold(g) <= g.cap
    ensures
      var t := ObserveAttestation(g.crypto, s, g.crypto.id(c), Endorse(g, m, c)).0;
      && Gathers(g, t, c, names + {m}) && (Leaning(g, s, c, names) ==> Leaning(g, t, c, names + {m}))
      && t.pending - {g.crypto.id(c)} == s.pending - {g.crypto.id(c)}
  {
  }

  /** Enough names make a certificate. */
  lemma GathersEnough(g: Group, s: State, c: Cell, names: set<Bytes>)
    requires Gathers(g, s, c, names) && |names| >= Threshold(g)
    ensures Holds(s, c)
  {
    if !Holds(s, c) {
      var keys := s.pending[g.crypto.id(c)].attestations.Keys;
      Quorum.Smaller(names, keys);
    }
  }

  /** The node knows nothing of these cells. */
  ghost predicate Blank(g: Group, s: State, c: Cell, d: Cell) {
    && s.groupSize == g.size && s.cap == g.cap && KeyOf(c) !in s.certified && KeyOf(d) !in s.certified
    && g.crypto.id(c) !in s.pending && g.crypto.id(d) !in s.pending
  }

  lemma FirstSeen(g: Group, start: State, c: Cell)
    requires Acceptable(g, c) && Blank(g, start, c, c)
    ensures
      var seen := ObserveCell(g.crypto, start, c);
      Leaning(g, seen, c, {}) && seen.pending == start.pending[g.crypto.id(c) := Signed(c, map[])]
  {
  }

  lemma OthersPending(g: Group, s: State, t: State, c: Cell)
    requires t.pending - {g.crypto.id(c)} == s.pending - {g.crypto.id(c)}
    ensures forall id :: id in t.pending ==> id == g.crypto.id(c) || id in s.pending
  {
    forall id | id in t.pending && id != g.crypto.id(c) ensures id in s.pending {
      assert id in t.pending - {g.crypto.id(c)};
    }
  }

  lemma FirstHeard(g: Group, m: Bytes, start: State, c: Cell)
    requires Sound(g) && m in g.roster && Acceptable(g, c) && Threshold(g) <= g.cap && Blank(g, start, c, c)
    ensures
      var s := HearCell(g, m, start, c).0;
      && Leaning(g, s, c, if m == c.author then {} else {m})
      && (forall id :: id in s.pending ==> id == g.crypto.id(c) || id in start.pending)
  {
    var seen, s := ObserveCell(g.crypto, start, c), HearCell(g, m, start, c).0;
    FirstSeen(g, start, c);
    if m != c.author {
      GathersMore(g, seen, c, {}, m);
      OthersPending(g, seen, s, c);
      assert {} + {m} == {m};
    }
  }

  /** Hearing another cell of the same author and round does not turn a node that has attested the first. */
  lemma SecondHeard(g: Group, m: Bytes, s: State, c: Cell, d: Cell)
    requires Sound(g) && m in g.roster && Acceptable(g, d) && KeyOf(c) == KeyOf(d) && g.crypto.id(c) != g.crypto.id(d)
    requires Leaning(g, s, c, if m == c.author then {} else {m}) && g.crypto.id(d) !in s.pending
    ensures Leaning(g, HearCell(g, m, s, d).0, c, if m == c.author then {} else {m})
  {
    var seen := ObserveCell(g.crypto, s, d);
    if m != c.author && !Holds(s, c) {
      var atts := s.pending[g.crypto.id(c)].attestations;
      assert m in atts.Keys && |atts.Keys| == |atts|;
      Quorum.Smaller({m}, atts.Keys);
      assert |map[m := Endorse(g, m, d)]| == 1;
      assert seen.pending[g.crypto.id(d)] == Signed(d, map[]);
    }
  }

  // ---------- Bringing a group to a certificate ----------

  /** From `net` on, nodes other than those in `touched` are as before, and letters only grow. */
  ghost predicate Extends(net: Net, after: Net, touched: set<Bytes>) {
    && after.nodes.Keys == net.nodes.Keys && net.sent <= after.sent
    && forall m :: m in net.nodes && m !in touched ==> after.nodes[m] == net.nodes[m]
  }

  lemma ObservesOne(g: Group, before: seq<Delivery>, m: Bytes, c: Cell)
    requires m in g.roster && m in NetRun(g, before).nodes && Acceptable(g, c)
    ensures
      var net, after := NetRun(g, before), NetRun(g, before + [CellTo(m, c)]);
      && Extends(net, after, {m}) && after.nodes[m] == ObserveCell(g.crypto, net.nodes[m], c)
      && after.due == if c.author == m then net.due else net.due + {(m, c)}
  {
    NetAppend(g, before, CellTo(m, c));
  }

  lemma EndorsesOne(g: Group, before: seq<Delivery>, m: Bytes, c: Cell)
    requires m in g.roster && m in NetRun(g, before).nodes && (m, c) in NetRun(g, before).due
    ensures
      var net, after := NetRun(g, before), NetRun(g, before + [EndorseBy(m, c)]);
      && Extends(net, after, {m}) && Letter(g, m, c) in after.sent
      && after.nodes[m] == ObserveAttestation(g.crypto, net.nodes[m], g.crypto.id(c), Endorse(g, m, c)).0
  {
    NetAppend(g, before, EndorseBy(m, c));
  }

  lemma ExtendsOn(a: Net, b: Net, c: Net, touched: set<Bytes>)
    requires Extends(a, b, touched) && Extends(b, c, touched)
    ensures Extends(a, c, touched)
  {
  }

  /** Node m observes a cell and attests it. */
  lemma TellOne(g: Group, cells: set<Cell>, before: seq<Delivery>, m: Bytes, c: Cell) returns (events: seq<Delivery>)
    requires FromCells(cells, before) && c in cells && m in g.roster && m in NetRun(g, before).nodes && Acceptable(g, c)
    ensures before <= events && FromCells(cells, events) && Extends(NetRun(g, before), NetRun(g, events), {m})
    ensures NetRun(g, events).nodes[m] == HearCell(g, m, NetRun(g, before).nodes[m], c).0
    ensures m != c.author ==> Letter(g, m, c) in NetRun(g, events).sent
  {
    events := before + [CellTo(m, c)];
    ObservesOne(g, before, m, c);
    if m != c.author {
      var observed := events;
      EndorsesOne(g, observed, m, c);
      events := observed + [EndorseBy(m, c)];
      ExtendsOn(NetRun(g, before), NetRun(g, observed), NetRun(g, events), {m});
    }
  }

  /** Node m has heard c and then d since it was in its base state. */
  ghost predicate Told(g: Group, base: map<Bytes, State>, net: Net, m: Bytes, c: Cell, d: Cell) {
    && m in g.roster && m in net.nodes && m in base
    && net.nodes[m] == HearCell(g, m, HearCell(g, m, base[m], c).0, d).0
    && (m != c.author ==> Letter(g, m, c) in net.sent) && (m != d.author ==> Letter(g, m, d) in net.sent)
  }

  lemma ToldStays(g: Group, base: map<Bytes, State>, net: Net, after: Net, touched: set<Bytes>, m: Bytes, c: Cell, d: Cell)
    requires Told(g, base, net, m, c, d) && Extends(net, after, touched) && m !in touched
    ensures Told(g, base, after, m, c, d)
  {
  }

  lemma TellBoth(g: Group, cells: set<Cell>, base: map<Bytes, State>, before: seq<Delivery>, m: Bytes, c: Cell, d: Cell)
    returns (events: seq<Delivery>)
    requires FromCells(cells, before) && c in cells && d in cells && Acceptable(g, c) && Acceptable(g, d)
    requires m in g.roster && m in base && m in NetRun(g, before).nodes && NetRun(g, before).nodes[m] == base[m]
    ensures before <= events && FromCells(cells, events) && Extends(NetRun(g, before), NetRun(g, events), {m})
    ensures Told(g, base, NetRun(g, events), m, c, d)
  {
    var first := TellOne(g, cells, before, m, c);
    events := TellOne(g, cells, first, m, d);
  }

  /** All nodes in `todo` hear c and then d. */
  lemma {:induction false} TellAll(g: Group, cells: set<Cell>, base: map<Bytes, State>, before: seq<Delivery>,
                                   todo: set<Bytes>, c: Cell, d: Cell)
    returns (events: seq<Delivery>)
    requires FromCells(cells, before) && c in cells && d in cells && Acceptable(g, c) && Acceptable(g, d)
    requires todo <= g.roster.Keys && todo <= base.Keys && todo <= NetRun(g, before).nodes.Keys
    requires forall m :: m in todo ==> NetRun(g, before).nodes[m] == base[m]
    ensures before <= events && FromCells(cells, events) && Extends(NetRun(g, before), NetRun(g, events), todo)
    ensures forall m :: m in todo ==> Told(g, base, NetRun(g, events), m, c, d)
    decreases todo
  {
    if todo == {} {
      events := before;
    } else {
      var m :| m in todo;
      var next := TellBoth(g, cells, base, before, m, c, d);
      events := TellAll(g, cells, base, next, todo - {m}, c, d);
      ToldStays(g, base, NetRun(g, next), NetRun(g, events), todo - {m}, m, c, d);
    }
  }

  /** Node x receives the letters of all in `todo` about c. */
  lemma {:induction false} PassOn(g: Group, cells: set<Cell>, before: seq<Delivery>, x: Bytes, todo: set<Bytes>, c: Cell, names: set<Bytes>)
    returns (events: seq<Delivery>)
    requires Sound(g) && Threshold(g) <= g.cap && FromCells(cells, before) && todo <= g.roster.Keys
    requires x in g.roster && x in NetRun(g, before).nodes && Gathers(g, NetRun(g, before).nodes[x], c, names)
    requires forall m :: m in todo ==> Letter(g, m, c) in NetRun(g, before).sent
    ensures FromCells(cells, events) && Extends(NetRun(g, before), NetRun(g, events), {x})
    ensures before <= events && Gathers(g, NetRun(g, events).nodes[x], c, names + todo)
    ensures NetRun(g, events).nodes[x].pending - {g.crypto.id(c)} == NetRun(g, before).nodes[x].pending - {g.crypto.id(c)}
    ensures NetRun(g, events).due == NetRun(g, before).due
    decreases todo
  {
    if todo == {} {
      events := before;
      assert names + todo == names;
    } else {
      var m :| m in todo;
      var next := before + [LetterTo(x, Letter(g, m, c))];
      NetAppend(g, before, LetterTo(x, Letter(g, m, c)));
      GathersMore(g, NetRun(g, before).nodes[x], c, names, m);
      events := PassOn(g, cells, next, x, todo - {m}, c, names + {m});
      assert names + {m} + (todo - {m}) == names + todo;
    }
  }

  lemma StartsFresh(g: Group)
    ensures NetRun(g, []).nodes.Keys == g.active
    ensures forall m :: m in g.active ==> NetRun(g, []).nodes[m] == Initial(g.size, g.retention, g.cap)
    ensures forall m, c, d :: m in g.active ==> Blank(g, NetRun(g, []).nodes[m], c, d)
  {
  }

  /** A node that heard c before d and now receives all letters about c certifies c. */
  lemma Settle(g: Group, cells: set<Cell>, base: map<Bytes, State>, before: seq<Delivery>, x: Bytes, c: Cell, d: Cell)
    returns (events: seq<Delivery>)
    requires Sound(g) && Threshold(g) <= g.cap && FromCells(cells, before)
    requires Told(g, base, NetRun(g, before), x, c, d) && Blank(g, base[x], c, d)
    requires Acceptable(g, c) && Acceptable(g, d) && KeyOf(c) == KeyOf(d) && (c == d || g.crypto.id(c) != g.crypto.id(d))
    requires forall m :: m in g.active && m != c.author ==> Letter(g, m, c) in NetRun(g, before).sent
    requires Threshold(g) <= |g.active - {c.author}|
    ensures before <= events && FromCells(cells, events) && Extends(NetRun(g, before), NetRun(g, events), {x})
    ensures Holds(NetRun(g, events).nodes[x], c)
  {
    var start := HearCell(g, x, base[x], c).0;
    var names := if x == c.author then {} else {x};
    FirstHeard(g, x, base[x], c);
    if c == d {
      SameHeard(g, x, start, c);
    } else {
      SecondHeard(g, x, start, c, d);
    }
    var todo := g.active - {c.author};
    events := PassOn(g, cells, before, x, todo, c, names);
    Quorum.Smaller(todo, names + todo);
    GathersEnough(g, NetRun(g, events).nodes[x], c, names + todo);
  }

  /** Hearing a cell again changes nothing that matters. */
  lemma SameHeard(g: Group, m: Bytes, s: State, c: Cell)
    requires Sound(g) && m in g.roster && Acceptable(g, c) && Threshold(g) <= g.cap
    requires Leaning(g, s, c, if m == c.author then {} else {m})
    ensures Leaning(g, HearCell(g, m, s, c).0, c, if m == c.author then {} else {m})
  {
    var seen := ObserveCell(g.crypto, s, c);
    assert Leaning(g, seen, c, if m == c.author then {} else {m});
    if m != c.author {
      GathersMore(g, seen, c, {m}, m);
      assert {m} + {m} == {m};
    }
  }

  // ---------- When a cell can be certified ----------

  ghost predicate Certifies(g: Group, cells: set<Cell>, c: Cell, events: seq<Delivery>, m: Bytes) {
    FromCells(cells, events) && m in NetRun(g, events).nodes && Holds(NetRun(g, events).nodes[m], c)
  }

  ghost predicate CanCertify(g: Group, cells: set<Cell>, c: Cell) {
    exists events, m :: Certifies(g, cells, c, events, m)
  }

  /** Some run certifies a cell exactly when it is acceptable and the running members other than its author
      reach the threshold: a node does not attest cells under its own name. */
  lemma CertifiableIff(g: Group, cells: set<Cell>, c: Cell)
    requires Sound(g) && Faithful(g.crypto, cells) && c in cells
    ensures CanCertify(g, cells, c) <==>
            Acceptable(g, c) && Threshold(g) <= |g.active - {c.author}| && Threshold(g) <= g.cap
  {
    if Acceptable(g, c) && Threshold(g) <= |g.active - {c.author}| && Threshold(g) <= g.cap {
      CertifiableRun(g, cells, c);
    }
    forall events, m | Certifies(g, cells, c, events, m)
      ensures Acceptable(g, c) && Threshold(g) <= |g.active - {c.author}| && Threshold(g) <= g.cap
    {
      NetRunKeeps(g, cells, events);
      CertifiedNeeds(g, cells, NetRun(g, events), m, KeyOf(c));
    }
  }

  /** From any net whose nodes know nothing of the cell, node x is brought to certify it. */
  lemma SettleAt(g: Group, cells: set<Cell>, before: seq<Delivery>, x: Bytes, c: Cell) returns (events: seq<Delivery>)
    requires Sound(g) && FromCells(cells, before) && c in cells && Acceptable(g, c) && x in g.active
    requires Threshold(g) <= |g.active - {c.author}| && Threshold(g) <= g.cap && NetRun(g, before).nodes.Keys == g.active
    requires forall m :: m in g.active ==> Blank(g, NetRun(g, before).nodes[m], c, c)
    ensures before <= events && FromCells(cells, events)
    ensures x in NetRun(g, events).nodes && Holds(NetRun(g, events).nodes[x], c)
  {
    var base := NetRun(g, before).nodes;
    var told := TellAll(g, cells, base, before, g.active, c, c);
    forall m | m in g.active && m != c.author ensures Letter(g, m, c) in NetRun(g, told).sent {
      assert Told(g, base, NetRun(g, told), m, c, c);
    }
    events := Settle(g, cells, base, told, x, c, c);
  }

  lemma CertifiableRun(g: Group, cells: set<Cell>, c: Cell)
    requires Sound(g) && c in cells && Acceptable(g, c)
    requires Threshold(g) <= |g.active - {c.author}| && Threshold(g) <= g.cap
    ensures CanCertify(g, cells, c)
  {
    assert g.active - {c.author} != {};
    var x :| x in g.active - {c.author};
    StartsFresh(g);
    var events := SettleAt(g, cells, [], x, c);
    assert Certifies(g, cells, c, events, x);
  }

  /** An honest member's cell with m other members silent can be certified exactly when the threshold is at
      most n - 1 - m. */
  lemma SilentIff(g: Group, cells: set<Cell>, c: Cell, m: nat)
    requires Sound(g) && Faithful(g.crypto, cells) && c in cells && Acceptable(g, c) && Threshold(g) <= g.cap
    requires c.author in g.active && |g.roster.Keys - g.active| == m
    ensures CanCertify(g, cells, c) <==> Threshold(g) <= |g.roster| - 1 - m
  {
    CertifiableIff(g, cells, c);
    assert g.roster.Keys == g.active + (g.roster.Keys - g.active);
    assert |g.active - {c.author}| == |g.active| - 1;
    assert |g.roster| == |g.roster.Keys|;
  }

  /** Were the size set to the number of members: with as many silent members as the threshold is meant for, a
      member's cell can still be certified exactly in groups that are not of 3f + 1 members. */
  lemma SilentFaultsIff(g: Group, cells: set<Cell>, c: Cell)
    requires Sound(g) && Faithful(g.crypto, cells) && c in cells && Acceptable(g, c) && Threshold(g) <= g.cap
    requires c.author in g.active && |g.roster.Keys - g.active| == Quorum.MaxFaulty(|g.roster|) && g.size == |g.roster|
    ensures CanCertify(g, cells, c) <==> |g.roster| % 3 != 1
  {
    SilentIff(g, cells, c, Quorum.MaxFaulty(|g.roster|));
  }

  /** With the size that nodes configure: a member's cell can be certified exactly when three others run, so at the
      fault count a group is meant for exactly in groups of five members or more. */
  lemma SilentByDefault(g: Group, cells: set<Cell>, c: Cell, m: nat)
    requires Sound(g) && Faithful(g.crypto, cells) && c in cells && Acceptable(g, c) && 3 <= g.cap
    requires c.author in g.active && |g.roster.Keys - g.active| == m && g.size == DEFAULT_GROUP_SIZE
    ensures CanCertify(g, cells, c) <==> 3 <= |g.roster| - 1 - m
    ensures m == Quorum.MaxFaulty(|g.roster|) ==> (CanCertify(g, cells, c) <==> |g.roster| >= 5)
  {
    SilentIff(g, cells, c, m);
  }

  // ---------- When two nodes can certify different cells ----------

  ghost predicate Disagree(net: Net, x: Bytes, y: Bytes, k: Key) {
    && x in net.nodes && y in net.nodes && k in net.nodes[x].certified && k in net.nodes[y].certified
    && !Same(net.nodes[x].certified[k].cell, net.nodes[y].certified[k].cell)
  }

  ghost predicate Parts(g: Group, cells: set<Cell>, events: seq<Delivery>, x: Bytes, y: Bytes, k: Key) {
    FromCells(cells, events) && Disagree(NetRun(g, events), x, y, k)
  }

  ghost predicate CanPart(g: Group, cells: set<Cell>) {
    exists events, x, y, k :: Parts(g, cells, events, x, y, k)
  }

  /** Two different acceptable cells of one author and round. */
  ghost predicate Twins(g: Group, cells: set<Cell>, c: Cell, d: Cell) {
    c in Accepted(g, cells) && d in Accepted(g, cells) && KeyOf(c) == KeyOf(d) && !Same(c, d)
  }

  /** Two nodes of a group in which every running member attests by the book can certify different cells
      exactly when two run, some author has two cells of a round, and the others reach the threshold. */
  lemma PartIff(g: Group, cells: set<Cell>)
    requires Sound(g) && Faithful(g.crypto, cells)
    ensures CanPart(g, cells) <==>
            |g.active| >= 2 && Threshold(g) <= g.cap
            && exists c, d :: Twins(g, cells, c, d) && Threshold(g) <= |g.active - {c.author}|
  {
    forall events, x, y, k | Parts(g, cells, events, x, y, k)
      ensures |g.active| >= 2 && Threshold(g) <= g.cap
      ensures exists c, d :: Twins(g, cells, c, d) && Threshold(g) <= |g.active - {c.author}|
    {
      PartNeeds(g, cells, events, x, y, k);
    }
    if |g.active| >= 2 && Threshold(g) <= g.cap {
      forall c, d | Twins(g, cells, c, d) && Threshold(g) <= |g.active - {c.author}| ensures CanPart(g, cells) {
        PartRun(g, cells, c, d);
      }
    }
  }

  lemma PartNeeds(g: Group, cells: set<Cell>, events: seq<Delivery>, x: Bytes, y: Bytes, k: Key)
    requires Sound(g) && Faithful(g.crypto, cells) && Parts(g, cells, events, x, y, k)
    ensures |g.active| >= 2 && Threshold(g) <= g.cap
    ensures exists c, d :: Twins(g, cells, c, d) && Threshold(g) <= |g.active - {c.author}|
  {
    NetRunKeeps(g, cells, events);
    DisagreeNeeds(g, cells, NetRun(g, events), x, y, k);
  }

  lemma DisagreeNeeds(g: Group, cells: set<Cell>, net: Net, x: Bytes, y: Bytes, k: Key)
    requires Faithful(g.crypto, cells) && NetOk(g, cells, net) && Disagree(net, x, y, k)
    ensures |g.active| >= 2 && Threshold(g) <= g.cap
    ensures exists c, d :: Twins(g, cells, c, d) && Threshold(g) <= |g.active - {c.author}|
  {
    var c, d := net.nodes[x].certified[k].cell, net.nodes[y].certified[k].cell;
    CertifiedNeeds(g, cells, net, x, k);
    CertifiedNeeds(g, cells, net, y, k);
    assert Twins(g, cells, c, d) && Threshold(g) <= |g.active - {c.author}|;
    TwoIn(g.active, x, y);
  }

  lemma TwoIn<T>(s: set<T>, x: T, y: T)
    requires x in s && y in s && x != y
    ensures |s| >= 2
  {
    Quorum.Smaller({x, y}, s);
  }

  /** All nodes have heard both cells, y the second one first. */
  ghost predicate AllTold(g: Group, base: map<Bytes, State>, net: Net, y: Bytes, c: Cell, d: Cell) {
    forall m :: m in g.active ==> if m == y then Told(g, base, net, m, d, c) else Told(g, base, net, m, c, d)
  }

  lemma TellTwo(g: Group, cells: set<Cell>, before: seq<Delivery>, y: Bytes, c: Cell, d: Cell) returns (told: seq<Delivery>)
    requires Sound(g) && FromCells(cells, before) && Twins(g, cells, c, d) && y in g.active
    requires NetRun(g, before).nodes.Keys == g.active
    ensures before <= told && FromCells(cells, told) && AllTold(g, NetRun(g, before).nodes, NetRun(g, told), y, c, d)
  {
    var base := NetRun(g, before).nodes;
    var first := TellAll(g, cells, base, before, g.active - {y}, c, d);
    told := TellBoth(g, cells, base, first, y, d, c);
    forall m | m in g.active - {y} ensures Told(g, base, NetRun(g, told), m, c, d) {
      ToldStays(g, base, NetRun(g, first), NetRun(g, told), {y}, m, c, d);
    }
  }

  lemma LettersOut(g: Group, base: map<Bytes, State>, net: Net, y: Bytes, c: Cell, d: Cell)
    requires Sound(g) && AllTold(g, base, net, y, c, d) && c.author == d.author
    ensures forall m :: m in g.active && m != c.author ==> Letter(g, m, c) in net.sent && Letter(g, m, d) in net.sent
  {
    forall m | m in g.active && m != c.author ensures Letter(g, m, c) in net.sent && Letter(g, m, d) in net.sent {
      assert if m == y then Told(g, base, net, m, d, c) else Told(g, base, net, m, c, d);
    }
  }

  /** From any net whose nodes know nothing of two twins, two nodes are brought to certify different ones. */
  lemma PartAfter(g: Group, cells: set<Cell>, before: seq<Delivery>, c: Cell, d: Cell)
    returns (events: seq<Delivery>, x: Bytes, y: Bytes)
    requires Sound(g) && Faithful(g.crypto, cells) && FromCells(cells, before) && Twins(g, cells, c, d)
    requires |g.active| >= 2 && Threshold(g) <= |g.active - {c.author}| && Threshold(g) <= g.cap
    requires NetRun(g, before).nodes.Keys == g.active
    requires forall m :: m in g.active ==> Blank(g, NetRun(g, before).nodes[m], c, d)
    ensures before <= events && Parts(g, cells, events, x, y, KeyOf(c))
  {
    var base := NetRun(g, before).nodes;
    x, y := TwoOf(g.active);
    var told := TellTwo(g, cells, before, y, c, d);
    LettersOut(g, base, NetRun(g, told), y, c, d);
    var one := Settle(g, cells, base, told, x, c, d);
    ToldStays(g, base, NetRun(g, told), NetRun(g, one), {x}, y, d, c);
    events := Settle(g, cells, base, one, y, d, c);
    assert NetRun(g, events).nodes[x] == NetRun(g, one).nodes[x];
  }

  lemma PartRun(g: Group, cells: set<Cell>, c: Cell, d: Cell)
    requires Sound(g) && Faithful(g.crypto, cells) && Twins(g, cells, c, d)
    requires |g.active| >= 2 && Threshold(g) <= |g.active - {c.author}| && Threshold(g) <= g.cap
    ensures CanPart(g, cells)
  {
    StartsFresh(g);
    var events, x, y := PartAfter(g, cells, [], c, d);
  }

  lemma TwoOf<T>(s: set<T>) returns (x: T, y: T)
    requires |s| >= 2
    ensures x in s && y in s && x != y
  {
    x :| x in s;
    assert |s - {x}| == |s| - 1;
    y :| y in s - {x};
  }

  /** When all members run, more of them than the threshold and with room for the attestations, nodes can part exactly
      when some author has two cells of a round: no threshold prevents it, and without such cells none is needed. */
  lemma TwinsDecide(g: Group, cells: set<Cell>)
    requires Sound(g) && Faithful(g.crypto, cells) && g.active == g.roster.Keys && Threshold(g) < |g.roster| && Threshold(g) <= g.cap
    ensures CanPart(g, cells) <==> !NoTwins(g.crypto, Accepted(g, cells))
  {
    PartIff(g, cells);
    assert |g.roster.Keys| == |g.roster|;
    if !NoTwins(g.crypto, Accepted(g, cells)) {
      var c, d :| c in Accepted(g, cells) && d in Accepted(g, cells) && KeyOf(c) == KeyOf(d) && !Same(c, d);
      assert Twins(g, cells, c, d);
      Quorum.Overlap({c.author}, g.active, g.active + {c.author});
      assert |g.active - {c.author}| >= |g.active| - 1;
    }
  }

  // ---------- When a node can change its mind ----------

  ghost predicate Replaces(g: Group, cells: set<Cell>, before: seq<Delivery>, after: seq<Delivery>, m: Bytes, k: Key) {
    && before <= after && FromCells(cells, after) && m in NetRun(g, before).nodes && m in NetRun(g, after).nodes
    && k in NetRun(g, before).nodes[m].certified && k in NetRun(g, after).nodes[m].certified
    && !Same(NetRun(g, before).nodes[m].certified[k].cell, NetRun(g, after).nodes[m].certified[k].cell)
  }

  ghost predicate CanReplace(g: Group, cells: set<Cell>) {
    exists before, after, m, k :: Replaces(g, cells, before, after, m, k)
  }

  /** A node of a group in which every running member attests by the book can certify a cell and later another one
      in its place exactly when some author has two cells of a round and the others reach the threshold. */
  lemma ReplaceIff(g: Group, cells: set<Cell>)
    requires Sound(g) && Faithful(g.crypto, cells)
    ensures CanReplace(g, cells) <==>
            Threshold(g) <= g.cap && exists c, d :: Twins(g, cells, c, d) && Threshold(g) <= |g.active - {c.author}|
  {
    forall before, after, m, k | Replaces(g, cells, before, after, m, k)
      ensures Threshold(g) <= g.cap && exists c, d :: Twins(g, cells, c, d) && Threshold(g) <= |g.active - {c.author}|
    {
      ReplaceNeeds(g, cells, before, after, m, k);
    }
    if Threshold(g) <= g.cap {
      forall c, d | Twins(g, cells, c, d) && Threshold(g) <= |g.active - {c.author}| ensures CanReplace(g, cells) {
        ReplaceRun(g, cells, c, d);
      }
    }
  }

  lemma ReplaceNeeds(g: Group, cells: set<Cell>, before: seq<Delivery>, after: seq<Delivery>, m: Bytes, k: Key)
    requires Sound(g) && Faithful(g.crypto, cells) && Replaces(g, cells, before, after, m, k)
    ensures Threshold(g) <= g.cap
    ensures exists c, d :: Twins(g, cells, c, d) && Threshold(g) <= |g.active - {c.author}|
  {
    assert forall i :: 0 <= i < |before| ==> before[i] == after[i];
    NetRunKeeps(g, cells, before);
    NetRunKeeps(g, cells, after);
    CertifiedNeeds(g, cells, NetRun(g, before), m, k);
    CertifiedNeeds(g, cells, NetRun(g, after), m, k);
    var c, d := NetRun(g, before).nodes[m].certified[k].cell, NetRun(g, after).nodes[m].certified[k].cell;
    assert Twins(g, cells, c, d) && Threshold(g) <= |g.active - {c.author}|;
  }

  /** Node x is to attest the cell, and has it pending. */
  ghost predicate Awaits(g: Group, net: Net, x: Bytes, c: Cell) {
    x in net.nodes && (x, c) in net.due && g.crypto.id(c) in net.nodes[x].pending && Gathers(g, net.nodes[x], c, {})
  }

  /** Node x has observed both cells and attested neither. */
  lemma ObservesBoth(g: Group, cells: set<Cell>, before: seq<Delivery>, x: Bytes, c: Cell, d: Cell) returns (events: seq<Delivery>)
    requires FromCells(cells, before) && c in cells && d in cells && Acceptable(g, c) && Acceptable(g, d)
    requires x in g.roster && x in NetRun(g, before).nodes && x != c.author && x != d.author
    requires NetRun(g, before).nodes[x] == Initial(g.size, g.retention, g.cap) && g.crypto.id(c) != g.crypto.id(d)
    ensures FromCells(cells, events) && Extends(NetRun(g, before), NetRun(g, events), {x})
    ensures Awaits(g, NetRun(g, events), x, c) && Awaits(g, NetRun(g, events), x, d)
  {
    var first := before + [CellTo(x, c)];
    NetAppend(g, before, CellTo(x, c));
    events := first + [CellTo(x, d)];
    NetAppend(g, first, CellTo(x, d));
  }

  /** All other members have sent letters about the cell. */
  ghost predicate Posted(g: Group, net: Net, x: Bytes, c: Cell)
    requires g.active <= g.roster.Keys
  {
    forall m :: m in g.active - {c.author, x} ==> Letter(g, m, c) in net.sent
  }

  lemma StaysPosted(g: Group, net: Net, after: Net, x: Bytes, c: Cell)
    requires g.active <= g.roster.Keys && Posted(g, net, x, c) && Extends(net, after, {x})
    ensures Posted(g, after, x, c)
  {
  }

  lemma StillGathers(g: Group, s: State, t: State, c: Cell, d: Cell)
    requires s.pending - {g.crypto.id(c)} == t.pending - {g.crypto.id(c)} && g.crypto.id(c) != g.crypto.id(d)
    requires Gathers(g, s, d, {}) && g.crypto.id(d) in s.pending && t.groupSize == g.size && t.cap == g.cap
    ensures Gathers(g, t, d, {}) && g.crypto.id(d) in t.pending
  {
    var id := g.crypto.id(d);
    assert id in s.pending - {g.crypto.id(c)} && id in t.pending - {g.crypto.id(c)};
    assert (s.pending - {g.crypto.id(c)})[id] == (t.pending - {g.crypto.id(c)})[id];
  }

  /** Node x attests c; another pending cell waits meanwhile. */
  lemma Endorses(g: Group, cells: set<Cell>, before: seq<Delivery>, x: Bytes, c: Cell, d: Cell) returns (events: seq<Delivery>)
    requires Sound(g) && Threshold(g) <= g.cap && FromCells(cells, before) && Awaits(g, NetRun(g, before), x, c)
    requires x in g.active && g.crypto.id(c) != g.crypto.id(d)
    ensures before <= events && FromCells(cells, events) && Extends(NetRun(g, before), NetRun(g, events), {x})
    ensures Gathers(g, NetRun(g, events).nodes[x], c, {x})
    ensures Awaits(g, NetRun(g, before), x, d) ==> Awaits(g, NetRun(g, events), x, d)
  {
    events := before + [EndorseBy(x, c)];
    NetAppend(g, before, EndorseBy(x, c));
    var s := NetRun(g, before).nodes[x];
    GathersMore(g, s, c, {}, x);
    assert {} + {x} == {x};
    if Awaits(g, NetRun(g, before), x, d) {
      StillGathers(g, s, NetRun(g, events).nodes[x], c, d);
    }
  }

  /** With the letters of the others it certifies c. */
  lemma Collects(g: Group, cells: set<Cell>, before: seq<Delivery>, x: Bytes, c: Cell, d: Cell) returns (events: seq<Delivery>)
    requires Sound(g) && Threshold(g) <= g.cap && FromCells(cells, before) && x in NetRun(g, before).nodes
    requires x in g.active - {c.author} && Threshold(g) <= |g.active - {c.author}| && g.crypto.id(c) != g.crypto.id(d)
    requires Gathers(g, NetRun(g, before).nodes[x], c, {x}) && Posted(g, NetRun(g, before), x, c)
    ensures before <= events && FromCells(cells, events) && Extends(NetRun(g, before), NetRun(g, events), {x})
    ensures Holds(NetRun(g, events).nodes[x], c) && (Awaits(g, NetRun(g, before), x, d) ==> Awaits(g, NetRun(g, events), x, d))
  {
    var todo := g.active - {c.author, x};
    events := PassOn(g, cells, before, x, todo, c, {x});
    assert {x} + todo == g.active - {c.author};
    GathersEnough(g, NetRun(g, events).nodes[x], c, {x} + todo);
    if Awaits(g, NetRun(g, before), x, d) {
      StillGathers(g, NetRun(g, before).nodes[x], NetRun(g, events).nodes[x], c, d);
    }
  }

  lemma Concludes(g: Group, cells: set<Cell>, before: seq<Delivery>, x: Bytes, c: Cell, d: Cell) returns (events: seq<Delivery>)
    requires Sound(g) && Threshold(g) <= g.cap && FromCells(cells, before) && Awaits(g, NetRun(g, before), x, c)
    requires x in g.active - {c.author} && Threshold(g) <= |g.active - {c.author}| && g.crypto.id(c) != g.crypto.id(d)
    requires Posted(g, NetRun(g, before), x, c)
    ensures before <= events && FromCells(cells, events) && Extends(NetRun(g, before), NetRun(g, events), {x})
    ensures Holds(NetRun(g, events).nodes[x], c) && (Awaits(g, NetRun(g, before), x, d) ==> Awaits(g, NetRun(g, events), x, d))
  {
    var endorsed := Endorses(g, cells, before, x, c, d);
    StaysPosted(g, NetRun(g, before), NetRun(g, endorsed), x, c);
    events := Collects(g, cells, endorsed, x, c, d);
  }

  lemma ReadyForBoth(g: Group, cells: set<Cell>, x: Bytes, c: Cell, d: Cell) returns (events: seq<Delivery>)
    requires Sound(g) && Twins(g, cells, c, d) && g.crypto.id(c) != g.crypto.id(d) && x in g.active - {c.author}
    ensures FromCells(cells, events) && Awaits(g, NetRun(g, events), x, c) && Awaits(g, NetRun(g, events), x, d)
    ensures Posted(g, NetRun(g, events), x, c) && Posted(g, NetRun(g, events), x, d)
  {
    StartsFresh(g);
    var base := NetRun(g, []).nodes;
    var told := TellAll(g, cells, base, [], g.active - {x}, c, d);
    forall m | m in g.active - {c.author, x}
      ensures Letter(g, m, c) in NetRun(g, told).sent && Letter(g, m, d) in NetRun(g, told).sent
    {
      assert Told(g, base, NetRun(g, told), m, c, d);
    }
    events := ObservesBoth(g, cells, told, x, c, d);
    StaysPosted(g, NetRun(g, told), NetRun(g, events), x, c);
    StaysPosted(g, NetRun(g, told), NetRun(g, events), x, d);
  }

  lemma ReplaceRun(g: Group, cells: set<Cell>, c: Cell, d: Cell)
    requires Sound(g) && Faithful(g.crypto, cells) && Twins(g, cells, c, d)
    requires Threshold(g) <= |g.active - {c.author}| && Threshold(g) <= g.cap
    ensures CanReplace(g, cells)
  {
    assert g.active - {c.author} != {};
    var x :| x in g.active - {c.author};
    var ready := ReadyForBoth(g, cells, x, c, d);
    var before := Concludes(g, cells, ready, x, c, d);
    StaysPosted(g, NetRun(g, ready), NetRun(g, before), x, d);
    var after := Concludes(g, cells, before, x, d, c);
    assert Replaces(g, cells, before, after, x, KeyOf(c));
  }
}
