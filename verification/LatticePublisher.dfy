// The publisher (savitri-lightnode/src/lattice_runtime.rs): on every tick it signs a cell of the current round that
// names the certified cells of the round before. A tick that comes late falls into the round of the next one.
module LatticePublisher {
  import opened Basics
  import opened ByteStrings
  import opened LatticeCells
  import opened LatticeAggregator
  import opened CertifyingRuns
  import opened LatticeRuntime
  import opened LatticeThreshold
  import opened LineageCommit
  import Quorum

  /** The publisher names at most this many parents. */
  const PARENT_CAP := 16

  ghost function Row(t: Table, round: u64): set<Key> {
    set k | k in t && k.round == round
  }

  /** The certified cells of the round before, in order and up to the cap. */
  ghost function Cited(w: Crypto, t: Table, round: u64): (ids: seq<CellId>)
    ensures |ids| == if round == 0 then 0 else if |Row(t, round - 1)| < PARENT_CAP then |Row(t, round - 1)| else PARENT_CAP
  {
    if round == 0 then []
    else
      var ids := Ids(w, t, InOrder(Row(t, round - 1)));
      if |ids| < PARENT_CAP then ids else ids[..PARENT_CAP]
  }

  function KeySet(keys: seq<Key>): set<Key> {
    set k | k in keys
  }

  lemma KeySetMore(keys: seq<Key>, k: Key)
    ensures KeySet(keys + [k]) == KeySet(keys) + {k}
  {
  }

  lemma {:induction false} KeySetSize(keys: seq<Key>)
    requires Ascending(keys)
    ensures |KeySet(keys)| == |keys|
  {
    if keys != [] {
      var n := |keys| - 1;
      assert keys == keys[..n] + [keys[n]];
      KeySetSize(keys[..n]);
      KeySetMore(keys[..n], keys[n]);
      forall j | 0 <= j < n ensures keys[j] != keys[n] {
        LessTotal(keys[j], keys[n]);
      }
    }
  }

  /** Position i in order has i keys before it. */
  lemma BeforeCount(keys: seq<Key>, i: nat)
    requires Ascending(keys) && i < |keys|
    ensures |set x | x in KeySet(keys) && Less(x, keys[i])| == i
  {
    var before := set x | x in KeySet(keys) && Less(x, keys[i]);
    forall x ensures x in before <==> x in KeySet(keys[..i]) {
      if x in before {
        var j :| 0 <= j < |keys| && keys[j] == x;
        BeforeIff(keys, j, i);
        assert keys[..i][j] == x;
      }
      if x in KeySet(keys[..i]) {
        var j :| 0 <= j < i && keys[..i][j] == x;
        BeforeIff(keys, j, i);
      }
    }
    assert before == KeySet(keys[..i]);
    KeySetSize(keys[..i]);
  }

  /** A key is among the first m exactly when fewer than m come before it. */
  lemma AmongFirst(keys: seq<Key>, k: Key, m: nat)
    requires Ascending(keys) && k in keys && m <= |keys|
    ensures k in keys[..m] <==> |set x | x in KeySet(keys) && Less(x, k)| < m
  {
    var i :| 0 <= i < |keys| && keys[i] == k;
    BeforeCount(keys, i);
    if k in keys[..m] {
      var j :| 0 <= j < m && keys[..m][j] == k;
      BeforeIff(keys, i, j);
      BeforeIff(keys, j, i);
      LessTotal(k, k);
    }
    if i < m {
      assert keys[..m][i] == k;
    }
  }

  lemma IdAmong(w: Crypto, t: Table, keys: seq<Key>, k: Key)
    requires UniqueIds(w, t) && k in t && forall x :: x in keys ==> x in t
    ensures IdAt(w, t, k) in Ids(w, t, keys) <==> k in keys
  {
    var ids := Ids(w, t, keys);
    if IdAt(w, t, k) in ids {
      var i :| 0 <= i < |ids| && ids[i] == IdAt(w, t, k);
      assert keys[i] in keys && ids[i] == IdAt(w, t, keys[i]);
    }
    if k in keys {
      var i :| 0 <= i < |keys| && keys[i] == k;
      assert ids[i] == IdAt(w, t, k);
    }
  }

  lemma IdsFirst(w: Crypto, t: Table, keys: seq<Key>, m: nat)
    requires m <= |keys| && forall x :: x in keys ==> x in t
    ensures forall x :: x in keys[..m] ==> x in t
    ensures Ids(w, t, keys)[..m] == Ids(w, t, keys[..m])
  {
    assert forall x :: x in keys[..m] ==> x in keys;
  }

  lemma CitedFirst(w: Crypto, t: Table, round: u64)
    requires round > 0
    ensures
      var keys := InOrder(Row(t, round - 1));
      var m := if |keys| < PARENT_CAP then |keys| else PARENT_CAP;
      (forall x :: x in keys[..m] ==> x in t) && Cited(w, t, round) == Ids(w, t, keys[..m])
  {
    var keys := InOrder(Row(t, round - 1));
    var m := if |keys| < PARENT_CAP then |keys| else PARENT_CAP;
    IdsFirst(w, t, keys, m);
    assert |keys| < PARENT_CAP ==> keys[..m] == keys;
  }

  /** The authors of a round before this one by name. */
  ghost function EarlierNames(t: Table, k: Key): set<Bytes> {
    set x | x in t && x.round == k.round && LexLess(x.author, k.author) :: x.author
  }

  lemma EarlierKeys(t: Table, k: Key)
    requires k in t
    ensures |set x | x in Row(t, k.round) && Less(x, k)| == |EarlierNames(t, k)|
    ensures |EarlierNames(t, k)| < |Row(t, k.round)|
  {
    var before := set x | x in Row(t, k.round) && Less(x, k);
    NamesOf(before, k.round);
    assert EarlierNames(t, k) == set x | x in before :: x.author;
    LessTotal(k, k);
    Quorum.Smaller(before, Row(t, k.round) - {k});
  }

  lemma {:induction false} NamesOf(keys: set<Key>, round: u64)
    requires forall x :: x in keys ==> x.round == round
    ensures |set x | x in keys :: x.author| == |keys|
  {
    if keys != {} {
      var k :| k in keys;
      NamesOf(keys - {k}, round);
      var rest := set x | x in keys - {k} :: x.author;
      assert (set x | x in keys :: x.author) == rest + {k.author};
      assert k.author !in rest;
    }
  }

  lemma CitedRow(w: Crypto, t: Table, round: u64, k: Key)
    requires UniqueIds(w, t) && k in t && round > 0
    ensures IdAt(w, t, k) in Cited(w, t, round) <==>
            && k in Row(t, round - 1)
            && |set x | x in Row(t, round - 1) && Less(x, k)| < if |Row(t, round - 1)| < 16 then |Row(t, round - 1)| else 16
  {
    var row := Row(t, round - 1);
    var keys := InOrder(row);
    var m := if |keys| < PARENT_CAP then |keys| else PARENT_CAP;
    CitedFirst(w, t, round);
    IdAmong(w, t, keys[..m], k);
    if k in row {
      assert KeySet(keys) == row;
      AmongFirst(keys, k, m);
    } else {
      assert forall x :: x in keys[..m] ==> x in keys;
    }
  }

  /** The parents of a round are certified cells of the round before: those that fewer than 16 others precede by name. */
  lemma CitedIff(w: Crypto, t: Table, round: u64, k: Key)
    requires UniqueIds(w, t) && k in t && round > 0
    ensures IdAt(w, t, k) in Cited(w, t, round) <==> k.round + 1 == round && |EarlierNames(t, k)| < 16
  {
    CitedRow(w, t, round, k);
    EarlierKeys(t, k);
  }

  // ---------- Identifiers in byte order ----------

  ghost predicate Ordered(ids: seq<CellId>) {
    forall i, j :: 0 <= i < j < |ids| ==> !LexLess(ids[j], ids[i])
  }

  method SortIds(ids: seq<CellId>) returns (r: seq<CellId>)
    ensures Ordered(r) && multiset(r) == multiset(ids)
  {
    r := [];
    for i := 0 to |ids|
      invariant Ordered(r) && multiset(r) == multiset(ids[..i])
    {
      var k := 0;
      while k < |r| && !LexLess(ids[i], r[k])
        invariant 0 <= k <= |r| && forall j :: 0 <= j < k ==> !LexLess(ids[i], r[j])
      {
        k := k + 1;
      }
      InsertKeeps(r, k, ids[i]);
      assert r == r[..k] + r[k..] && ids[..i + 1] == ids[..i] + [ids[i]];
      r := r[..k] + [ids[i]] + r[k..];
    }
    assert ids[..|ids|] == ids;
  }

  lemma InsertKeeps(r: seq<CellId>, k: nat, id: CellId)
    requires Ordered(r) && k <= |r| && (forall j :: 0 <= j < k ==> !LexLess(id, r[j])) && (k < |r| ==> LexLess(id, r[k]))
    ensures Ordered(r[..k] + [id] + r[k..])
  {
    forall j | k <= j < |r| ensures !LexLess(r[j], id) {
      if LexLess(r[j], id) {
        LexTransitive(r[j], id, r[k]);
        LexTotal(r[j], r[j]);
      }
    }
  }

  /** Lists of the same identifiers in order are the same list. */
  lemma {:induction false} OrderedUnique(a: seq<CellId>, b: seq<CellId>)
    requires Ordered(a) && Ordered(b) && multiset(a) == multiset(b)
    ensures a == b
  {
    assert |a| == |multiset(a)| == |multiset(b)| == |b|;
    if a != [] {
      FirstAlike(a, b);
      assert a == [a[0]] + a[1..] && b == [b[0]] + b[1..];
      assert multiset(a[1..]) == multiset(a) - multiset{a[0]} && multiset(b[1..]) == multiset(b) - multiset{b[0]};
      OrderedUnique(a[1..], b[1..]);
    }
  }

  lemma FirstAlike(a: seq<CellId>, b: seq<CellId>)
    requires Ordered(a) && Ordered(b) && multiset(a) == multiset(b) && a != [] && b != []
    ensures a[0] == b[0]
  {
    assert a[0] in multiset(b) && b[0] in multiset(a);
    var i :| 0 <= i < |b| && b[i] == a[0];
    var j :| 0 <= j < |a| && a[j] == b[0];
    LexTotal(a[0], b[0]);
  }

  // ---------- One tick ----------

  const UNSIGNED: Hash64 := seq(64, _ => 0)

  /** A cell that member m signs, with these parents. */
  ghost predicate Signs(g: Group, m: Bytes, parents: seq<CellId>, round: u64, root: Hash32, c: Cell)
    requires m in g.roster
  {
    && c.round == round && c.groupId == g.id && c.author == m && c.authorPubkey == g.roster[m] && c.batchRoot == root
    && Ordered(c.parents) && multiset(c.parents) == multiset(parents)
    && c.signature == g.sign(m, c.(signature := UNSIGNED))
  }

  /** The cell member m publishes in a round on this table. */
  ghost predicate Publishes(g: Group, m: Bytes, t: Table, round: u64, root: Hash32, c: Cell)
    requires m in g.roster
  {
    Signs(g, m, Cited(g.crypto, t, round), round, root, c)
  }

  method FirstOfRow(w: Crypto, t: Table, round: u64) returns (ids: seq<CellId>)
    ensures ids == Cited(w, t, round)
  {
    if round == 0 {
      return [];
    }
    var row := set k | k in t && k.round == round - 1;
    assert row == Row(t, round - 1);
    var all := InKeyOrder(w, t, row);
    ids := if |all| < PARENT_CAP then all else all[..PARENT_CAP];
  }

  method PublishCell(g: Group, m: Bytes, t: Table, round: u64, root: Hash32) returns (c: Cell)
    requires m in g.roster
    ensures Publishes(g, m, t, round, root, c)
  {
    var ids := FirstOfRow(g.crypto, t, round);
    var parents := SortIds(ids);
    var draft := Cell(round, g.id, m, g.roster[m], parents, root, UNSIGNED);
    c := draft.(signature := g.sign(m, draft));
    assert c.(signature := UNSIGNED) == draft;
  }

  /** Every node accepts what a member publishes. */
  lemma PublishedAccepted(g: Group, m: Bytes, parents: seq<CellId>, round: u64, root: Hash32, c: Cell)
    requires Sound(g) && OnBytes(g.crypto) && m in g.roster && Signs(g, m, parents, round, root, c)
    ensures Acceptable(g, c)
  {
    var draft := c.(signature := UNSIGNED);
    assert SignableBytes(c) == SignableBytes(draft);
    assert g.crypto.AttestationOk(Endorse(g, m, draft), draft);
  }

  // ---------- Two ticks in one round ----------

  /** Two ticks of one member in one round give two different cells exactly when the parents they find differ. */
  lemma RepublishIff(g: Group, m: Bytes, t: Table, u: Table, round: u64, root: Hash32, c: Cell, d: Cell)
    requires Sound(g) && OnBytes(g.crypto) && m in g.roster
    requires Publishes(g, m, t, round, root, c) && Publishes(g, m, u, round, root, d)
    ensures Twins(g, {c, d}, c, d) <==> multiset(Cited(g.crypto, t, round)) != multiset(Cited(g.crypto, u, round))
  {
    PublishedAccepted(g, m, Cited(g.crypto, t, round), round, root, c);
    PublishedAccepted(g, m, Cited(g.crypto, u, round), round, root, d);
    if multiset(c.parents) == multiset(d.parents) {
      OrderedUnique(c.parents, d.parents);
    }
  }

  /** So a cell certified between the ticks, where fewer than the cap were before, makes twins of an honest author. */
  lemma LateCertificateMakesTwins(g: Group, m: Bytes, t: Table, u: Table, round: u64, root: Hash32, c: Cell, d: Cell)
    requires Sound(g) && OnBytes(g.crypto) && m in g.roster && round > 0
    requires Publishes(g, m, t, round, root, c) && Publishes(g, m, u, round, root, d)
    requires |Row(t, round - 1)| < |Row(u, round - 1)| && |Row(t, round - 1)| < PARENT_CAP
    ensures Twins(g, {c, d}, c, d)
  {
    RepublishIff(g, m, t, u, round, root, c, d);
    assert |multiset(Cited(g.crypto, t, round))| != |multiset(Cited(g.crypto, u, round))|;
  }

  /** In a group without faults, all of whose members run and outnumber the threshold, two ticks of one member in one
      round can make nodes certify different cells exactly when the parents they find differ. */
  lemma RepublishParts(g: Group, m: Bytes, t: Table, u: Table, round: u64, root: Hash32, c: Cell, d: Cell)
    requires Sound(g) && OnBytes(g.crypto) && Faithful(g.crypto, {c, d}) && m in g.roster
    requires g.active == g.roster.Keys && Threshold(g) < |g.roster| && Threshold(g) <= g.cap
    requires Publishes(g, m, t, round, root, c) && Publishes(g, m, u, round, root, d)
    ensures CanPart(g, {c, d}) <==> multiset(Cited(g.crypto, t, round)) != multiset(Cited(g.crypto, u, round))
  {
    RepublishIff(g, m, t, u, round, root, c, d);
    TwinsDecide(g, {c, d});
    PublishedAccepted(g, m, Cited(g.crypto, t, round), round, root, c);
    PublishedAccepted(g, m, Cited(g.crypto, u, round), round, root, d);
    assert c in Accepted(g, {c, d}) && d in Accepted(g, {c, d});
  }

  // ---------- A run without faults in which nodes part ----------

  /** The cell is what its author published at some tick up to now, on the table it had then. */
  ghost predicate PublishedBy(g: Group, root: Hash32, events: seq<Delivery>, c: Cell) {
    exists j :: 0 <= j <= |events| && PublishedAt(g, root, NetRun(g, events[..j]), c)
  }

  ghost predicate PublishedAt(g: Group, root: Hash32, net: Net, c: Cell) {
    && c.author in g.roster && c.author in net.nodes
    && Publishes(g, c.author, net.nodes[c.author].certified, c.round, root, c)
  }

  /** Whatever cell arrives anywhere in the run, its author has published it before. */
  ghost predicate ByTheBook(g: Group, root: Hash32, events: seq<Delivery>) {
    forall i :: 0 <= i < |events| && events[i].CellTo? ==> PublishedBy(g, root, events[..i], events[i].cell)
  }

  lemma StaysPublished(g: Group, root: Hash32, events: seq<Delivery>, more: seq<Delivery>, c: Cell)
    requires PublishedAt(g, root, NetRun(g, events), c) && events <= more
    ensures PublishedBy(g, root, more, c)
  {
    assert more[..|events|] == events;
  }

  /** Nothing is certified at first, so a cell of round 0 or 1 has no parents then. */
  lemma NothingCited(g: Group, m: Bytes, round: u64)
    requires m in g.active && round <= 1
    ensures m in NetRun(g, []).nodes && Cited(g.crypto, NetRun(g, []).nodes[m].certified, round) == []
  {
    StartsFresh(g);
    if round == 1 {
      assert Row(NetRun(g, []).nodes[m].certified, 0) == {};
    }
  }

  lemma OneInOrder(k: Key)
    ensures InOrder({k}) == [k]
  {
    AscendingUnique([k], {k});
  }

  /** A node that has certified one cell, of round 0, cites it in round 1. */
  lemma OneCited(w: Crypto, t: Table, b: Cell)
    requires t.Keys == {KeyOf(b)} && t[KeyOf(b)].cell == b && b.round == 0
    ensures Cited(w, t, 1) == [w.id(b)]
  {
    assert Row(t, 0) == {KeyOf(b)};
    OneInOrder(KeyOf(b));
  }

  /** While b alone is in play nodes know nothing of c and d. */
  lemma OnlyKnows(g: Group, events: seq<Delivery>, b: Cell, c: Cell, d: Cell)
    requires Sound(g) && Faithful(g.crypto, {b, c, d}) && FromCells({b}, events) && !Same(b, c) && !Same(b, d)
    requires KeyOf(b) != KeyOf(c) && KeyOf(c) == KeyOf(d)
    ensures NetRun(g, events).nodes.Keys == g.active
    ensures forall m :: m in g.active ==> Blank(g, NetRun(g, events).nodes[m], c, d)
    ensures forall m :: m in g.active ==> NetRun(g, events).nodes[m].certified.Keys <= {KeyOf(b)}
  {
    NetRunKeeps(g, {b}, events);
    forall m | m in g.active
      ensures Blank(g, NetRun(g, events).nodes[m], c, d) && NetRun(g, events).nodes[m].certified.Keys <= {KeyOf(b)}
    {
      KnowsJust(g, NetRun(g, events), m, b, c, d);
    }
  }

  lemma KnowsJust(g: Group, net: Net, m: Bytes, b: Cell, c: Cell, d: Cell)
    requires NetOk(g, {b}, net) && m in net.nodes && Faithful(g.crypto, {b, c, d}) && !Same(b, c) && !Same(b, d)
    requires KeyOf(b) != KeyOf(c) && KeyOf(c) == KeyOf(d)
    ensures Blank(g, net.nodes[m], c, d) && net.nodes[m].certified.Keys <= {KeyOf(b)}
  {
    var s, play := net.nodes[m], Play(Accepted(g, {b}), net.sent);
    assert NodeOk(g, {b}, net.sent, s);
    forall id | id in s.pending ensures id == g.crypto.id(b) {
      assert PendingOk(g.crypto, play, s.groupSize, s.highWater, id, s.pending[id]);
    }
    forall k | k in s.certified ensures k == KeyOf(b) {
      assert CertifiedOk(g.crypto, play, s.groupSize, s.highWater, k, s.certified[k]);
    }
  }

  /** A cell b of round 0; c, which member a publishes in round 1 before it knows of b; and d, which it publishes in
      the same round after it has certified b. */
  ghost predicate TwoTicks(g: Group, root: Hash32, a: Bytes, b: Cell, c: Cell, d: Cell) {
    && a in g.active && b.author in g.active && a in g.roster && b.author in g.roster
    && Signs(g, b.author, [], 0, root, b) && Signs(g, a, [], 1, root, c) && Signs(g, a, [g.crypto.id(b)], 1, root, d)
  }

  lemma TicksAccepted(g: Group, root: Hash32, a: Bytes, b: Cell, c: Cell, d: Cell)
    requires Sound(g) && OnBytes(g.crypto) && TwoTicks(g, root, a, b, c, d)
    ensures Acceptable(g, b) && Twins(g, {b, c, d}, c, d) && !Same(b, c) && !Same(b, d) && KeyOf(b) != KeyOf(c)
  {
    PublishedAccepted(g, b.author, [], 0, root, b);
    PublishedAccepted(g, a, [], 1, root, c);
    PublishedAccepted(g, a, [g.crypto.id(b)], 1, root, d);
    assert |multiset(c.parents)| == 0 && |multiset(d.parents)| == 1;
  }

  /** The three cells were published at the start, or after the first phase. */
  ghost predicate Origins(g: Group, root: Hash32, before: seq<Delivery>, b: Cell, c: Cell, d: Cell) {
    && PublishedAt(g, root, NetRun(g, []), b) && PublishedAt(g, root, NetRun(g, []), c)
    && PublishedAt(g, root, NetRun(g, before), d)
  }

  /** Member a is brought to certify b. */
  lemma FirstPhase(g: Group, root: Hash32, a: Bytes, b: Cell, c: Cell, d: Cell) returns (before: seq<Delivery>)
    requires Sound(g) && OnBytes(g.crypto) && Faithful(g.crypto, {b, c, d}) && TwoTicks(g, root, a, b, c, d)
    requires Threshold(g) <= |g.active - {b.author}| && Threshold(g) <= g.cap
    ensures FromCells({b}, before) && NetRun(g, before).nodes.Keys == g.active
    ensures forall m :: m in g.active ==> Blank(g, NetRun(g, before).nodes[m], c, d)
    ensures Origins(g, root, before, b, c, d)
  {
    TicksAccepted(g, root, a, b, c, d);
    StartsFresh(g);
    before := SettleAt(g, {b}, [], a, b);
    OnlyKnows(g, before, b, c, d);
    NothingCited(g, b.author, 0);
    NothingCited(g, a, 1);
    OneCited(g.crypto, NetRun(g, before).nodes[a].certified, b);
  }

  lemma MostlyOthers(members: set<Bytes>, m: Bytes, q: nat)
    requires q < |members|
    ensures q <= |members - {m}|
  {
    assert members <= (members - {m}) + {m};
    Quorum.Smaller(members, (members - {m}) + {m});
  }

  lemma PublishedInTime(g: Group, root: Hash32, before: seq<Delivery>, upto: seq<Delivery>, e: Cell, b: Cell, c: Cell, d: Cell)
    requires Origins(g, root, before, b, c, d) && e in {b, c, d} && (before <= upto || e == b)
    ensures PublishedBy(g, root, upto, e)
  {
    if e == b || e == c {
      StaysPublished(g, root, [], upto, e);
    } else {
      StaysPublished(g, root, before, upto, e);
    }
  }

  lemma BookKept(g: Group, root: Hash32, before: seq<Delivery>, events: seq<Delivery>, b: Cell, c: Cell, d: Cell)
    requires before <= events && FromCells({b}, before) && FromCells({b, c, d}, events) && Origins(g, root, before, b, c, d)
    ensures ByTheBook(g, root, events)
  {
    forall i | 0 <= i < |events| && events[i].CellTo? ensures PublishedBy(g, root, events[..i], events[i].cell) {
      assert i < |before| ==> before[i] == events[i];
      assert i >= |before| ==> before <= events[..i];
      PublishedInTime(g, root, before, events[..i], events[i].cell, b, c, d);
    }
  }

  /** In every group without faults, all of whose members run and outnumber the threshold, there is a run in which only
      cells arrive that their authors published on the tables they had, and two nodes certify different cells: two
      ticks of one member in one round, with a certificate in between, are enough. */
  lemma OwnTicksPart(g: Group, root: Hash32, a: Bytes, b: Cell, c: Cell, d: Cell)
    returns (events: seq<Delivery>, x: Bytes, y: Bytes)
    requires Sound(g) && OnBytes(g.crypto) && Faithful(g.crypto, {b, c, d}) && TwoTicks(g, root, a, b, c, d)
    requires g.active == g.roster.Keys && Threshold(g) < |g.roster| && Threshold(g) <= g.cap
    ensures ByTheBook(g, root, events) && Disagree(NetRun(g, events), x, y, KeyOf(c))
  {
    assert |g.roster.Keys| == |g.roster|;
    MostlyOthers(g.active, a, Threshold(g));
    MostlyOthers(g.active, b.author, Threshold(g));
    TicksAccepted(g, root, a, b, c, d);
    var before := FirstPhase(g, root, a, b, c, d);
    events, x, y := PartAfter(g, {b, c, d}, before, c, d);
    BookKept(g, root, before, events, b, c, d);
  }

  // ---------- Such groups exist ----------

  /** Member 0's cell of round 0, and its cells of round 1 without and with that one as a parent. */
  function CellOf(x: Cast, round: u64, parents: seq<CellId>): Cell {
    Cell(round, [], [], x.keys(0), parents, x.keys(0), UNSIGNED)
  }

  function TickWorld(x: Cast): Crypto {
    Crypto((c: Cell) => if SignableBytes(c) == SignableBytes(CellOf(x, 0, [])) then Fill(0, 32)
                        else if SignableBytes(c) == SignableBytes(CellOf(x, 1, [])) then Fill(1, 32) else Fill(2, 32),
           (key: Hash32, signature: Hash64, c: Cell) => signature == UNSIGNED)
  }

  ghost function TickGroup(x: Cast, size: nat): Group {
    Group(TickWorld(x), [], size, RosterOf(x), (m: Bytes, c: Cell) => UNSIGNED, RosterOf(x).Keys, 0, Quorum.LatticeVotes(size))
  }

  lemma CellsDiffer(x: Cast, r: u64, p: seq<CellId>, s: u64, q: seq<CellId>)
    ensures SignableBytes(CellOf(x, r, p)) == SignableBytes(CellOf(x, s, q)) <==> r == s && p == q
  {
    SignableInjective(CellOf(x, r, p), CellOf(x, s, q));
  }

  lemma TickIds(x: Cast)
    ensures TickWorld(x).id(CellOf(x, 0, [])) == Fill(0, 32) && TickWorld(x).id(CellOf(x, 1, [])) == Fill(1, 32)
    ensures TickWorld(x).id(CellOf(x, 1, [Fill(0, 32)])) == Fill(2, 32)
    ensures Fill(0, 32) != Fill(1, 32) && Fill(0, 32) != Fill(2, 32) && Fill(1, 32) != Fill(2, 32)
  {
    CellsDiffer(x, 1, [], 0, []);
    CellsDiffer(x, 1, [Fill(0, 32)], 0, []);
    CellsDiffer(x, 1, [Fill(0, 32)], 1, []);
    assert Fill(0, 32)[0] == 0 && Fill(1, 32)[0] == 1 && Fill(2, 32)[0] == 2;
  }

  lemma TickSound(x: Cast, size: nat)
    requires x.n > 0
    ensures Sound(TickGroup(x, size)) && OnBytes(TickWorld(x))
  {
    RosterIs(x);
    assert Name(0) in RosterOf(x);
  }

  lemma ThreeFaithful(w: Crypto, b: Cell, c: Cell, d: Cell)
    requires w.id(b) != w.id(c) && w.id(b) != w.id(d) && w.id(c) != w.id(d) && !Same(b, c) && !Same(b, d) && !Same(c, d)
    ensures Faithful(w, {b, c, d})
  {
  }

  lemma TickSigns(x: Cast, size: nat, round: u64, parents: seq<CellId>)
    requires [] in RosterOf(x) && RosterOf(x)[[]] == x.keys(0) && |parents| <= 1
    ensures Signs(TickGroup(x, size), [], parents, round, x.keys(0), CellOf(x, round, parents))
  {
  }

  lemma TickCells(x: Cast, size: nat, b: Cell, c: Cell, d: Cell)
    requires x.n > 0 && b == CellOf(x, 0, []) && c == CellOf(x, 1, []) && d == CellOf(x, 1, [Fill(0, 32)])
    ensures TwoTicks(TickGroup(x, size), x.keys(0), [], b, c, d) && Faithful(TickWorld(x), {b, c, d})
  {
    RosterIs(x);
    assert Name(0) in RosterOf(x) && Name(0) == [];
    TickSigns(x, size, 0, []);
    TickSigns(x, size, 1, []);
    TickSigns(x, size, 1, [Fill(0, 32)]);
    TickIds(x);
    ThreeFaithful(TickWorld(x), b, c, d);
  }

  /** For every configured size and every number of members above its threshold. */
  lemma OwnTicksHappen(size: nat, n: nat) returns (g: Group, root: Hash32, events: seq<Delivery>, x: Bytes, y: Bytes, k: Key)
    requires Quorum.LatticeVotes(size) < n < U64
    ensures Sound(g) && OnBytes(g.crypto) && g.size == size && |g.roster| == n && g.active == g.roster.Keys
    ensures ByTheBook(g, root, events) && Disagree(NetRun(g, events), x, y, k)
  {
    var cast := MakeCast(n);
    g, root := TickGroup(cast, size), cast.keys(0);
    RosterIs(cast);
    TickSound(cast, size);
    var b, c, d := CellOf(cast, 0, []), CellOf(cast, 1, []), CellOf(cast, 1, [Fill(0, 32)]);
    TickCells(cast, size, b, c, d);
    k := KeyOf(c);
    events, x, y := OwnTicksPart(g, root, [], b, c, d);
  }
}
