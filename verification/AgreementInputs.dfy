// Inputs at which nodes part, or the poller ends (savitri-consensus/src/lattice/commit.rs,
// savitri-lightnode/src/lattice_runtime.rs), each with the runs of the aggregators that lead there.
module AgreementInputs {
  import opened Basics
  import opened ByteStrings
  import opened CertifyingRuns
  import opened CommitPoller
  import opened LatticeCells
  import opened LatticeAggregator
  import opened LineageCommit
  import opened Weights
  import Quorum

  // ---------- Six cells ----------

  /** An identifier for each number. */
  datatype Scene = Scene(h: nat -> Hash32)

  ghost predicate Distinct(x: Scene) {
    forall i, j :: 0 <= i < 6 && 0 <= j < 6 && x.h(i) == x.h(j) ==> i == j
  }

  /** Two cells of round 0 by different authors; one of round 1 that names them and a twin of the first, which is
      number 3; one of the largest round; and one of round 0 that names the one of round 1. */
  function CellNo(x: Scene, i: nat): Cell {
    if i == 0 then Cell(0, [], [], x.h(0), [], x.h(0), Fill(0, 64))
    else if i == 1 then Cell(0, [], [0], x.h(0), [], x.h(0), Fill(0, 64))
    else if i == 2 then Cell(1, [], [], x.h(0), [x.h(0), x.h(1), x.h(3)], x.h(0), Fill(0, 64))
    else if i == 3 then Cell(0, [], [], x.h(0), [], x.h(1), Fill(0, 64))
    else if i == 4 then Cell(LAST_ROUND, [], [], x.h(0), [], x.h(0), Fill(0, 64))
    else Cell(0, [], [1], x.h(0), [x.h(2)], x.h(0), Fill(0, 64))
  }

  function NumberOf(x: Scene, c: Cell): nat {
    if c.round == 1 then 2
    else if c.round != 0 then 4
    else if c.author == [0] then 1
    else if c.author == [1] then 5
    else if c.batchRoot == x.h(1) then 3
    else 0
  }

  function World(x: Scene): Crypto {
    Crypto((c: Cell) => x.h(NumberOf(x, c)), (key: Hash32, signature: Hash64, c: Cell) => true)
  }

  lemma Numbered(x: Scene, i: nat)
    requires Distinct(x) && i < 6
    ensures NumberOf(x, CellNo(x, i)) == i && World(x).id(CellNo(x, i)) == x.h(i)
  {
  }

  function Voices(x: Scene): Votes {
    OneKey(x.h(0), Fill(0, 64))
  }

  /** Some of the cells are in play, with an attestation for each. */
  function PlayOf(x: Scene, which: set<nat>): Play {
    Play(set i | i in which :: CellNo(x, i), set i | i in which :: Sent(x.h(i), Voices(x)(0)))
  }

  lemma SceneFaithful(x: Scene, which: set<nat>)
    requires Distinct(x) && forall i :: i in which ==> i < 6
    ensures Faithful(World(x), PlayOf(x, which).cells)
  {
    forall c, d | c in PlayOf(x, which).cells && d in PlayOf(x, which).cells
      ensures World(x).id(c) == World(x).id(d) <==> Same(c, d)
    {
      var i :| i in which && c == CellNo(x, i);
      var j :| j in which && d == CellNo(x, j);
      Numbered(x, i);
      Numbered(x, j);
      assert Same(c, d) ==> NumberOf(x, c) == NumberOf(x, d);
    }
  }

  lemma MakeScene() returns (x: Scene)
    ensures Distinct(x)
  {
    x := Scene((i: nat) => Fill(i % 256, 32));
    forall i, j | 0 <= i < 6 && 0 <= j < 6 && x.h(i) == x.h(j) ensures i == j {
      assert x.h(i)[0] == i && x.h(j)[0] == j;
    }
  }

  // ---------- Nodes that certify some of them ----------

  function Cells(x: Scene, numbers: seq<nat>): (cells: seq<Cell>)
    ensures |cells| == |numbers| && forall k :: 0 <= k < |numbers| ==> cells[k] == CellNo(x, numbers[k])
  {
    seq(|numbers|, k requires 0 <= k < |numbers| => CellNo(x, numbers[k]))
  }

  /** Just these cells are certified. */
  ghost predicate Has(x: Scene, numbers: seq<nat>, s: State) {
    HoldsJust(s.certified, Cells(x, numbers)) && s.groupSize == 1
  }

  /** A node in a group, reached by a run within the group's play. */
  ghost predicate NodeOf(g: Group, events: seq<Event>, s: State) {
    && AllWithin(g.play, events) && s == Run(g.crypto, Initial(g.size, 0, 1), events)
    && Inv(g.crypto, g.play, s) && s.groupSize == g.size
  }

  function GroupOf(x: Scene, which: set<nat>): Group {
    Group(World(x), PlayOf(x, which), 1)
  }

  lemma CellInPlay(x: Scene, which: set<nat>, n: nat)
    requires Distinct(x) && n < 6 && n in which
    ensures CellNo(x, n) in PlayOf(x, which).cells
    ensures Sent(World(x).id(CellNo(x, n)), Voices(x)(0)) in PlayOf(x, which).sent
  {
    Numbered(x, n);
  }

  lemma EventsWithin(x: Scene, numbers: seq<nat>, which: set<nat>)
    requires Distinct(x) && forall i :: i in numbers ==> i < 6 && i in which
    ensures AllWithin(PlayOf(x, which), CertifyAll(World(x), Cells(x, numbers), Voices(x), 1))
  {
    var w, cells, play := World(x), Cells(x, numbers), PlayOf(x, which);
    forall c | c in cells ensures c in play.cells && forall i :: 0 <= i < 1 ==> Sent(w.id(c), Voices(x)(i)) in play.sent {
      var k :| 0 <= k < |numbers| && cells[k] == c;
      assert numbers[k] in numbers;
      CellInPlay(x, which, numbers[k]);
    }
    CertifyAllWithin(w, cells, Voices(x), 1, play);
  }

  lemma SceneRunKeeps(x: Scene, which: set<nat>, events: seq<Event>)
    requires Distinct(x) && (forall i :: i in which ==> i < 6) && AllWithin(PlayOf(x, which), events)
    ensures NodeOf(GroupOf(x, which), events, Run(World(x), Initial(1, 0, 1), events))
  {
    SceneFaithful(x, which);
    RunKeeps(World(x), PlayOf(x, which), Initial(1, 0, 1), events);
  }

  /** A run that leaves a node with just these cells certified. */
  lemma Reach(x: Scene, numbers: seq<nat>, which: set<nat>) returns (events: seq<Event>, s: State)
    requires Distinct(x) && DistinctKeys(Cells(x, numbers)) && (forall i :: i in which ==> i < 6)
    requires forall i :: i in numbers ==> i in which && CellNo(x, i).round <= 1
    ensures NodeOf(GroupOf(x, which), events, s) && Has(x, numbers, s) && s.highWater <= 1
  {
    var cells, v := Cells(x, numbers), Voices(x);
    events := CertifyAll(World(x), cells, v, 1);
    s := Run(World(x), Initial(1, 0, 1), events);
    CertifiesAll(World(x), 1, cells, v, 1);
    AllFiledHolds(Fresh(1), cells, Ballot(v, 0, 1));
    AllFiledHigh(Fresh(1), cells, Ballot(v, 0, 1), 1);
    EventsWithin(x, numbers, which);
    SceneRunKeeps(x, which, events);
  }

  lemma InTable(x: Scene, numbers: seq<nat>, s: State, k: nat)
    requires Distinct(x) && Has(x, numbers, s) && k < |numbers| && numbers[k] < 6
    ensures
      var c := CellNo(x, numbers[k]);
      KeyOf(c) in s.certified && s.certified[KeyOf(c)].cell == c && IdAt(World(x), s.certified, KeyOf(c)) == x.h(numbers[k])
  {
    assert Cells(x, numbers)[k] == CellNo(x, numbers[k]);
    Numbered(x, numbers[k]);
  }

  lemma OnlyThese(x: Scene, numbers: seq<nat>, s: State, key: Key) returns (k: nat)
    requires Has(x, numbers, s) && key in s.certified
    ensures k < |numbers| && key == KeyOf(CellNo(x, numbers[k]))
  {
    k :| 0 <= k < |numbers| && KeyOf(Cells(x, numbers)[k]) == key;
  }

  // ---------- Lineages ----------

  /** The child names the parent, and both belong to the child's history. */
  lemma BothInHistory(w: Crypto, t: Table, child: Key, parent: Key)
    requires Edge(w, t, child, parent)
    ensures child in History(w, t, IdAt(w, t, child)) && parent in History(w, t, IdAt(w, t, child))
  {
    ReachesSelf(w, t, child);
    HistoryClosed(w, t, IdAt(w, t, child), child, parent);
  }

  lemma Names(x: Scene, s: State, child: nat, parent: nat)
    requires Distinct(x) && child < 6 && parent < 6 && (Has(x, [child, parent], s) || Has(x, [parent, child], s))
    requires x.h(parent) in CellNo(x, child).parents
    ensures Edge(World(x), s.certified, KeyOf(CellNo(x, child)), KeyOf(CellNo(x, parent)))
    ensures IdAt(World(x), s.certified, KeyOf(CellNo(x, child))) == x.h(child)
  {
    if Has(x, [child, parent], s) {
      InTable(x, [child, parent], s, 0);
      InTable(x, [child, parent], s, 1);
    } else {
      InTable(x, [parent, child], s, 1);
      InTable(x, [parent, child], s, 0);
    }
  }

  lemma OnlyOne(x: Scene, s: State, start: CellId, a: nat)
    requires Has(x, [a], s)
    ensures History(World(x), s.certified, start) <= {KeyOf(CellNo(x, a))}
  {
    forall k | k in s.certified ensures k == KeyOf(CellNo(x, a)) {
      var i := OnlyThese(x, [a], s, k);
    }
  }

  lemma OnlyTwo(x: Scene, s: State, start: CellId, a: nat, b: nat)
    requires Has(x, [a, b], s)
    ensures History(World(x), s.certified, start) <= {KeyOf(CellNo(x, a)), KeyOf(CellNo(x, b))}
  {
    forall k | k in s.certified ensures k == KeyOf(CellNo(x, a)) || k == KeyOf(CellNo(x, b)) {
      var i := OnlyThese(x, [a, b], s, k);
    }
  }

  /** The cell of round 1 without its parents, and with one of them. */
  lemma SecondAlone(x: Scene, s: State)
    requires Distinct(x) && Has(x, [2], s)
    ensures |Lineage(World(x), s.certified, x.h(2))| <= 1
  {
    OnlyOne(x, s, x.h(2), 2);
    Quorum.Smaller(History(World(x), s.certified, x.h(2)), {KeyOf(CellNo(x, 2))});
  }

  lemma SecondWithParent(x: Scene, s: State)
    requires Distinct(x) && Has(x, [2, 0], s)
    ensures |Lineage(World(x), s.certified, x.h(2))| >= 2
  {
    NamesFirst(x);
    Names(x, s, 2, 0);
    BothInHistory(World(x), s.certified, Key(1, []), Key(0, []));
    TwoAtLeast(History(World(x), s.certified, x.h(2)), Key(1, []), Key(0, []));
  }

  lemma NamesFirst(x: Scene)
    ensures x.h(0) in CellNo(x, 2).parents && x.h(2) in CellNo(x, 5).parents
  {
  }

  lemma TwoAtLeast(keys: set<Key>, a: Key, b: Key)
    requires a in keys && b in keys && a != b
    ensures |keys| >= 2
  {
    Quorum.Smaller({a, b}, keys);
  }

  /** Two nodes that have certified one cell, one of them also a parent it names, commit different lists for it. */
  lemma MissingParentParts() returns (g: Group, events: seq<Event>, s: State, others: seq<Event>, s': State, start: CellId)
    ensures NodeOf(g, events, s) && NodeOf(g, others, s')
    ensures Lineage(g.crypto, s.certified, start) != Lineage(g.crypto, s'.certified, start)
  {
    var x := MakeScene();
    g, start := GroupOf(x, {0, 2}), x.h(2);
    events, s := Reach(x, [2], {0, 2});
    others, s' := Reach(x, [2, 0], {0, 2});
    SecondAlone(x, s);
    SecondWithParent(x, s');
  }

  lemma TwoInOrder(keys: set<Key>, a: Key, b: Key)
    requires keys == {a, b} && Less(a, b)
    ensures InOrder(keys) == [a, b]
  {
    AscendingUnique([a, b], keys);
  }

  lemma EarlyNames(x: Scene, s: State)
    requires Distinct(x) && Has(x, [2, 5], s)
    ensures Edge(World(x), s.certified, Key(0, [1]), Key(1, [])) && IdAt(World(x), s.certified, Key(0, [1])) == x.h(5)
  {
    NamesFirst(x);
    Names(x, s, 5, 2);
  }

  lemma EarlyOnly(x: Scene, s: State)
    requires Has(x, [2, 5], s)
    ensures History(World(x), s.certified, x.h(5)) <= {Key(0, [1]), Key(1, [])}
  {
    OnlyTwo(x, s, x.h(5), 2, 5);
  }

  lemma EarlyHistory(x: Scene, s: State)
    requires Distinct(x) && Has(x, [2, 5], s)
    ensures History(World(x), s.certified, x.h(5)) == {Key(0, [1]), Key(1, [])}
  {
    EarlyNames(x, s);
    EarlyOnly(x, s);
    BothInHistory(World(x), s.certified, Key(0, [1]), Key(1, []));
  }

  /** A node certifies a cell that names one of a later round, and commits it before that one. */
  lemma LaterParentComesAfter() returns (g: Group, events: seq<Event>, s: State, start: CellId, child: Key, parent: Key)
    ensures NodeOf(g, events, s) && Edge(g.crypto, s.certified, child, parent)
    ensures InOrder(History(g.crypto, s.certified, start)) == [child, parent]
  {
    var x := MakeScene();
    g, start, child, parent := GroupOf(x, {2, 5}), x.h(5), Key(0, [1]), Key(1, []);
    events, s := Reach(x, [2, 5], {2, 5});
    EarlyNames(x, s);
    EarlyHistory(x, s);
    TwoInOrder(History(g.crypto, s.certified, start), child, parent);
  }

  // ---------- Commits ----------

  /** A log of one cycle, which commits this cell of the pivot. */
  ghost predicate OneEntry(log: seq<Entry>, s: State, pivot: Bytes, id: CellId) {
    && |log| == 1 && log[0].seen == s
    && log[0].cycle.pivot == pivot && log[0].cycle.groupId == [] && log[0].cycle.pivotCell == id
  }

  /** A cell of round 0 has its follower: the commit goes through, or panics after a cell of the largest round. */
  lemma FollowedCommits(w: Crypto, s: State, pivot: Bytes, f: Key)
    requires s.groupSize == 1 && Key(0, pivot) in s.certified
    requires f in Followers(s.certified, 1, IdAt(w, s.certified, Key(0, pivot)))
    ensures
      var d := Decide(w, s, 0, pivot, []);
      if s.highWater == LAST_ROUND then d == Panics
      else d.Committed? && d.cycle.pivotCell == IdAt(w, s.certified, Key(0, pivot))
  {
    Quorum.Smaller({f}, Followers(s.certified, 1, IdAt(w, s.certified, Key(0, pivot))));
    assert Saturate(2 * 0) == 0;
  }

  lemma SceneFollowed(x: Scene, first: nat, s: State, pivot: Bytes, n: nat)
    requires Distinct(x) && (first == 0 || first == 3) && Has(x, [first, 1, 2], s)
    requires (pivot == [] && n == first) || (pivot == [0] && n == 1)
    ensures Key(0, pivot) in s.certified && IdAt(World(x), s.certified, Key(0, pivot)) == x.h(n)
    ensures Key(1, []) in Followers(s.certified, 1, x.h(n))
  {
    InTable(x, [first, 1, 2], s, if pivot == [] then 0 else 1);
    InTable(x, [first, 1, 2], s, 2);
    assert x.h(n) in [x.h(0), x.h(1), x.h(3)];
  }

  function TickOn(s: State, pivot: Bytes): Tick {
    Tick([], 0, [Ranked(pivot, 0)], (i: u64) => s)
  }

  lemma FirstTick(w: Crypto, s: State, pivot: Bytes)
    ensures
      var p, d := ProgressOf(w, [TickOn(s, pivot)]), Decide(w, s, 0, pivot, []);
      && (d == Panics ==> p == Progress([], true))
      && (d.Committed? ==> OneEntry(p.log, s, pivot, d.cycle.pivotCell))
  {
    var t := TickOn(s, pivot);
    assert [t][..0] == [];
    TickIs(w, t, BEGIN);
  }

  lemma SceneLog(x: Scene, first: nat, s: State, late: State, pivot: Bytes, n: nat)
    requires Distinct(x) && (first == 0 || first == 3) && Has(x, [first, 1, 2], s)
    requires late.certified == s.certified && late.groupSize == s.groupSize
    requires (pivot == [] && n == first) || (pivot == [0] && n == 1)
    ensures
      var p := ProgressOf(World(x), [TickOn(late, pivot)]);
      if late.highWater == LAST_ROUND then p == Progress([], true) else OneEntry(p.log, late, pivot, x.h(n))
  {
    SceneFollowed(x, first, late, pivot, n);
    FollowedCommits(World(x), late, pivot, Key(1, []));
    FirstTick(World(x), late, pivot);
  }

  /** Two cells of round 0, the first of them number 0 or its twin, and one of round 1. */
  lemma MakeNode(x: Scene, first: nat, which: set<nat>) returns (events: seq<Event>, s: State)
    requires Distinct(x) && (first == 0 || first == 3) && first in which && 1 in which && 2 in which
    requires forall i :: i in which ==> i < 6
    ensures NodeOf(GroupOf(x, which), events, s) && Has(x, [first, 1, 2], s) && s.highWater <= 1
  {
    events, s := Reach(x, [first, 1, 2], which);
  }

  // ---------- A safe group ----------

  lemma SceneSingle(x: Scene)
    requires Distinct(x)
    ensures Single(World(x), PlayOf(x, {0, 1, 2}), x.h(0))
  {
    var w, play := World(x), PlayOf(x, {0, 1, 2});
    forall c, d | KeyBacks(w, play, x.h(0), c) && KeyBacks(w, play, x.h(0), d) && KeyOf(c) == KeyOf(d) ensures Same(c, d) {
      assert c in play.cells && d in play.cells;
    }
  }

  lemma SceneSafe(x: Scene)
    requires Distinct(x)
    ensures Committee(World(x), PlayOf(x, {0, 1, 2}), 1, map[[] := x.h(0)], {})
    ensures NoTwins(World(x), PlayOf(x, {0, 1, 2}).cells) && SafeGroup(GroupOf(x, {0, 1, 2}), map[[] := x.h(0)], {})
  {
    SceneSingle(x);
    SceneFaithful(x, {0, 1, 2});
    assert Bound(World(x), PlayOf(x, {0, 1, 2}), map[[] := x.h(0)]);
  }

  /** A tick that reads this state throughout and ranks this peer last. */
  ghost predicate Reading(g: Group, t: Tick, s: State, pivot: Bytes) {
    t.Tick? && t.groupId == [] && t.ranked == [Ranked(pivot, 0)] && (forall i :: t.seen(i) == s) && AllFollow(g, [t])
  }

  /** Alone it commits the pivot's cell. */
  ghost predicate CommitsAlone(g: Group, t: Tick, s: State, pivot: Bytes, id: CellId) {
    OneEntry(LogOf(g.crypto, [t]), s, pivot, id)
  }

  lemma TickReads(g: Group, events: seq<Event>, s: State, pivot: Bytes)
    requires NodeOf(g, events, s)
    ensures Reading(g, TickOn(s, pivot), s, pivot)
  {
    assert Follows(g, TickOn(s, pivot));
  }

  lemma MakeTick(x: Scene, first: nat, which: set<nat>, events: seq<Event>, s: State, pivot: Bytes, n: nat) returns (t: Tick)
    requires Distinct(x) && (first == 0 || first == 3) && Has(x, [first, 1, 2], s) && s.highWater <= 1
    requires NodeOf(GroupOf(x, which), events, s) && ((pivot == [] && n == first) || (pivot == [0] && n == 1))
    ensures Reading(GroupOf(x, which), t, s, pivot) && CommitsAlone(GroupOf(x, which), t, s, pivot, x.h(n))
  {
    t := TickOn(s, pivot);
    TickReads(GroupOf(x, which), events, s, pivot);
    SceneLog(x, first, s, s, pivot, n);
  }

  lemma DifferentPivots(g: Group, t: Tick, s: State, pivot: Bytes, id: CellId, t': Tick, s': State, pivot': Bytes, id': CellId)
    requires CommitsAlone(g, t, s, pivot, id) && CommitsAlone(g, t', s', pivot', id') && id != id'
    ensures !Comparable(Cycles(LogOf(g.crypto, [t])), Cycles(LogOf(g.crypto, [t'])))
  {
    ComparableSame(LogOf(g.crypto, [t]), LogOf(g.crypto, [t']));
  }

  /** A committee and a run that meet all premises of the results on logs, with something committed. */
  lemma SafeGroupCommits() returns (g: Group, roster: Roster, events: seq<Event>, s: State, t: Tick)
    ensures Committee(g.crypto, g.play, g.size, roster, {}) && NoTwins(g.crypto, g.play.cells) && SafeGroup(g, roster, {})
    ensures NodeOf(g, events, s) && Reading(g, t, s, []) && |LogOf(g.crypto, [t])| == 1
  {
    var x := MakeScene();
    g, roster := GroupOf(x, {0, 1, 2}), map[[] := x.h(0)];
    SceneSafe(x);
    events, s := MakeNode(x, 0, {0, 1, 2});
    t := MakeTick(x, 0, {0, 1, 2}, events, s, [], 0);
  }

  /** Two nodes of a safe group with the same table commit different cells for one cycle if their rankings
      differ in the last peer. */
  lemma PivotsPart() returns (g: Group, roster: Roster, events: seq<Event>, s: State, t: Tick, t': Tick)
    ensures SafeGroup(g, roster, {}) && NodeOf(g, events, s) && Reading(g, t, s, []) && Reading(g, t', s, [0])
    ensures !Comparable(Cycles(LogOf(g.crypto, [t])), Cycles(LogOf(g.crypto, [t'])))
  {
    var x := MakeScene();
    g, roster := GroupOf(x, {0, 1, 2}), map[[] := x.h(0)];
    SceneSafe(x);
    events, s := MakeNode(x, 0, {0, 1, 2});
    t := MakeTick(x, 0, {0, 1, 2}, events, s, [], 0);
    t' := MakeTick(x, 0, {0, 1, 2}, events, s, [0], 1);
    DifferentPivots(g, t, s, [], x.h(0), t', s, [0], x.h(1));
  }

  // ---------- Twins ----------

  lemma SlotsIn(x: Scene, s: State, first: nat, u: State, other: nat)
    requires Distinct(x) && Has(x, [first, 1, 2], s) && Has(x, [other, 1, 2], u)
    requires first < 6 && other < 6 && KeyOf(CellNo(x, first)) == KeyOf(CellNo(x, other))
    ensures s.certified.Keys <= u.certified.Keys
  {
    forall k | k in s.certified ensures k in u.certified {
      var i := OnlyThese(x, [first, 1, 2], s, k);
      InTable(x, [other, 1, 2], u, i);
    }
  }

  lemma HeldSlots(w: Crypto, a: seq<Entry>, s: State, id: CellId, b: seq<Entry>, s': State, id': CellId)
    requires OneEntry(a, s, [], id) && OneEntry(b, s', [], id') && s.certified.Keys == s'.certified.Keys
    ensures ElectedAlike(a, b) && SlotsHeld(w, a, b)
  {
  }

  /** Two nodes of one group elect one pivot and hold a cell for every author and round the other one commits, but
      one holds the twin of the pivot's cell: their logs are not comparable. */
  lemma TwinsPart() returns (g: Group, events: seq<Event>, s: State, t: Tick, others: seq<Event>, s': State, t': Tick)
    ensures Faithful(g.crypto, g.play.cells) && NodeOf(g, events, s) && NodeOf(g, others, s')
    ensures Reading(g, t, s, []) && Reading(g, t', s', [])
    ensures
      var a, b := LogOf(g.crypto, [t]), LogOf(g.crypto, [t']);
      ElectedAlike(a, b) && SlotsHeld(g.crypto, a, b) && !Comparable(Cycles(a), Cycles(b))
  {
    var x := MakeScene();
    var all := {0, 1, 2, 3};
    g := GroupOf(x, all);
    SceneFaithful(x, all);
    events, s := MakeNode(x, 0, all);
    others, s' := MakeNode(x, 3, all);
    t := MakeTick(x, 0, all, events, s, [], 0);
    t' := MakeTick(x, 3, all, others, s', [], 3);
    SlotsIn(x, s, 0, s', 3);
    SlotsIn(x, s', 3, s, 0);
    HeldSlots(g.crypto, LogOf(g.crypto, [t]), s, x.h(0), LogOf(g.crypto, [t']), s', x.h(3));
    DifferentPivots(g, t, s, [], x.h(0), t', s', [], x.h(3));
  }

  // ---------- A panic ----------

  /** A cell of the largest round arrives. */
  lemma FarArrives(x: Scene, events: seq<Event>, s: State, all: set<nat>) returns (late: State)
    requires Distinct(x) && 4 in all && (forall i :: i in all ==> i < 6) && NodeOf(GroupOf(x, all), events, s)
    ensures NodeOf(GroupOf(x, all), events + [SeeCell(CellNo(x, 4))], late)
    ensures late.certified == s.certified && late.groupSize == s.groupSize && late.highWater == LAST_ROUND
  {
    var more := events + [SeeCell(CellNo(x, 4))];
    late := Run(World(x), Initial(1, 0, 1), more);
    RunAppend(World(x), Initial(1, 0, 1), events, SeeCell(CellNo(x, 4)));
    FarWithin(x, all, events);
    SceneRunKeeps(x, all, more);
  }

  lemma FarWithin(x: Scene, all: set<nat>, events: seq<Event>)
    requires Distinct(x) && 4 in all && AllWithin(PlayOf(x, all), events)
    ensures AllWithin(PlayOf(x, all), events + [SeeCell(CellNo(x, 4))])
  {
    CellInPlay(x, all, 4);
  }

  lemma LateTick(x: Scene, all: set<nat>, events: seq<Event>, s: State, late: State) returns (t: Tick)
    requires Distinct(x) && Has(x, [0, 1, 2], s) && NodeOf(GroupOf(x, all), events, late)
    requires late.certified == s.certified && late.groupSize == s.groupSize && late.highWater == LAST_ROUND
    ensures Reading(GroupOf(x, all), t, late, []) && ProgressOf(World(x), [t]) == Progress([], true)
  {
    t := TickOn(late, []);
    TickReads(GroupOf(x, all), events, late, []);
    SceneLog(x, 0, s, late, [], 0);
  }

  /** After a cell of the largest round a tick that would have committed ends the task: nothing is committed in any
      continuation of the run. */
  lemma PanicEnds() returns (g: Group, events: seq<Event>, far: Cell, s: State, t: Tick, late: State, t': Tick)
    ensures NodeOf(g, events, s) && NodeOf(g, events + [SeeCell(far)], late) && far.round == LAST_ROUND
    ensures Reading(g, t, s, []) && Reading(g, t', late, [])
    ensures |LogOf(g.crypto, [t])| == 1 && forall ticks :: LogOf(g.crypto, [t'] + ticks) == []
  {
    var x := MakeScene();
    var all := {0, 1, 2, 4};
    g, far := GroupOf(x, all), CellNo(x, 4);
    events, s := MakeNode(x, 0, all);
    late := FarArrives(x, events, s, all);
    t := MakeTick(x, 0, all, events, s, [], 0);
    t' := LateTick(x, all, events + [SeeCell(far)], s, late);
    forall ticks ensures LogOf(g.crypto, [t'] + ticks) == [] {
      Ended(g.crypto, t', ticks);
    }
  }

  lemma Ended(w: Crypto, t: Tick, ticks: seq<Tick>)
    requires ProgressOf(w, [t]) == Progress([], true)
    ensures LogOf(w, [t] + ticks) == []
  {
    assert ([t] + ticks)[..1] == [t];
    StoppedForGood(w, [t] + ticks, 1);
  }
}
