// What a commit means for later ones (savitri-consensus/src/lattice/commit.rs): when the cell of a committed
// pivot lies in the causal history of every later cell.
module LaterCommits {
  import opened Basics
  import opened ByteStrings
  import opened LatticeCells
  import opened LatticeAggregator
  import opened CertifyingRuns
  import CommitPoller
  import LatticePublisher
  import opened LatticeThreshold
  import opened LineageCommit
  import Quorum

  // ---------- A committed pivot stays in every later history ----------

  ghost function ParentKeys(w: Crypto, t: Table, k: Key): set<Key>
    requires k in t
  {
    set p | p in t && p.round + 1 == k.round && IdAt(w, t, p) in t[k].cell.parents
  }

  /** From round r on every cell names at least p certified cells of the round before. The design asks for a
      quorum; nobody checks it. */
  ghost predicate EnoughParents(w: Crypto, t: Table, p: nat, r: nat) {
    forall k :: k in t && k.round >= r ==> |ParentKeys(w, t, k)| >= p
  }

  lemma {:induction false} FewParents(w: Crypto, t: Table, keys: set<Key>, ids: seq<CellId>)
    requires UniqueIds(w, t) && forall p :: p in keys ==> p in t && IdAt(w, t, p) in ids
    ensures |keys| <= |ids|
  {
    if keys != {} {
      var p :| p in keys;
      var i :| 0 <= i < |ids| && ids[i] == IdAt(w, t, p);
      var rest := ids[..i] + ids[i + 1..];
      forall q | q in keys - {p} ensures IdAt(w, t, q) in rest {
        var j :| 0 <= j < |ids| && ids[j] == IdAt(w, t, q);
        assert j < i ==> rest[j] == ids[j];
        assert j > i ==> rest[j - 1] == ids[j];
      }
      FewParents(w, t, keys - {p}, rest);
    }
  }

  /** From a configured size of 25 on no cell of the publisher names a quorum of parents. */
  lemma CapBelowQuorum(w: Crypto, t: Table, size: nat, k: Key)
    requires UniqueIds(w, t) && k in t && |t[k].cell.parents| <= LatticePublisher.PARENT_CAP
    ensures size >= 25 ==> |ParentKeys(w, t, k)| < Quorum.LatticeQuorum(size)
    ensures Quorum.LatticeQuorum(size) <= LatticePublisher.PARENT_CAP <==> size <= 24
  {
    FewParents(w, t, ParentKeys(w, t, k), t[k].cell.parents);
  }

  /** A cell without parents commits itself alone, whatever was committed before it. */
  lemma ParentlessCommitsItself(w: Crypto, t: Table, k: Key)
    requires UniqueIds(w, t) && k in t && t[k].cell.parents == []
    ensures History(w, t, IdAt(w, t, k)) == {k}
  {
    ReachesSelf(w, t, k);
    HistoryWithin(w, t, IdAt(w, t, k), {k});
  }

  ghost function Authors(keys: set<Key>): set<Bytes> {
    set k | k in keys :: k.author
  }

  lemma {:induction false} AuthorsSize(keys: set<Key>, round: u64)
    requires forall k :: k in keys ==> k.round == round
    ensures |Authors(keys)| == |keys|
  {
    if keys != {} {
      var k :| k in keys;
      AuthorsSize(keys - {k}, round);
      assert k.author !in Authors(keys - {k});
      assert Authors(keys) == Authors(keys - {k}) + {k.author};
    }
  }

  /** Enough cells of one round by members of one group have one in common with enough others. */
  lemma CellsMeet(members: set<Bytes>, a: set<Key>, b: set<Key>, round: u64)
    requires forall k :: k in a + b ==> k.round == round && k.author in members
    requires |a| + |b| > |members|
    ensures a * b != {}
  {
    AuthorsSize(a, round);
    AuthorsSize(b, round);
    Quorum.Overlap(Authors(a), Authors(b), members);
    assert Authors(a) * Authors(b) != {};
    var x :| x in Authors(a) * Authors(b);
    assert Key(round, x) in a * b;
  }

  lemma ReachesVia(w: Crypto, t: Table, a: Key, b: Key, c: Key)
    requires Edge(w, t, a, b) && Reaches(w, t, b, c)
    ensures Reaches(w, t, a, c)
  {
    var p :| Chain(w, t, p) && p[0] == b && p[|p| - 1] == c;
    assert Chain(w, t, [a] + p);
  }

  /** A table of cells by n members; the anchor has q followers, and from two rounds later on every cell names
      p parents of the round before. */
  ghost predicate Rows(n: nat, q: nat, p: nat, w: Crypto, t: Table, members: set<Bytes>, anchor: Key) {
    && UniqueIds(w, t) && |members| == n && (forall c :: c in t ==> c.author in members)
    && anchor in t && anchor.round + 1 < U64
    && |Followers(t, anchor.round + 1, IdAt(w, t, anchor))| >= q && EnoughParents(w, t, p, anchor.round + 2)
  }

  /** Every cell from two rounds after a pivot cell on has it in its causal history if followers and parents
      together are more than the members. */
  lemma {:induction false} AnchorInLaterHistory(n: nat, q: nat, p: nat, w: Crypto, t: Table, members: set<Bytes>,
                                               anchor: Key, k: Key)
    requires Rows(n, q, p, w, t, members, anchor) && q + p > n && k in t && anchor.round + 2 <= k.round
    ensures Reaches(w, t, k, anchor)
    decreases k.round
  {
    var parents := ParentKeys(w, t, k);
    var followers := Followers(t, anchor.round + 1, IdAt(w, t, anchor));
    if k.round == anchor.round + 2 {
      CellsMeet(members, followers, parents, anchor.round + 1);
      var c :| c in followers * parents;
      ReachesSelf(w, t, anchor);
      ReachesVia(w, t, c, anchor, anchor);
      ReachesVia(w, t, k, c, anchor);
    } else {
      if p == 0 {
        CellsMeet(members, followers, {}, anchor.round + 1);
      }
      assert parents != {};
      var c :| c in parents;
      AnchorInLaterHistory(n, q, p, w, t, members, anchor, c);
      ReachesVia(w, t, k, c, anchor);
    }
  }

  lemma {:induction false} ReachesThrough(w: Crypto, t: Table, p: seq<Key>, c: Key)
    requires Chain(w, t, p) && Reaches(w, t, p[|p| - 1], c)
    ensures Reaches(w, t, p[0], c)
  {
    if |p| > 1 {
      assert Edge(w, t, p[0], p[1]);
      ReachesThrough(w, t, p[1..], c);
      ReachesVia(w, t, p[0], p[1], c);
    }
  }

  /** So a later pivot commits everything the earlier pivot committed. */
  lemma LaterCommitExtends(n: nat, q: nat, p: nat, w: Crypto, t: Table, members: set<Bytes>, anchor: Key, later: Key)
    requires Rows(n, q, p, w, t, members, anchor) && q + p > n && later in t && anchor.round + 2 <= later.round
    ensures History(w, t, IdAt(w, t, anchor)) <= History(w, t, IdAt(w, t, later))
  {
    AnchorInLaterHistory(n, q, p, w, t, members, anchor, later);
    forall b | b in History(w, t, IdAt(w, t, anchor)) ensures b in History(w, t, IdAt(w, t, later)) {
      var a :| a in t && IdAt(w, t, a) == IdAt(w, t, anchor) && Reaches(w, t, a, b);
      var c :| Chain(w, t, c) && c[0] == later && c[|c| - 1] == anchor;
      ReachesThrough(w, t, c, b);
    }
  }

  // ---------- Two entries of one log ----------

  /** The later table still holds the very cells that followed the anchor and those behind it. */
  ghost predicate StillHeld(w: Crypto, t: Table, u: Table, anchor: Key)
    requires anchor in t
  {
    && HoldsAll(w, t, u, IdAt(w, t, anchor))
    && forall k :: k in t && k.round == anchor.round + 1 && IdAt(w, t, anchor) in t[k].cell.parents ==>
         k in u && Same(t[k].cell, u[k].cell)
  }

  lemma FollowersStay(w: Crypto, cells: set<Cell>, t: Table, u: Table, anchor: Key, q: nat)
    requires Faithful(w, cells) && TableOk(w, cells, t) && TableOk(w, cells, u)
    requires anchor in t && anchor.round + 1 < U64 && StillHeld(w, t, u, anchor) && Followed(w, t, anchor, q)
    ensures anchor in u && IdAt(w, u, anchor) == IdAt(w, t, anchor)
    ensures |Followers(u, anchor.round + 1, IdAt(w, u, anchor))| >= q
  {
    ReachesSelf(w, t, anchor);
    assert anchor in History(w, t, IdAt(w, t, anchor));
    CrossKey(w, cells, t, u, anchor, anchor);
    var f :| FollowedBy(w, t, anchor, f) && |f| >= q;
    assert FollowedBy(w, u, anchor, f);
    FollowedIff(w, u, anchor, q);
  }

  lemma LineageGrows(w: Crypto, cells: set<Cell>, t: Table, u: Table, start: CellId, later: CellId, id: CellId)
    requires Faithful(w, cells) && TableOk(w, cells, t) && TableOk(w, cells, u)
    requires HoldsAll(w, t, u, start) && History(w, u, start) <= History(w, u, later) && id in Lineage(w, t, start)
    ensures id in Lineage(w, u, later)
  {
    LineageHolds(w, t, start, id);
    var k :| k in History(w, t, start) && IdAt(w, t, k) == id;
    HistoryCarriesOver(w, cells, t, u, start);
    CrossKey(w, cells, t, u, k, k);
    LineageHolds(w, u, later, id);
  }

  /** In every run: of two committed cycles the later one lists all that the earlier one listed, if the node still held
      the earlier one's cells and followers, all cells from two rounds after the anchor on name p parents, and the
      quorum that a commit takes and p together are more than the n authors. */
  lemma LaterEntryExtends(g: CommitPoller.Group, ticks: seq<CommitPoller.Tick>, i: nat, j: nat, members: set<Bytes>, p: nat, id: CellId)
    requires Faithful(g.crypto, g.play.cells) && CommitPoller.AllFollow(g, ticks)
    requires i < j < |CommitPoller.LogOf(g.crypto, ticks)|
    requires
      var d, e := CommitPoller.LogOf(g.crypto, ticks)[i], CommitPoller.LogOf(g.crypto, ticks)[j];
      && CommitPoller.AnchorOf(d) in d.seen.certified
      && StillHeld(g.crypto, d.seen.certified, e.seen.certified, CommitPoller.AnchorOf(d))
      && (forall k :: k in e.seen.certified ==> k.author in members)
      && EnoughParents(g.crypto, e.seen.certified, p, 2 * i + 2)
    requires Quorum.LatticeQuorum(g.size) + p > |members|
    ensures
      var d, e := CommitPoller.LogOf(g.crypto, ticks)[i], CommitPoller.LogOf(g.crypto, ticks)[j];
      id in d.cycle.committed ==> id in e.cycle.committed
  {
    var d, e := CommitPoller.LogOf(g.crypto, ticks)[i], CommitPoller.LogOf(g.crypto, ticks)[j];
    var w, t, u, q := g.crypto, d.seen.certified, e.seen.certified, Quorum.LatticeQuorum(g.size);
    CommitPoller.LogShape(g, ticks);
    CommitPoller.EntryShape(g, d, i);
    CommitPoller.EntryShape(g, e, j);
    var anchor, later := CommitPoller.AnchorOf(d), CommitPoller.AnchorOf(e);
    FollowersStay(w, g.play.cells, t, u, anchor, q);
    TableOfInv(w, g.play, e.seen);
    LaterCommitExtends(|members|, q, p, w, u, members, anchor, later);
    if id in d.cycle.committed {
      LineageGrows(w, g.play.cells, t, u, d.cycle.pivotCell, e.cycle.pivotCell, id);
    }
  }

  // ---------- Otherwise it need not ----------

  /** One cell of round 0, a row of n cells of which the first q name it, and a cell that names the last p of the
      row; they are numbered, and each number has its identifier. */
  datatype Stack = Stack(n: nat, q: nat, p: nat, ids: nat -> CellId)

  ghost predicate Fits(x: Stack) {
    && 0 < x.n && x.q + x.p <= x.n
    && forall i, j :: 0 <= i <= x.n + 1 && 0 <= j <= x.n + 1 && x.ids(i) == x.ids(j) ==> i == j
  }

  function Slot(i: nat): Key {
    Key(1, Name(i))
  }

  function Slots(lo: nat, hi: nat): set<Key>
    requires lo <= hi
  {
    set i | i in Quorum.Range(lo, hi) :: Slot(i)
  }

  const BOTTOM := Key(0, [])
  const TOP := Key(2, [])

  function Number(x: Stack, k: Key): nat {
    if k.round == 0 then 0 else if k.round == 1 then 1 + |k.author| else x.n + 1
  }

  function Named(x: Stack): (ids: seq<CellId>)
    requires x.p <= x.n
    ensures |ids| == x.p && forall j :: 0 <= j < x.p ==> ids[j] == x.ids(1 + x.n - x.p + j)
  {
    seq(x.p, j requires 0 <= j => x.ids(1 + x.n - x.p + j))
  }

  function Parents(x: Stack, k: Key): seq<CellId>
    requires x.p <= x.n
  {
    if k.round == 0 then [] else if k.round == 1 then (if |k.author| < x.q then [x.ids(0)] else []) else Named(x)
  }

  function CellAt(x: Stack, k: Key): Cell
    requires x.p <= x.n
  {
    Cell(k.round, [], k.author, x.ids(0), Parents(x, k), x.ids(0), Fill(0, 64))
  }

  function StackWorld(x: Stack): Crypto {
    Crypto((c: Cell) => x.ids(Number(x, KeyOf(c))), (key: Hash32, signature: Hash64, c: Cell) => true)
  }

  lemma SlotIs(lo: nat, hi: nat, k: Key)
    requires lo <= hi
    ensures k in Slots(lo, hi) <==> k == Slot(|k.author|) && lo <= |k.author| < hi
  {
    if k == Slot(|k.author|) && lo <= |k.author| < hi {
      assert |k.author| in Quorum.Range(lo, hi);
    }
  }

  lemma SlotsSize(lo: nat, hi: nat)
    requires lo <= hi
    ensures |Slots(lo, hi)| == hi - lo
  {
    AuthorsSize(Slots(lo, hi), 1);
    assert Authors(Slots(lo, hi)) == Names(Quorum.Range(lo, hi)) by {
      forall i | i in Quorum.Range(lo, hi) ensures Name(i) in Authors(Slots(lo, hi)) {
        assert Slot(i) in Slots(lo, hi);
      }
    }
    NamesSize(Quorum.Range(lo, hi));
  }

  /** What the world and the table hold. */
  ghost predicate Placed(x: Stack, w: Crypto, t: Table, k: Key)
    requires k in t && x.p <= x.n
  {
    IdAt(w, t, k) == x.ids(Number(x, k)) && t[k].cell.parents == Parents(x, k)
  }

  ghost predicate Built(x: Stack, w: Crypto, t: Table) {
    Fits(x) && t.Keys == {BOTTOM, TOP} + Slots(0, x.n) && forall k :: k in t ==> Placed(x, w, t, k)
  }

  /** All keys, from the bottom up. */
  function StackKeys(x: Stack): (keys: seq<Key>)
    ensures |keys| == x.n + 2 && keys[0] == BOTTOM && keys[x.n + 1] == TOP
    ensures forall i :: 0 <= i < x.n ==> keys[1 + i] == Slot(i)
  {
    [BOTTOM] + seq(x.n, i requires 0 <= i => Slot(i)) + [TOP]
  }

  lemma KeyNumber(x: Stack, i: nat)
    requires i < x.n + 2
    ensures Number(x, StackKeys(x)[i]) == i
  {
    if 0 < i <= x.n {
      assert StackKeys(x)[1 + (i - 1)] == Slot(i - 1);
    }
  }

  function StackCells(x: Stack): (cells: seq<Cell>)
    requires x.p <= x.n
    ensures |cells| == x.n + 2 && forall i :: 0 <= i < x.n + 2 ==> cells[i] == CellAt(x, StackKeys(x)[i])
  {
    seq(x.n + 2, i requires 0 <= i < x.n + 2 => CellAt(x, StackKeys(x)[i]))
  }

  lemma StackDistinct(x: Stack)
    requires x.p <= x.n
    ensures DistinctKeys(StackCells(x))
  {
    var cells := StackCells(x);
    forall i, j | 0 <= i < j < |cells| ensures KeyOf(cells[i]) != KeyOf(cells[j]) {
      KeyNumber(x, i);
      KeyNumber(x, j);
    }
  }

  lemma StackKeyIs(x: Stack, i: nat)
    requires i < x.n + 2
    ensures StackKeys(x)[i] in {BOTTOM, TOP} + Slots(0, x.n)
  {
    if 0 < i <= x.n {
      assert StackKeys(x)[1 + (i - 1)] == Slot(i - 1);
      SlotIs(0, x.n, Slot(i - 1));
    }
  }

  lemma StackKeyAt(x: Stack, k: Key) returns (i: nat)
    requires k in {BOTTOM, TOP} + Slots(0, x.n)
    ensures i < x.n + 2 && StackKeys(x)[i] == k
  {
    SlotIs(0, x.n, k);
    i := if k == BOTTOM then 0 else if k == TOP then x.n + 1 else 1 + |k.author|;
  }

  lemma JustKeys(t: Table, cells: seq<Cell>, keys: seq<Key>)
    requires HoldsJust(t, cells) && |keys| == |cells| && forall i :: 0 <= i < |cells| ==> KeyOf(cells[i]) == keys[i]
    ensures t.Keys == set k | k in keys
  {
    forall k | k in keys ensures k in t {
      var i :| 0 <= i < |keys| && keys[i] == k;
      assert KeyOf(cells[i]) == k;
    }
  }

  lemma StackKeysWithin(x: Stack, k: Key)
    requires k in StackKeys(x)
    ensures k in {BOTTOM, TOP} + Slots(0, x.n)
  {
    var i :| 0 <= i < |StackKeys(x)| && StackKeys(x)[i] == k;
    StackKeyIs(x, i);
  }

  lemma StackKeysAll(x: Stack, k: Key)
    requires k in {BOTTOM, TOP} + Slots(0, x.n)
    ensures k in StackKeys(x)
  {
    var i := StackKeyAt(x, k);
  }

  lemma SameMembers(keys: seq<Key>, all: set<Key>)
    requires forall k :: k in keys <==> k in all
    ensures (set k | k in keys) == all
  {
  }

  lemma StackKeySet(x: Stack)
    ensures (set k | k in StackKeys(x)) == {BOTTOM, TOP} + Slots(0, x.n)
  {
    var keys, all := StackKeys(x), {BOTTOM, TOP} + Slots(0, x.n);
    forall k ensures k in keys <==> k in all {
      if k in keys {
        StackKeysWithin(x, k);
      }
      if k in all {
        StackKeysAll(x, k);
      }
    }
    SameMembers(keys, all);
  }

  lemma StackHolds(x: Stack, t: Table)
    requires x.p <= x.n && HoldsJust(t, StackCells(x))
    ensures t.Keys == {BOTTOM, TOP} + Slots(0, x.n)
  {
    JustKeys(t, StackCells(x), StackKeys(x));
    StackKeySet(x);
  }

  lemma StackPlaced(x: Stack, t: Table)
    requires x.p <= x.n && HoldsJust(t, StackCells(x))
    ensures forall k :: k in t ==> Placed(x, StackWorld(x), t, k)
  {
    forall k | k in t ensures Placed(x, StackWorld(x), t, k) {
      var i :| 0 <= i < |StackCells(x)| && KeyOf(StackCells(x)[i]) == k;
      assert t[k].cell == StackCells(x)[i] == CellAt(x, StackKeys(x)[i]) && KeyOf(CellAt(x, StackKeys(x)[i])) == StackKeys(x)[i];
    }
  }

  /** The table of a node after some run. */
  ghost predicate Reachable(size: nat, w: Crypto, t: Table) {
    exists events :: t == Run(w, Fresh(size), events).certified
  }

  /** A node certifies all these cells, whatever size is configured. */
  lemma RunToStack(x: Stack, size: nat) returns (t: Table)
    requires x.p <= x.n
    ensures Reachable(size, StackWorld(x), t) && HoldsJust(t, StackCells(x))
  {
    var w, cells, v, q := StackWorld(x), StackCells(x), OneKey(x.ids(0), Fill(0, 64)), Quorum.LatticeVotes(size);
    StackDistinct(x);
    CertifiesAll(w, size, cells, v, q);
    AllFiledHolds(Fresh(size), cells, Ballot(v, 0, q));
    t := Run(w, Fresh(size), CertifyAll(w, cells, v, q)).certified;
  }

  lemma Build(x: Stack, size: nat) returns (w: Crypto, t: Table)
    requires Fits(x)
    ensures Built(x, w, t) && Reachable(size, w, t)
  {
    w := StackWorld(x);
    t := RunToStack(x, size);
    StackHolds(x, t);
    StackPlaced(x, t);
  }

  lemma StackKey(x: Stack, w: Crypto, t: Table, k: Key)
    requires Built(x, w, t)
    ensures k in t <==> k == BOTTOM || k == TOP || (k == Slot(|k.author|) && |k.author| < x.n)
    ensures k in t ==> Placed(x, w, t, k)
  {
    SlotIs(0, x.n, k);
    assert k in t <==> k in t.Keys;
  }

  lemma StackUnique(x: Stack, w: Crypto, t: Table)
    requires Built(x, w, t)
    ensures UniqueIds(w, t)
  {
    forall j, k | j in t && k in t && IdAt(w, t, j) == IdAt(w, t, k) ensures j == k {
      StackKey(x, w, t, j);
      StackKey(x, w, t, k);
      assert Number(x, j) == Number(x, k);
    }
  }

  lemma StackFollowers(x: Stack, w: Crypto, t: Table)
    requires Built(x, w, t)
    ensures |Followers(t, 1, x.ids(0))| >= x.q
  {
    forall k | k in Slots(0, x.q) ensures k in Followers(t, 1, x.ids(0)) {
      SlotIs(0, x.q, k);
      StackKey(x, w, t, k);
      assert t[k].cell.parents == [x.ids(0)];
    }
    AtLeastSlots(0, x.q, Followers(t, 1, x.ids(0)));
  }

  lemma NamedIff(x: Stack, m: nat)
    requires Fits(x) && m <= x.n + 1
    ensures x.ids(m) in Named(x) <==> x.n - x.p < m <= x.n
  {
    if x.n - x.p < m <= x.n {
      assert Named(x)[m - 1 - x.n + x.p] == x.ids(m);
    }
    if x.ids(m) in Named(x) {
      var j :| 0 <= j < x.p && Named(x)[j] == x.ids(m);
      assert m == 1 + x.n - x.p + j;
    }
  }

  lemma NamedByTop(x: Stack, w: Crypto, t: Table, k: Key)
    requires Built(x, w, t)
    ensures Edge(w, t, TOP, k) <==> k in Slots(x.n - x.p, x.n)
  {
    SlotIs(x.n - x.p, x.n, k);
    StackKey(x, w, t, k);
    StackKey(x, w, t, TOP);
    assert t[TOP].cell.parents == Named(x);
    if k in t {
      NamedIff(x, Number(x, k));
    }
  }

  lemma RowParent(x: Stack, w: Crypto, t: Table, c: Key)
    requires Built(x, w, t) && c in Slots(x.n - x.p, x.n)
    ensures TOP in t && c in ParentKeys(w, t, TOP)
  {
    NamedByTop(x, w, t, c);
  }

  lemma RowParents(x: Stack, w: Crypto, t: Table)
    requires Built(x, w, t) && TOP in t
    ensures Slots(x.n - x.p, x.n) <= ParentKeys(w, t, TOP)
  {
    var parents, row := ParentKeys(w, t, TOP), Slots(x.n - x.p, x.n);
    forall c | c in row ensures c in parents {
      RowParent(x, w, t, c);
    }
  }

  lemma AtLeastSlots(lo: nat, hi: nat, keys: set<Key>)
    requires lo <= hi && Slots(lo, hi) <= keys
    ensures |keys| >= hi - lo
  {
    SlotsSize(lo, hi);
    Quorum.Smaller(Slots(lo, hi), keys);
  }

  lemma TopParents(x: Stack, w: Crypto, t: Table)
    requires Built(x, w, t)
    ensures TOP in t && |ParentKeys(w, t, TOP)| >= x.p
  {
    StackKey(x, w, t, TOP);
    RowParents(x, w, t);
    AtLeastSlots(x.n - x.p, x.n, ParentKeys(w, t, TOP));
  }

  lemma StackParents(x: Stack, w: Crypto, t: Table)
    requires Built(x, w, t)
    ensures EnoughParents(w, t, x.p, 2)
  {
    TopParents(x, w, t);
    forall k | k in t && k.round >= 2 ensures k == TOP {
      StackKey(x, w, t, k);
    }
  }

  ghost function Below(x: Stack): set<Key>
    requires x.p <= x.n
  {
    {TOP} + Slots(x.n - x.p, x.n)
  }

  lemma RowNamesNothing(x: Stack, w: Crypto, t: Table, k: Key)
    requires Built(x, w, t) && k in Slots(x.n - x.p, x.n)
    ensures k in t && t[k].cell.parents == []
  {
    SlotIs(x.n - x.p, x.n, k);
    StackKey(x, w, t, k);
  }

  /** The top cell names the last of the row, and these name nothing. */
  lemma BelowClosed(x: Stack, w: Crypto, t: Table, k: Key, parent: Key)
    requires Built(x, w, t) && k in Below(x) && Edge(w, t, k, parent)
    ensures parent in Below(x)
  {
    if k == TOP {
      NamedByTop(x, w, t, parent);
    } else {
      RowNamesNothing(x, w, t, k);
    }
  }

  lemma ClosedHoldsAll(w: Crypto, t: Table, a: Key, closed: set<Key>)
    requires a in closed
    requires forall k, parent :: k in closed && Edge(w, t, k, parent) ==> parent in closed
    ensures forall b :: Reaches(w, t, a, b) ==> b in closed
  {
    forall b | Reaches(w, t, a, b) ensures b in closed {
      var c :| Chain(w, t, c) && c[0] == a && c[|c| - 1] == b;
      ClosedHoldsChain(w, t, c, closed);
    }
  }

  lemma BottomNotBelow(x: Stack)
    requires x.p <= x.n
    ensures TOP in Below(x) && BOTTOM !in Below(x)
  {
    SlotIs(x.n - x.p, x.n, BOTTOM);
  }

  lemma StackClosed(x: Stack, w: Crypto, t: Table) returns (closed: set<Key>)
    requires Built(x, w, t)
    ensures TOP in closed && BOTTOM !in closed
    ensures forall k, parent :: k in closed && Edge(w, t, k, parent) ==> parent in closed
  {
    closed := Below(x);
    BottomNotBelow(x);
    forall k, parent | k in closed && Edge(w, t, k, parent) ensures parent in closed {
      BelowClosed(x, w, t, k, parent);
    }
  }

  lemma StackMisses(x: Stack, w: Crypto, t: Table)
    requires Built(x, w, t)
    ensures !Reaches(w, t, TOP, BOTTOM)
  {
    var closed := StackClosed(x, w, t);
    ClosedHoldsAll(w, t, TOP, closed);
  }

  lemma StackAuthors(x: Stack, w: Crypto, t: Table, c: Key)
    requires Built(x, w, t) && c in t
    ensures c.author in Names(Quorum.Range(0, x.n))
  {
    StackKey(x, w, t, c);
    assert c.author == Name(|c.author|) && |c.author| in Quorum.Range(0, x.n);
  }

  lemma StackRows(x: Stack, w: Crypto, t: Table) returns (members: set<Bytes>)
    requires Built(x, w, t)
    ensures Rows(x.n, x.q, x.p, w, t, members, BOTTOM)
  {
    members := Names(Quorum.Range(0, x.n));
    NamesSize(Quorum.Range(0, x.n));
    forall c | c in t ensures c.author in members {
      StackAuthors(x, w, t, c);
    }
    StackUnique(x, w, t);
    StackFollowers(x, w, t);
    StackParents(x, w, t);
    StackKey(x, w, t, BOTTOM);
  }

  lemma MakeStack(n: nat, q: nat, p: nat) returns (x: Stack)
    requires 0 < n && n + 1 < U64 && q + p <= n
    ensures Fits(x) && x.n == n && x.q == q && x.p == p
  {
    var cast := MakeCast(n + 1);
    x := Stack(n, q, p, cast.keys);
  }

  ghost predicate Skips(n: nat, q: nat, p: nat, w: Crypto, t: Table, members: set<Bytes>, anchor: Key, k: Key) {
    Rows(n, q, p, w, t, members, anchor) && k in t && anchor.round + 2 <= k.round && !Reaches(w, t, k, anchor)
  }

  ghost predicate CanSkip(size: nat, n: nat, q: nat, p: nat) {
    exists w, t, members, anchor, k :: Reachable(size, w, t) && Skips(n, q, p, w, t, members, anchor, k)
  }

  lemma SkipExists(size: nat, n: nat, q: nat, p: nat)
    requires 0 < n && n + 1 < U64 && q + p <= n
    ensures CanSkip(size, n, q, p)
  {
    var x := MakeStack(n, q, p);
    var w, t := Build(x, size);
    var members := StackRows(x, w, t);
    StackMisses(x, w, t);
    StackKey(x, w, t, TOP);
    assert Skips(n, q, p, w, t, members, BOTTOM, TOP);
  }

  /** After some run of a node, for any configured size, a later cell skips a cell with q followers, though all of n
      members name p parents, exactly when q + p <= n. */
  lemma SkipIff(size: nat, n: nat, q: nat, p: nat)
    requires 0 < n && n + 1 < U64
    ensures CanSkip(size, n, q, p) <==> q + p <= n
  {
    if q + p <= n {
      SkipExists(size, n, q, p);
    } else {
      forall w, t, members, anchor, k ensures !Skips(n, q, p, w, t, members, anchor, k) {
        if Skips(n, q, p, w, t, members, anchor, k) {
          AnchorInLaterHistory(n, q, p, w, t, members, anchor, k);
        }
      }
    }
  }

  /** With the configured size three followers commit a pivot. Later commits are then sure to extend it exactly
      when all but two members are named as parents, and the publisher's cap allows that up to 18 members. */
  lemma SkipByDefault(n: nat, p: nat)
    requires 0 < n && n + 1 < U64
    ensures
      var q := Quorum.LatticeQuorum(DEFAULT_GROUP_SIZE);
      && (CanSkip(DEFAULT_GROUP_SIZE, n, q, p) <==> p + 3 <= n)
      && (CanSkip(DEFAULT_GROUP_SIZE, n, q, LatticePublisher.PARENT_CAP) <==> n >= 19)
  {
    SkipIff(DEFAULT_GROUP_SIZE, n, Quorum.LatticeQuorum(DEFAULT_GROUP_SIZE), p);
    SkipIff(DEFAULT_GROUP_SIZE, n, Quorum.LatticeQuorum(DEFAULT_GROUP_SIZE), LatticePublisher.PARENT_CAP);
  }

  lemma QuorumTwice(n: nat)
    requires n > 0
    ensures 2 * Quorum.LatticeQuorum(n) <= n <==> n == 2 || n == 3 || n == 6
  {
  }

  /** Were the size set to the number of members, a quorum of parents would do but for groups of 2, 3 or 6. */
  lemma QuorumsSkipIff(n: nat)
    requires 0 < n && n + 1 < U64
    ensures CanSkip(n, n, Quorum.LatticeQuorum(n), Quorum.LatticeQuorum(n)) <==> n == 2 || n == 3 || n == 6
  {
    SkipIff(n, n, Quorum.LatticeQuorum(n), Quorum.LatticeQuorum(n));
    QuorumTwice(n);
  }
}
