// The lineage commit rule (savitri-consensus/src/lattice/commit.rs): a cycle commits the certified
// causal history of its pivot's cell, in canonical order.
module LineageCommit {
  import opened Basics
  import opened ByteStrings
  import opened LatticeCells
  import opened LatticeAggregator
  import Quorum

  type Table = map<Key, Signed>

  // ---------- Causal history ----------

  function IdAt(w: Crypto, t: Table, k: Key): CellId
    requires k in t
  {
    w.id(t[k].cell)
  }

  ghost predicate Edge(w: Crypto, t: Table, k: Key, parent: Key) {
    k in t && parent in t && IdAt(w, t, parent) in t[k].cell.parents
  }

  /** A chain of certified cells, each naming the next as a parent. */
  ghost predicate Chain(w: Crypto, t: Table, p: seq<Key>) {
    && p != []
    && p[0] in t
    && forall i :: 0 < i < |p| ==> Edge(w, t, p[i - 1], p[i])
  }

  ghost predicate Reaches(w: Crypto, t: Table, a: Key, b: Key) {
    exists p :: Chain(w, t, p) && p[0] == a && p[|p| - 1] == b
  }

  /** Certified cells reachable from the cell with identifier `start`. */
  ghost predicate InHistory(w: Crypto, t: Table, start: CellId, b: Key) {
    exists a :: a in t && IdAt(w, t, a) == start && Reaches(w, t, a, b)
  }

  ghost function History(w: Crypto, t: Table, start: CellId): set<Key> {
    set b | b in t && InHistory(w, t, start, b)
  }

  ghost function Ids(w: Crypto, t: Table, keys: seq<Key>): seq<CellId>
    requires forall k :: k in keys ==> k in t
  {
    seq(|keys|, i requires 0 <= i < |keys| => IdAt(w, t, keys[i]))
  }

  /** What a commit of `start` lists. */
  ghost function Lineage(w: Crypto, t: Table, start: CellId): seq<CellId> {
    Ids(w, t, InOrder(History(w, t, start)))
  }

  ghost predicate Keyed(t: Table) {
    forall k :: k in t ==> KeyOf(t[k].cell) == k
  }

  ghost predicate UniqueIds(w: Crypto, t: Table) {
    forall j, k :: j in t && k in t && IdAt(w, t, j) == IdAt(w, t, k) ==> j == k
  }

  lemma ReachesSelf(w: Crypto, t: Table, a: Key)
    requires a in t
    ensures Reaches(w, t, a, a)
  {
    assert Chain(w, t, [a]);
  }

  lemma ReachesStep(w: Crypto, t: Table, a: Key, b: Key, c: Key)
    requires Reaches(w, t, a, b) && Edge(w, t, b, c)
    ensures Reaches(w, t, a, c)
  {
    var p :| Chain(w, t, p) && p[0] == a && p[|p| - 1] == b;
    assert Chain(w, t, p + [c]);
  }

  /** A set that holds `a` and is closed under parents holds everything `a` reaches. */
  lemma {:induction false} ClosedHoldsChain(w: Crypto, t: Table, p: seq<Key>, closed: set<Key>)
    requires Chain(w, t, p) && p[0] in closed
    requires forall k, parent :: k in closed && Edge(w, t, k, parent) ==> parent in closed
    ensures p[|p| - 1] in closed
  {
    if |p| > 1 {
      var q := p[..|p| - 1];
      ClosedHoldsChain(w, t, q, closed);
      assert Edge(w, t, p[|p| - 2], p[|p| - 1]);
    }
  }

  // ---------- The breadth-first walk ----------

  /** Reading the row of the largest round panics: its upper bound wraps around below its lower bound. */
  const LAST_ROUND: u64 := U64 - 1

  datatype Search = Found(key: Key) | Missing | Panic

  /** Scan by falling round for the certified cell with a given identifier. */
  method FindById(w: Crypto, t: Table, high: u64, id: CellId) returns (r: Search)
    requires Keyed(t) && forall k :: k in t ==> k.round <= high
    ensures r.Panic? <==> high == LAST_ROUND
    ensures r.Found? ==> r.key in t && IdAt(w, t, r.key) == id
    ensures r.Missing? ==> forall k :: k in t ==> IdAt(w, t, k) != id
  {
    var round: int := high;
    while round >= 0
      invariant -1 <= round <= high && (round < high ==> high != LAST_ROUND)
      invariant forall k :: k in t && k.round > round ==> IdAt(w, t, k) != id
    {
      if round == LAST_ROUND {
        return Panic;
      }
      var row := set k | k in t && k.round == round;
      while row != {}
        invariant row <= set k | k in t && k.round == round
        invariant forall k :: k in t && k.round == round && k !in row ==> IdAt(w, t, k) != id
        decreases row
      {
        var k :| k in row;
        if IdAt(w, t, k) == id {
          return Found(k);
        }
        row := row - {k};
      }
      round := round - 1;
    }
    r := Missing;
  }

  method EnqueueParents(parents: seq<CellId>, queue: seq<CellId>, seen: set<CellId>)
    returns (queue': seq<CellId>, seen': set<CellId>)
    ensures seen' == seen + set x | x in parents
    ensures forall x :: x in queue' <==> x in queue || (x in parents && x !in seen)
    ensures seen' == seen ==> queue' == queue
  {
    queue', seen' := queue, seen;
    for i := 0 to |parents|
      invariant seen' == seen + set x | x in parents[..i]
      invariant forall x :: x in queue' <==> x in queue || (x in parents[..i] && x !in seen)
      invariant seen' == seen ==> queue' == queue
    {
      assert parents[..i + 1] == parents[..i] + [parents[i]];
      if parents[i] !in seen' {
        seen' := seen' + {parents[i]};
        queue' := queue' + [parents[i]];
      }
    }
    assert parents[..|parents|] == parents;
  }

  method LeastKey(s: set<Key>) returns (m: Key)
    requires s != {}
    ensures IsLeast(m, s)
  {
    m :| m in s;
    var rest := s - {m};
    while rest != {}
      invariant m in s && rest <= s
      invariant forall x :: x in s - rest ==> x == m || Less(m, x)
      decreases rest
    {
      var k :| k in rest;
      LessTotal(k, m);
      if Less(k, m) {
        forall x | x in s - rest && x != m ensures Less(k, x) { LessTransitive(k, m, x); }
        m := k;
      }
      rest := rest - {k};
    }
  }

  /** The values of a BTreeMap in key order. */
  method InKeyOrder(w: Crypto, t: Table, visited: set<Key>) returns (out: seq<CellId>)
    requires visited <= t.Keys
    ensures out == Ids(w, t, InOrder(visited))
  {
    out := [];
    var rest := visited;
    ghost var done: seq<Key> := [];
    while rest != {}
      invariant rest <= visited
      invariant Ascending(done)
      invariant forall k :: k in done <==> k in visited - rest
      invariant forall k, r :: k in done && r in rest ==> Less(k, r)
      invariant out == Ids(w, t, done)
      decreases rest
    {
      var m := LeastKey(rest);
      out := out + [IdAt(w, t, m)];
      done := done + [m];
      rest := rest - {m};
    }
    AscendingUnique(done, visited);
  }

  ghost function Mentioned(t: Table): set<CellId> {
    set k, x | k in t && x in t[k].cell.parents :: x
  }

  /** Seen identifiers start the walk or are parents of visited cells. */
  ghost predicate Justified(w: Crypto, t: Table, start: CellId, visited: set<Key>, id: CellId) {
    id == start || exists k :: k in visited && k in t && id in t[k].cell.parents
  }

  ghost predicate Settled(w: Crypto, t: Table, visited: set<Key>, id: CellId) {
    forall k :: k in t && IdAt(w, t, k) == id ==> k in visited
  }

  ghost predicate WalkInv(w: Crypto, t: Table, start: CellId, visited: set<Key>, queue: seq<CellId>, seen: set<CellId>) {
    && start in seen && seen <= {start} + Mentioned(t)
    && visited <= History(w, t, start)
    && (forall id :: id in queue ==> id in seen)
    && (forall id :: id in seen ==> Justified(w, t, start, visited, id))
    && (forall id :: id in seen && id !in queue ==> Settled(w, t, visited, id))
    && (forall k, x :: k in visited && x in t[k].cell.parents ==> x in seen)
  }

  lemma WalkStart(w: Crypto, t: Table, start: CellId)
    ensures WalkInv(w, t, start, {}, [start], {start})
  {
  }

  lemma WalkSkip(w: Crypto, t: Table, start: CellId, visited: set<Key>, queue: seq<CellId>, seen: set<CellId>)
    requires WalkInv(w, t, start, visited, queue, seen) && queue != []
    requires forall k :: k in t ==> IdAt(w, t, k) != queue[0]
    ensures WalkInv(w, t, start, visited, queue[1..], seen)
  {
    assert queue == [queue[0]] + queue[1..];
    forall id | id in seen && id !in queue[1..] ensures Settled(w, t, visited, id) {
      assert id == queue[0] || id !in queue;
    }
  }

  lemma WalkClosed(w: Crypto, t: Table, start: CellId, visited: set<Key>, seen: set<CellId>, k: Key, parent: Key)
    requires WalkInv(w, t, start, visited, [], seen)
    requires k in visited && Edge(w, t, k, parent)
    ensures parent in visited
  {
    var id := IdAt(w, t, parent);
    assert id in seen;
    assert Settled(w, t, visited, id);
  }

  /** When the queue is empty the visited cells are the whole history. */
  lemma WalkDone(w: Crypto, t: Table, start: CellId, visited: set<Key>, seen: set<CellId>)
    requires WalkInv(w, t, start, visited, [], seen)
    ensures visited == History(w, t, start)
  {
    forall k, parent | k in visited && Edge(w, t, k, parent) ensures parent in visited {
      WalkClosed(w, t, start, visited, seen, k, parent);
    }
    assert Settled(w, t, visited, start);
    HistoryWithin(w, t, start, visited);
  }

  lemma HistoryWithin(w: Crypto, t: Table, start: CellId, closed: set<Key>)
    requires forall a :: a in t && IdAt(w, t, a) == start ==> a in closed
    requires forall k, parent :: k in closed && Edge(w, t, k, parent) ==> parent in closed
    ensures History(w, t, start) <= closed
  {
    forall b | b in History(w, t, start) ensures b in closed {
      var a :| a in t && IdAt(w, t, a) == start && Reaches(w, t, a, b);
      var p :| Chain(w, t, p) && p[0] == a && p[|p| - 1] == b;
      ClosedHoldsChain(w, t, p, closed);
    }
  }

  lemma WalkKey(w: Crypto, t: Table, start: CellId, visited: set<Key>, id: CellId, k: Key)
    requires visited <= History(w, t, start)
    requires Justified(w, t, start, visited, id) && k in t && IdAt(w, t, k) == id
    ensures k in History(w, t, start)
  {
    if id == start {
      ReachesSelf(w, t, k);
    } else {
      var c :| c in visited && c in t && id in t[c].cell.parents;
      var a :| a in t && IdAt(w, t, a) == start && Reaches(w, t, a, c);
      ReachesStep(w, t, a, c, k);
    }
  }

  /** Cells stand under their own keys, no two with one id, and no round is above the high-water mark. */
  ghost predicate Searchable(w: Crypto, t: Table, high: u64) {
    Keyed(t) && UniqueIds(w, t) && forall k :: k in t ==> k.round <= high
  }

  method VisitAll(w: Crypto, t: Table, high: u64, start: CellId) returns (panicked: bool, visited: set<Key>)
    requires Searchable(w, t, high)
    ensures panicked <==> high == LAST_ROUND
    ensures !panicked ==> visited == History(w, t, start)
  {
    visited := {};
    var queue, seen := [start], {start};
    WalkStart(w, t, start);
    while queue != []
      invariant WalkInv(w, t, start, visited, queue, seen)
      invariant high == LAST_ROUND ==> queue != []
      decreases {start} + Mentioned(t) - seen, |queue|
    {
      var id := queue[0];
      var rest := queue[1..];
      var found := FindById(w, t, high, id);
      if found.Panic? {
        return true, visited;
      }
      if found.Found? {
        var k := found.key;
        WalkKey(w, t, start, visited, id, k);
        var queue', seen' := EnqueueParents(t[k].cell.parents, rest, seen);
        WalkStep(w, t, start, visited, queue, seen, k, queue', seen');
        visited, queue, seen := visited + {k}, queue', seen';
      } else {
        WalkSkip(w, t, start, visited, queue, seen);
        queue := rest;
      }
    }
    WalkDone(w, t, start, visited, seen);
    panicked := false;
  }

  /** `None` stands for a panic. */
  method WalkCausalHistory(w: Crypto, t: Table, high: u64, start: CellId) returns (out: Option<seq<CellId>>)
    requires Searchable(w, t, high)
    ensures out == if high == LAST_ROUND then None else Some(Lineage(w, t, start))
  {
    var panicked, visited := VisitAll(w, t, high, start);
    if panicked {
      return None;
    }
    var ids := InKeyOrder(w, t, visited);
    out := Some(ids);
  }

  lemma WalkStep(w: Crypto, t: Table, start: CellId, visited: set<Key>, queue: seq<CellId>, seen: set<CellId>,
                 k: Key, queue': seq<CellId>, seen': set<CellId>)
    requires UniqueIds(w, t) && WalkInv(w, t, start, visited, queue, seen)
    requires queue != [] && k in History(w, t, start) && IdAt(w, t, k) == queue[0]
    requires seen' == seen + set x | x in t[k].cell.parents
    requires forall x :: x in queue' <==> x in queue[1..] || (x in t[k].cell.parents && x !in seen)
    ensures WalkInv(w, t, start, visited + {k}, queue', seen')
  {
    var visited' := visited + {k};
    forall id | id in seen' ensures Justified(w, t, start, visited', id) {
      if id in seen {
        assert Justified(w, t, start, visited, id);
      }
    }
    forall id | id in seen' && id !in queue' ensures Settled(w, t, visited', id) {
      assert id in seen;
      if id != queue[0] {
        assert id !in queue by { assert queue == [queue[0]] + queue[1..]; }
        assert Settled(w, t, visited, id);
      }
    }
  }

  // ---------- The commit decision ----------

  datatype Cycle = Cycle(index: u64, groupId: Bytes, pivot: Bytes, pivotCell: CellId, committed: seq<CellId>)

  datatype Decision =
    | Committed(cycle: Cycle)
    | AnchorNotCertified
    | BelowFollowerQuorum(followers: nat, quorum: nat)
    | Panics

  /** u64 arithmetic that stops at the largest value. */
  function Saturate(n: nat): u64 {
    if n < U64 then n else U64 - 1
  }

  ghost function Followers(t: Table, round: u64, id: CellId): set<Key> {
    set k | k in t && k.round == round && id in t[k].cell.parents
  }

  ghost function Decide(w: Crypto, s: State, index: u64, pivot: Bytes, groupId: Bytes): Decision {
    var anchor := Key(Saturate(2 * index), pivot);
    if anchor !in s.certified then AnchorNotCertified
    else
      var id := IdAt(w, s.certified, anchor);
      var followers := |Followers(s.certified, Saturate(anchor.round + 1), id)|;
      var quorum := Quorum.LatticeQuorum(s.groupSize);
      if Saturate(anchor.round + 1) == LAST_ROUND then Panics
      else if followers < quorum then BelowFollowerQuorum(followers, quorum)
      else if s.highWater == LAST_ROUND then Panics
      else Committed(Cycle(index, groupId, pivot, id, Lineage(w, s.certified, id)))
  }

  method CountRow(t: Table, round: u64, id: CellId) returns (count: nat)
    ensures count == |Followers(t, round, id)|
  {
    count := 0;
    var row := set k | k in t && k.round == round;
    ghost var counted: set<Key> := {};
    while row != {}
      invariant row <= set k | k in t && k.round == round
      invariant counted == set k | k in Followers(t, round, id) && k !in row
      invariant count == |counted|
      decreases row
    {
      var k :| k in row;
      row := row - {k};
      if id in t[k].cell.parents {
        count := count + 1;
        counted := counted + {k};
      }
    }
    assert counted == Followers(t, round, id);
  }

  /** `None` stands for a panic. */
  method CountFollowers(t: Table, round: u64, id: CellId) returns (r: Option<nat>)
    ensures r == if round == LAST_ROUND then None else Some(|Followers(t, round, id)|)
  {
    if round == LAST_ROUND {
      return None;
    }
    var count := CountRow(t, round, id);
    r := Some(count);
  }

  method TryCommit(w: Crypto, s: State, index: u64, pivot: Bytes, groupId: Bytes) returns (d: Decision)
    requires Searchable(w, s.certified, s.highWater)
    ensures d == Decide(w, s, index, pivot, groupId)
  {
    var anchor := Key(Saturate(2 * index), pivot);
    if anchor !in s.certified {
      return AnchorNotCertified;
    }
    var id := IdAt(w, s.certified, anchor);
    var followers := CountFollowers(s.certified, Saturate(anchor.round + 1), id);
    if followers.None? {
      return Panics;
    }
    var quorum := Quorum.LatticeQuorum(s.groupSize);
    if followers.value < quorum {
      return BelowFollowerQuorum(followers.value, quorum);
    }
    var committed := WalkCausalHistory(w, s.certified, s.highWater, id);
    if committed.None? {
      return Panics;
    }
    var cycle := Cycle(index, groupId, pivot, id, committed.value);
    assert cycle == Cycle(index, groupId, pivot, id, Lineage(w, s.certified, id));
    d := Committed(cycle);
  }

  // ---------- What each answer means ----------

  /** Different certified cells of the next round, each naming the anchor's cell as a parent. */
  ghost predicate FollowedBy(w: Crypto, t: Table, anchor: Key, followers: set<Key>) {
    && anchor in t
    && forall k :: k in followers ==> k in t && k.round == anchor.round + 1 && w.id(t[anchor].cell) in t[k].cell.parents
  }

  /** At least q of them. */
  ghost predicate Followed(w: Crypto, t: Table, anchor: Key, q: nat) {
    exists followers :: FollowedBy(w, t, anchor, followers) && |followers| >= q
  }

  lemma FollowedIff(w: Crypto, t: Table, anchor: Key, q: nat)
    requires anchor in t && anchor.round + 1 < U64
    ensures Followed(w, t, anchor, q) <==> |Followers(t, anchor.round + 1, IdAt(w, t, anchor))| >= q
  {
    var all := Followers(t, anchor.round + 1, IdAt(w, t, anchor));
    assert FollowedBy(w, t, anchor, all);
    forall f | FollowedBy(w, t, anchor, f) ensures |f| <= |all| {
      Quorum.Smaller(f, all);
    }
  }

  /** The round of the pivot's cell, on 64 bits. */
  ghost predicate AnchorRound(index: u64, round: u64) {
    if 2 * index < U64 then round == 2 * index else round == LAST_ROUND
  }

  ghost predicate AnchorHeld(s: State, index: u64, pivot: Bytes, anchor: Key) {
    anchor in s.certified && anchor.author == pivot && AnchorRound(index, anchor.round)
  }

  /** A cycle commits exactly when its pivot's cell of round 2 * index is certified, a quorum of certified cells of the
      round after name it, and no row is read that panics; then it names that cell and lists its causal history. */
  lemma CommittedIff(w: Crypto, s: State, index: u64, pivot: Bytes, groupId: Bytes)
    ensures Decide(w, s, index, pivot, groupId).Committed? <==>
            && 2 * index + 1 < LAST_ROUND && Key(2 * index, pivot) in s.certified && s.highWater != LAST_ROUND
            && Followed(w, s.certified, Key(2 * index, pivot), Quorum.LatticeQuorum(s.groupSize))
    ensures
      var d := Decide(w, s, index, pivot, groupId);
      d.Committed? ==>
        && d.cycle.index == index && d.cycle.groupId == groupId && d.cycle.pivot == pivot
        && d.cycle.pivotCell == w.id(s.certified[Key(2 * index, pivot)].cell)
        && d.cycle.committed == Lineage(w, s.certified, d.cycle.pivotCell)
  {
    if 2 * index + 1 < LAST_ROUND && Key(2 * index, pivot) in s.certified {
      FollowedIff(w, s.certified, Key(2 * index, pivot), Quorum.LatticeQuorum(s.groupSize));
    }
  }

  /** The anchor is missing exactly when the pivot has no certified cell of that round. */
  lemma AnchorMissingIff(w: Crypto, s: State, index: u64, pivot: Bytes, groupId: Bytes)
    ensures Decide(w, s, index, pivot, groupId) == AnchorNotCertified <==> !exists anchor :: AnchorHeld(s, index, pivot, anchor)
  {
    var anchor := Key(Saturate(2 * index), pivot);
    assert anchor in s.certified <==> AnchorHeld(s, index, pivot, anchor);
    assert forall k :: AnchorHeld(s, index, pivot, k) ==> k == anchor;
  }

  /** Too few followers are reported exactly when there is an anchor but no quorum follows it; the numbers are the size
      of the largest set of followers and the quorum. */
  lemma BelowQuorumIff(w: Crypto, s: State, index: u64, pivot: Bytes, groupId: Bytes)
    ensures Decide(w, s, index, pivot, groupId).BelowFollowerQuorum? <==>
            && 2 * index + 1 < LAST_ROUND && Key(2 * index, pivot) in s.certified
            && !Followed(w, s.certified, Key(2 * index, pivot), Quorum.LatticeQuorum(s.groupSize))
    ensures
      var d := Decide(w, s, index, pivot, groupId);
      d.BelowFollowerQuorum? ==>
        && d.quorum == Quorum.LatticeQuorum(s.groupSize)
        && Followed(w, s.certified, Key(2 * index, pivot), d.followers)
        && !Followed(w, s.certified, Key(2 * index, pivot), d.followers + 1)
  {
    var anchor := Key(Saturate(2 * index), pivot);
    if 2 * index + 1 < LAST_ROUND && anchor in s.certified {
      var n := |Followers(s.certified, anchor.round + 1, IdAt(w, s.certified, anchor))|;
      FollowedIff(w, s.certified, anchor, Quorum.LatticeQuorum(s.groupSize));
      FollowedIff(w, s.certified, anchor, n);
      FollowedIff(w, s.certified, anchor, n + 1);
    }
  }

  /** It panics exactly when there is an anchor, and its followers would be of the largest round, or a quorum follows
      it and a cell of the largest round has been seen. */
  lemma PanicsIff(w: Crypto, s: State, index: u64, pivot: Bytes, groupId: Bytes)
    ensures Decide(w, s, index, pivot, groupId) == Panics <==>
            exists anchor :: AnchorHeld(s, index, pivot, anchor) &&
              (anchor.round + 1 >= LAST_ROUND
               || (s.highWater == LAST_ROUND && Followed(w, s.certified, anchor, Quorum.LatticeQuorum(s.groupSize))))
  {
    var anchor := Key(Saturate(2 * index), pivot);
    assert anchor in s.certified <==> AnchorHeld(s, index, pivot, anchor);
    assert forall k :: AnchorHeld(s, index, pivot, k) ==> k == anchor;
    if anchor in s.certified && anchor.round + 1 < LAST_ROUND {
      FollowedIff(w, s.certified, anchor, Quorum.LatticeQuorum(s.groupSize));
    }
  }

  /** A commit lists exactly the identifiers of the causal history. */
  lemma LineageHolds(w: Crypto, t: Table, start: CellId, id: CellId)
    ensures id in Lineage(w, t, start) <==> exists k :: k in History(w, t, start) && IdAt(w, t, k) == id
  {
    var keys, ids := InOrder(History(w, t, start)), Lineage(w, t, start);
    if id in ids {
      var i :| 0 <= i < |ids| && ids[i] == id;
      assert keys[i] in keys && ids[i] == IdAt(w, t, keys[i]);
    }
    forall k | k in History(w, t, start) && IdAt(w, t, k) == id ensures id in ids {
      assert k in keys;
      var i :| 0 <= i < |keys| && keys[i] == k;
      assert ids[i] == id;
    }
  }

  /** One for each cell, by rising round and, within a round, by author. */
  lemma LineageOrder(w: Crypto, t: Table, start: CellId, i: nat, j: nat) returns (a: Key, b: Key)
    requires i < j < |Lineage(w, t, start)|
    ensures a in History(w, t, start) && b in History(w, t, start) && |Lineage(w, t, start)| == |History(w, t, start)|
    ensures Lineage(w, t, start)[i] == IdAt(w, t, a) && Lineage(w, t, start)[j] == IdAt(w, t, b)
    ensures a.round < b.round || (a.round == b.round && LexLess(a.author, b.author))
  {
    var keys := InOrder(History(w, t, start));
    a, b := keys[i], keys[j];
    assert a in keys && b in keys;
  }

  // ---------- Canonical order is causal order ----------

  lemma HistoryClosed(w: Crypto, t: Table, start: CellId, k: Key, parent: Key)
    requires k in History(w, t, start) && Edge(w, t, k, parent)
    ensures parent in History(w, t, start)
  {
    var a :| a in t && IdAt(w, t, a) == start && Reaches(w, t, a, k);
    ReachesStep(w, t, a, k, parent);
  }

  lemma BeforeIff(keys: seq<Key>, i: nat, j: nat)
    requires Ascending(keys) && i < |keys| && j < |keys|
    ensures i < j <==> Less(keys[i], keys[j])
  {
    LessTotal(keys[i], keys[j]);
    if j < i {
      assert Less(keys[j], keys[i]);
    }
  }

  /** A certified parent of a committed cell is committed before it exactly when it comes before it by round
      and author. Nobody checks that parents do. */
  lemma LineageIsCausalIff(w: Crypto, t: Table, start: CellId, j: nat, parent: Key)
    requires j < |InOrder(History(w, t, start))| && Edge(w, t, InOrder(History(w, t, start))[j], parent)
    ensures (exists i :: 0 <= i < j && InOrder(History(w, t, start))[i] == parent) <==>
            Less(parent, InOrder(History(w, t, start))[j])
  {
    var keys := InOrder(History(w, t, start));
    assert keys[j] in keys;
    HistoryClosed(w, t, start, keys[j], parent);
    assert parent in keys;
    var i :| 0 <= i < |keys| && keys[i] == parent;
    BeforeIff(keys, i, j);
    forall m: nat | m < j ensures Less(keys[m], keys[j]) {
      BeforeIff(keys, m, j);
    }
  }

  // ---------- Two nodes ----------

  ghost predicate TableOk(w: Crypto, cells: set<Cell>, t: Table) {
    Keyed(t) && forall k :: k in t ==> t[k].cell in cells
  }

  lemma TableOfInv(w: Crypto, play: Play, s: State)
    requires Inv(w, play, s) && Faithful(w, play.cells)
    ensures TableOk(w, play.cells, s.certified) && Searchable(w, s.certified, s.highWater)
  {
    forall k | k in s.certified
      ensures KeyOf(s.certified[k].cell) == k && s.certified[k].cell in play.cells && k.round <= s.highWater
    {
      assert CertifiedOk(w, play, s.groupSize, s.highWater, k, s.certified[k]);
    }
  }

  /** Node u holds the very cells that node t commits. */
  ghost predicate HoldsAll(w: Crypto, t: Table, u: Table, start: CellId) {
    forall k :: k in History(w, t, start) ==> k in u && Same(t[k].cell, u[k].cell)
  }

  /** Each node holds the very cells the other one commits. */
  ghost predicate MutuallyHeld(w: Crypto, t: Table, u: Table, start: CellId) {
    HoldsAll(w, t, u, start) && HoldsAll(w, u, t, start)
  }

  lemma CrossKey(w: Crypto, cells: set<Cell>, t: Table, u: Table, j: Key, k: Key)
    requires Faithful(w, cells) && TableOk(w, cells, t) && TableOk(w, cells, u)
    requires j in t && k in u
    ensures IdAt(w, t, j) == IdAt(w, u, k) <==> Same(t[j].cell, u[k].cell)
    ensures IdAt(w, t, j) == IdAt(w, u, k) ==> j == k
  {
  }

  lemma HistoryCarriesOver(w: Crypto, cells: set<Cell>, t: Table, u: Table, start: CellId)
    requires Faithful(w, cells) && TableOk(w, cells, t) && TableOk(w, cells, u) && HoldsAll(w, t, u, start)
    ensures History(w, t, start) <= History(w, u, start)
  {
    var both := History(w, t, start) * History(w, u, start);
    forall a | a in t && IdAt(w, t, a) == start ensures a in both {
      ReachesSelf(w, t, a);
      assert a in History(w, t, start);
      CrossKey(w, cells, t, u, a, a);
      ReachesSelf(w, u, a);
    }
    forall k, parent | k in both && Edge(w, t, k, parent) ensures parent in both {
      HistoryClosed(w, t, start, k, parent);
      CrossKey(w, cells, t, u, parent, parent);
      assert Edge(w, u, k, parent);
      HistoryClosed(w, u, start, k, parent);
    }
    HistoryWithin(w, t, start, both);
  }

  lemma SameIds(w: Crypto, cells: set<Cell>, t: Table, u: Table, keys: seq<Key>)
    requires Faithful(w, cells) && TableOk(w, cells, t) && TableOk(w, cells, u)
    requires forall k :: k in keys ==> k in t && k in u && Same(t[k].cell, u[k].cell)
    ensures Ids(w, t, keys) == Ids(w, u, keys)
  {
    forall k | k in keys ensures IdAt(w, t, k) == IdAt(w, u, k) {
      CrossKey(w, cells, t, u, k, k);
    }
  }

  lemma HeldGivesSameLineage(w: Crypto, cells: set<Cell>, t: Table, u: Table, start: CellId)
    requires Faithful(w, cells) && TableOk(w, cells, t) && TableOk(w, cells, u) && MutuallyHeld(w, t, u, start)
    ensures Lineage(w, t, start) == Lineage(w, u, start)
  {
    HeldSameHistory(w, cells, t, u, start);
    SameIds(w, cells, t, u, InOrder(History(w, t, start)));
  }

  lemma SameLineageGivesHeld(w: Crypto, cells: set<Cell>, t: Table, u: Table, start: CellId)
    requires Faithful(w, cells) && TableOk(w, cells, t) && TableOk(w, cells, u)
    requires Lineage(w, t, start) == Lineage(w, u, start)
    ensures HoldsAll(w, t, u, start)
  {
    var a, b := InOrder(History(w, t, start)), InOrder(History(w, u, start));
    assert |a| == |Lineage(w, t, start)| && |b| == |Lineage(w, u, start)|;
    forall k | k in History(w, t, start) ensures k in u && Same(t[k].cell, u[k].cell) {
      assert k in a;
      var i :| 0 <= i < |a| && a[i] == k;
      assert b[i] in b;
      assert Lineage(w, t, start)[i] == IdAt(w, t, a[i]) && Lineage(w, u, start)[i] == IdAt(w, u, b[i]);
      CrossKey(w, cells, t, u, a[i], b[i]);
    }
  }

  /** Two nodes commit the same list for a pivot cell exactly when each of them has certified the very cells
      that the other one commits; not just some cells of these authors and rounds. */
  lemma SameLineageIff(w: Crypto, cells: set<Cell>, t: Table, u: Table, start: CellId)
    requires Faithful(w, cells) && TableOk(w, cells, t) && TableOk(w, cells, u)
    ensures Lineage(w, t, start) == Lineage(w, u, start) <==> MutuallyHeld(w, t, u, start)
  {
    if MutuallyHeld(w, t, u, start) {
      HeldGivesSameLineage(w, cells, t, u, start);
    }
    if Lineage(w, t, start) == Lineage(w, u, start) {
      SameLineageGivesHeld(w, cells, t, u, start);
      SameLineageGivesHeld(w, cells, u, t, start);
    }
  }

  /** Where both nodes have certified a cell, it is the same cell. */
  ghost predicate Agree(t: Table, u: Table) {
    forall k :: k in t && k in u ==> Same(t[k].cell, u[k].cell)
  }

  /** Where nothing else can be certified, holding a cell of each author and round is enough. */
  lemma AgreeingHold(w: Crypto, t: Table, u: Table, start: CellId)
    requires Agree(t, u)
    ensures MutuallyHeld(w, t, u, start) <==> History(w, t, start) <= u.Keys && History(w, u, start) <= t.Keys
  {
  }

  /** Every parent is certified locally: nothing is missing and nothing was dropped. */
  ghost predicate NothingMissing(w: Crypto, t: Table) {
    forall k, x :: k in t && x in t[k].cell.parents ==> exists parent :: parent in t && IdAt(w, t, parent) == x
  }

  /** A node that misses no parent holds the very cells another one commits for a pivot cell that both hold: parents
      are named by what they contain. */
  lemma CompleteHolds(w: Crypto, cells: set<Cell>, t: Table, u: Table, anchor: Key)
    requires Faithful(w, cells) && TableOk(w, cells, t) && TableOk(w, cells, u)
    requires NothingMissing(w, u) && anchor in t && anchor in u && IdAt(w, t, anchor) == IdAt(w, u, anchor)
    ensures HoldsAll(w, t, u, IdAt(w, t, anchor))
  {
    var start := IdAt(w, t, anchor);
    var both := set k | k in t && k in u && Same(t[k].cell, u[k].cell);
    forall a | a in t && IdAt(w, t, a) == start ensures a in both {
      CrossKey(w, cells, t, t, a, anchor);
      CrossKey(w, cells, t, u, anchor, anchor);
    }
    forall k, parent | k in both && Edge(w, t, k, parent) ensures parent in both {
      var held :| held in u && IdAt(w, u, held) == IdAt(w, t, parent);
      CrossKey(w, cells, t, u, parent, held);
    }
    HistoryWithin(w, t, start, both);
  }

  lemma GcHeldIff(w: Crypto, s: State, start: CellId)
    ensures MutuallyHeld(w, s.certified, GcOldCells(s).certified, start) <==>
            forall k :: k in History(w, s.certified, start) ==> k.round >= Cutoff(s)
  {
  }

  /** Garbage collection changes what a commit lists exactly when some cell of the history is too old. */
  lemma GcKeepsLineageIff(w: Crypto, play: Play, s: State, start: CellId)
    requires Inv(w, play, s) && Faithful(w, play.cells)
    ensures Lineage(w, GcOldCells(s).certified, start) == Lineage(w, s.certified, start) <==>
            forall k :: k in History(w, s.certified, start) ==> k.round >= Cutoff(s)
  {
    GcKeeps(w, play, s);
    TableOfInv(w, play, s);
    TableOfInv(w, play, GcOldCells(s));
    GcHeldIff(w, s, start);
    SameLineageIff(w, play.cells, s.certified, GcOldCells(s).certified, start);
  }

  // ---------- Tables that have dropped old cells ----------

  /** Certified parents come from earlier rounds. */
  ghost predicate ParentsBelow(w: Crypto, t: Table) {
    forall k, parent :: Edge(w, t, k, parent) ==> parent.round < k.round
  }

  /** Parents of cells above the floor are held. A node can check this on its own table. */
  ghost predicate HeldAbove(w: Crypto, t: Table, floor: nat) {
    forall k, x :: k in t && k.round > floor && x in t[k].cell.parents ==> exists parent :: parent in t && IdAt(w, t, parent) == x
  }

  /** A table in which everything above the floor is complete. */
  ghost predicate Windowed(w: Crypto, t: Table, floor: nat) {
    ParentsBelow(w, t) && HeldAbove(w, t, floor)
  }

  /** Parents come from the round before, as the publisher takes them. */
  ghost predicate ParentsJustBelow(w: Crypto, t: Table) {
    forall k, parent :: Edge(w, t, k, parent) ==> parent.round + 1 == k.round
  }

  /** Collection moves the floor up to the retention window and keeps the table complete above it. */
  lemma GcKeepsWindow(w: Crypto, s: State, floor: nat)
    requires ParentsJustBelow(w, s.certified) && HeldAbove(w, s.certified, floor)
    ensures Windowed(w, GcOldCells(s).certified, if floor < Cutoff(s) then Cutoff(s) else floor)
  {
    var t, u := s.certified, GcOldCells(s).certified;
    var above := if floor < Cutoff(s) then Cutoff(s) else floor;
    forall k, parent | Edge(w, u, k, parent) ensures parent.round < k.round {
      assert Edge(w, t, k, parent);
    }
    forall k, x | k in u && k.round > above && x in u[k].cell.parents ensures exists parent :: parent in u && IdAt(w, u, parent) == x {
      assert k in t && k.round > floor && x in t[k].cell.parents;
      var parent :| parent in t && IdAt(w, t, parent) == x;
      assert Edge(w, t, k, parent);
      assert parent in u && IdAt(w, u, parent) == x;
    }
  }

  /** What the chain reaches at or above u's floor, u holds and reaches too. */
  lemma {:induction false} ChainCrosses(w: Crypto, cells: set<Cell>, t: Table, u: Table, floor: nat, p: seq<Key>)
    requires Faithful(w, cells) && TableOk(w, cells, t) && TableOk(w, cells, u)
    requires ParentsBelow(w, t) && HeldAbove(w, u, floor)
    requires Chain(w, t, p) && p[0] in u && Same(t[p[0]].cell, u[p[0]].cell) && p[|p| - 1].round >= floor
    ensures p[|p| - 1] in t && p[|p| - 1] in u && Same(t[p[|p| - 1]].cell, u[p[|p| - 1]].cell)
    ensures Reaches(w, u, p[0], p[|p| - 1])
  {
    if |p| == 1 {
      ReachesSelf(w, u, p[0]);
    } else {
      var q, k, parent := p[..|p| - 1], p[|p| - 2], p[|p| - 1];
      assert Edge(w, t, k, parent);
      ChainCrosses(w, cells, t, u, floor, q);
      EdgeCrosses(w, cells, t, u, floor, k, parent);
      ReachesStep(w, u, p[0], k, parent);
    }
  }

  lemma EdgeCrosses(w: Crypto, cells: set<Cell>, t: Table, u: Table, floor: nat, k: Key, parent: Key)
    requires Faithful(w, cells) && TableOk(w, cells, t) && TableOk(w, cells, u)
    requires Edge(w, t, k, parent) && k in u && Same(t[k].cell, u[k].cell) && k.round > floor && HeldAbove(w, u, floor)
    ensures Edge(w, u, k, parent) && Same(t[parent].cell, u[parent].cell)
  {
    var held :| held in u && IdAt(w, u, held) == IdAt(w, t, parent);
    CrossKey(w, cells, t, u, parent, held);
  }

  /** At or above u's floor u's history has all that t's history has. */
  lemma HistoryCrosses(w: Crypto, cells: set<Cell>, t: Table, u: Table, floor: nat, anchor: Key, b: Key)
    requires Faithful(w, cells) && TableOk(w, cells, t) && TableOk(w, cells, u)
    requires ParentsBelow(w, t) && HeldAbove(w, u, floor)
    requires anchor in t && anchor in u && IdAt(w, t, anchor) == IdAt(w, u, anchor)
    requires b in History(w, t, IdAt(w, t, anchor)) && b.round >= floor
    ensures b in History(w, u, IdAt(w, t, anchor)) && IdAt(w, t, b) == IdAt(w, u, b)
  {
    var a :| a in t && IdAt(w, t, a) == IdAt(w, t, anchor) && Reaches(w, t, a, b);
    CrossKey(w, cells, t, t, a, anchor);
    CrossKey(w, cells, t, u, anchor, anchor);
    var p :| Chain(w, t, p) && p[0] == a && p[|p| - 1] == b;
    ChainCrosses(w, cells, t, u, floor, p);
    CrossKey(w, cells, t, u, b, b);
  }

  ghost function CellsAt(w: Crypto, t: Table, keys: set<Key>): map<Key, CellId>
    requires keys <= t.Keys
  {
    map k | k in keys :: IdAt(w, t, k)
  }

  /** A history with the cells in it. */
  ghost function CellsBehind(w: Crypto, t: Table, start: CellId): map<Key, CellId> {
    CellsAt(w, t, History(w, t, start))
  }

  /** Two histories have the same cells below a round, or from it on. */
  ghost predicate SameBelow(a: map<Key, CellId>, b: map<Key, CellId>, round: nat) {
    forall k: Key :: k.round < round ==> (k in a <==> k in b) && (k in a && k in b ==> a[k] == b[k])
  }

  ghost predicate SameFrom(a: map<Key, CellId>, b: map<Key, CellId>, round: nat) {
    forall k: Key :: k.round >= round ==> (k in a <==> k in b) && (k in a && k in b ==> a[k] == b[k])
  }

  lemma SameThroughout(a: map<Key, CellId>, b: map<Key, CellId>, round: nat)
    requires SameFrom(a, b, round)
    ensures a == b <==> SameBelow(a, b, round)
  {
  }

  lemma CellsGiveHeld(w: Crypto, cells: set<Cell>, t: Table, u: Table, start: CellId)
    requires Faithful(w, cells) && TableOk(w, cells, t) && TableOk(w, cells, u)
    requires CellsBehind(w, t, start) == CellsBehind(w, u, start)
    ensures HoldsAll(w, t, u, start)
  {
    var a, b := CellsBehind(w, t, start), CellsBehind(w, u, start);
    forall k | k in History(w, t, start) ensures k in u && Same(t[k].cell, u[k].cell) {
      assert k in a && a[k] == b[k];
      CrossKey(w, cells, t, u, k, k);
    }
  }

  lemma HeldSameHistory(w: Crypto, cells: set<Cell>, t: Table, u: Table, start: CellId)
    requires Faithful(w, cells) && TableOk(w, cells, t) && TableOk(w, cells, u) && MutuallyHeld(w, t, u, start)
    ensures History(w, t, start) == History(w, u, start)
  {
    HistoryCarriesOver(w, cells, t, u, start);
    HistoryCarriesOver(w, cells, u, t, start);
  }

  lemma SameCells(w: Crypto, t: Table, u: Table, keys: set<Key>)
    requires keys <= t.Keys && keys <= u.Keys && forall k :: k in keys ==> IdAt(w, t, k) == IdAt(w, u, k)
    ensures CellsAt(w, t, keys) == CellsAt(w, u, keys)
  {
  }

  lemma HeldGivesCells(w: Crypto, cells: set<Cell>, t: Table, u: Table, start: CellId)
    requires Faithful(w, cells) && TableOk(w, cells, t) && TableOk(w, cells, u) && MutuallyHeld(w, t, u, start)
    ensures CellsBehind(w, t, start) == CellsBehind(w, u, start)
  {
    var keys := History(w, t, start);
    HeldSameHistory(w, cells, t, u, start);
    forall k | k in keys ensures IdAt(w, t, k) == IdAt(w, u, k) {
      CrossKey(w, cells, t, u, k, k);
    }
    SameCells(w, t, u, keys);
  }

  lemma LineageIsCells(w: Crypto, cells: set<Cell>, t: Table, u: Table, start: CellId)
    requires Faithful(w, cells) && TableOk(w, cells, t) && TableOk(w, cells, u)
    ensures Lineage(w, t, start) == Lineage(w, u, start) <==> CellsBehind(w, t, start) == CellsBehind(w, u, start)
  {
    SameLineageIff(w, cells, t, u, start);
    if MutuallyHeld(w, t, u, start) {
      HeldGivesCells(w, cells, t, u, start);
    }
    if CellsBehind(w, t, start) == CellsBehind(w, u, start) {
      CellsGiveHeld(w, cells, t, u, start);
      CellsGiveHeld(w, cells, u, t, start);
    }
  }

  /** Two windowed tables have the same history of a pivot cell that both hold, from the higher floor on. */
  lemma WindowedFrom(w: Crypto, cells: set<Cell>, t: Table, low: nat, u: Table, high: nat, anchor: Key)
    requires Faithful(w, cells) && TableOk(w, cells, t) && TableOk(w, cells, u)
    requires Windowed(w, t, low) && Windowed(w, u, high) && low <= high
    requires anchor in t && anchor in u && IdAt(w, t, anchor) == IdAt(w, u, anchor)
    ensures SameFrom(CellsBehind(w, t, IdAt(w, t, anchor)), CellsBehind(w, u, IdAt(w, t, anchor)), high)
  {
    var start := IdAt(w, t, anchor);
    var a, b := CellsBehind(w, t, start), CellsBehind(w, u, start);
    forall k: Key | k.round >= high ensures (k in a <==> k in b) && (k in a && k in b ==> a[k] == b[k]) {
      if k in a {
        HistoryCrosses(w, cells, t, u, high, anchor, k);
      }
      if k in b {
        HistoryCrosses(w, cells, u, t, low, anchor, k);
      }
    }
  }

  /** They list the same lineage exactly when their histories coincide below that floor as well. */
  lemma WindowedIff(w: Crypto, cells: set<Cell>, t: Table, low: nat, u: Table, high: nat, anchor: Key)
    requires Faithful(w, cells) && TableOk(w, cells, t) && TableOk(w, cells, u)
    requires Windowed(w, t, low) && Windowed(w, u, high) && low <= high
    requires anchor in t && anchor in u && IdAt(w, t, anchor) == IdAt(w, u, anchor)
    ensures
      var start := IdAt(w, t, anchor);
      Lineage(w, t, start) == Lineage(w, u, start) <==> SameBelow(CellsBehind(w, t, start), CellsBehind(w, u, start), high)
  {
    var start := IdAt(w, t, anchor);
    WindowedFrom(w, cells, t, low, u, high, anchor);
    SameThroughout(CellsBehind(w, t, start), CellsBehind(w, u, start), high);
    LineageIsCells(w, cells, t, u, start);
  }

  /** When the second table holds nothing below its floor: exactly when the first history lies above that
      floor, that is, when no cell of the longer history lies between the two floors. */
  lemma SweptIff(w: Crypto, cells: set<Cell>, t: Table, low: nat, u: Table, high: nat, anchor: Key)
    requires Faithful(w, cells) && TableOk(w, cells, t) && TableOk(w, cells, u)
    requires Windowed(w, t, low) && Windowed(w, u, high) && low <= high
    requires anchor in t && anchor in u && IdAt(w, t, anchor) == IdAt(w, u, anchor)
    requires forall k :: k in u ==> k.round >= high
    ensures
      var start := IdAt(w, t, anchor);
      Lineage(w, t, start) == Lineage(w, u, start) <==> forall k :: k in History(w, t, start) ==> k.round >= high
  {
    WindowedIff(w, cells, t, low, u, high, anchor);
    var start := IdAt(w, t, anchor);
    var a, b := CellsBehind(w, t, start), CellsBehind(w, u, start);
    if SameBelow(a, b, high) {
      forall k | k in a ensures k.round >= high {
        assert k.round < high ==> k in b;
      }
    }
  }
}
