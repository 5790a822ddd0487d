// The group directory (savitri-lightnode/src/p2p_group_manager.rs): groups by identifier, and for each
// peer the identifiers of its groups.
module GroupDirectory {
  import opened Basics

  type Peer = nat
  type GroupId = nat

  datatype Group = Group(members: set<Peer>, leader: Option<Peer>, epoch: nat, createdAt: nat, lastActivity: nat)

  datatype Announcement = Announcement(group: GroupId, members: seq<Peer>, leader: Option<Peer>, epoch: nat)

  type Groups = map<GroupId, Group>
  type Index = map<Peer, set<GroupId>>

  function Listed(index: Index, p: Peer): set<GroupId> {
    if p in index then index[p] else {}
  }

  /** A group is listed for a peer exactly when it exists and has the peer as a member. */
  ghost predicate Mirrors(groups: Groups, index: Index) {
    forall p, g :: g in Listed(index, p) <==> g in groups && p in groups[g].members
  }

  // ---------- What the operations do to the groups ----------

  function MembersOf(a: Announcement): set<Peer> {
    set p | p in a.members
  }

  function Announced(groups: Groups, a: Announcement, now: nat): Groups {
    if a.group !in groups then groups[a.group := Group(MembersOf(a), a.leader, a.epoch, now, now)]
    else
      var g := groups[a.group];
      if a.epoch > g.epoch then groups[a.group := g.(members := MembersOf(a), leader := a.leader, epoch := a.epoch, lastActivity := now)]
      else groups
  }

  function Joined(groups: Groups, id: GroupId, p: Peer, now: nat): Groups {
    if id in groups && p !in groups[id].members
    then groups[id := groups[id].(members := groups[id].members + {p}, lastActivity := now)] else groups
  }

  function Left(groups: Groups, id: GroupId, p: Peer, now: nat): Groups {
    if id !in groups || p !in groups[id].members then groups
    else
      var members := groups[id].members - {p};
      if members == {} then groups - {id} else groups[id := groups[id].(members := members, lastActivity := now)]
  }

  function Swept(groups: Groups, now: nat): Groups {
    map g | g in groups && WrappingSub(now, groups[g].lastActivity) <= 300 :: groups[g]
  }

  ghost predicate IsMember(groups: Groups, g: GroupId, p: Peer) {
    g in groups && p in groups[g].members
  }

  /** Joining adds one membership of a known group. */
  lemma JoinedIs(groups: Groups, id: GroupId, p: Peer, now: nat)
    ensures
      var r := Joined(groups, id, p, now);
      && r.Keys == groups.Keys
      && (forall g, q :: IsMember(r, g, q) <==> IsMember(groups, g, q) || (g == id && q == p && id in groups))
      && (forall g :: g in groups ==> r[g] == groups[g].(members := r[g].members, lastActivity := r[g].lastActivity))
      && (forall g :: g in groups ==> r[g].lastActivity == if g == id && p !in groups[id].members then now else groups[g].lastActivity)
  {
  }

  /** Leaving takes one away, and the group with the last. */
  lemma LeftIs(groups: Groups, id: GroupId, p: Peer, now: nat)
    ensures
      var r := Left(groups, id, p, now);
      && (forall g :: g in r <==> g in groups && !(g == id && groups[id].members == {p}))
      && (forall g, q :: IsMember(r, g, q) <==> IsMember(groups, g, q) && !(g == id && q == p))
      && (forall g :: g in r ==> r[g] == groups[g].(members := r[g].members, lastActivity := r[g].lastActivity))
      && (forall g :: g in r ==> r[g].lastActivity == if g == id && p in groups[id].members then now else groups[g].lastActivity)
  {
  }

  /** Whoever joins and leaves again changes no membership. */
  lemma JoinLeave(groups: Groups, id: GroupId, p: Peer, now: nat, later: nat)
    requires !IsMember(groups, id, p)
    ensures forall g, q :: IsMember(Left(Joined(groups, id, p, now), id, p, later), g, q) <==> IsMember(groups, g, q)
  {
    JoinedIs(groups, id, p, now);
    LeftIs(Joined(groups, id, p, now), id, p, later);
  }

  /** A sweep keeps exactly the groups with activity in the last 300 seconds, as they are. */
  lemma SweptIff(groups: Groups, now: u64, g: GroupId)
    requires g in groups && groups[g].lastActivity < U64
    ensures g in Swept(groups, now) <==> Recent(now, groups[g].lastActivity, 301)
    ensures g in Swept(groups, now) ==> Swept(groups, now)[g] == groups[g]
  {
    ElapsedIff(now, groups[g].lastActivity, 301);
  }

  /** An announcement of a new group or a higher epoch takes effect as it is; any other changes nothing. */
  lemma AnnouncedIs(groups: Groups, a: Announcement, now: nat)
    ensures
      var r := Announced(groups, a, now);
      && r.Keys == groups.Keys + {a.group} && (forall g :: g in groups && g != a.group ==> r[g] == groups[g])
      && (a.group in groups && a.epoch <= groups[a.group].epoch ==> r == groups)
      && (a.group !in groups || a.epoch > groups[a.group].epoch ==>
            && (forall p :: p in r[a.group].members <==> p in a.members)
            && r[a.group].leader == a.leader && r[a.group].epoch == a.epoch && r[a.group].lastActivity == now
            && r[a.group].createdAt == if a.group in groups then groups[a.group].createdAt else now)
  {
  }

  // ---------- Leader choice ----------

  /** The members that a scan can end on: those of the smallest hash, if that is below the initial bound. */
  function Smallest(members: set<Peer>, hash: Peer -> nat): set<Peer> {
    set p | p in members && hash(p) < U64 - 1 && forall q :: q in members ==> hash(p) <= hash(q)
  }

  class GroupManager {
    var groups: Groups
    var index: Index

    ghost predicate Valid()
      reads this
    {
      Mirrors(groups, index)
    }

    constructor ()
      ensures Valid() && groups == map[]
    {
      groups, index := map[], map[];
    }

    method ProcessAnnouncement(a: Announcement, now: nat)
      requires Valid()
      modifies this
      ensures Valid() && groups == Announced(old(groups), a, now)
    {
      if a.group in groups {
        var g := groups[a.group];
        if a.epoch > g.epoch {
          g := g.(members := MembersOf(a), leader := a.leader, epoch := a.epoch, lastActivity := now);
          index := UpdateIndex(index, a.group, g.members);
          groups := groups[a.group := g];
        }
      } else {
        var g := Group(MembersOf(a), a.leader, a.epoch, now, now);
        index := UpdateIndex(index, a.group, g.members);
        groups := groups[a.group := g];
      }
    }

    method Join(id: GroupId, p: Peer, now: nat) returns (joined: bool)
      requires Valid()
      modifies this
      ensures Valid() && groups == Joined(old(groups), id, p, now)
      ensures joined == (id in old(groups) && p !in old(groups)[id].members)
    {
      joined := id in groups && p !in groups[id].members;
      if joined {
        var g := groups[id];
        groups := groups[id := g.(members := g.members + {p}, lastActivity := now)];
        index := index[p := Listed(index, p) + {id}];
        assert forall q :: q != p ==> Listed(index, q) == Listed(old(index), q);
      }
    }

    method Leave(id: GroupId, p: Peer, now: nat) returns (left: bool)
      requires Valid()
      modifies this
      ensures Valid() && groups == Left(old(groups), id, p, now)
      ensures left == (id in old(groups) && p in old(groups)[id].members)
    {
      left := id in groups && p in groups[id].members;
      if left {
        var g := groups[id];
        g := g.(members := g.members - {p}, lastActivity := now);
        groups := groups[id := g];
        index := index[p := Listed(index, p) - {id}];
        if g.members == {} {
          groups := groups - {id};
          assert forall q :: q in old(groups)[id].members ==> q == p || q in g.members;
        }
        assert groups == Left(old(groups), id, p, now);
        assert forall q :: q != p ==> Listed(index, q) == Listed(old(index), q);
      }
    }

    method ElectLeader(id: GroupId, hash: Peer -> nat, now: nat) returns (leader: Option<Peer>)
      requires Valid()
      modifies this
      ensures Valid()
      ensures leader.Some? <==> id in old(groups) && Smallest(old(groups)[id].members, hash) != {}
      ensures leader.Some? ==> leader.value in Smallest(old(groups)[id].members, hash)
      ensures leader.None? ==> groups == old(groups)
      ensures leader.Some? ==>
                groups == old(groups)[id := old(groups)[id].(leader := leader, epoch := old(groups)[id].epoch + 1, lastActivity := now)]
    {
      if id !in groups || groups[id].members == {} {
        return None;
      }
      leader := ScanForLeader(groups[id].members, hash);
      if leader.Some? {
        groups := groups[id := groups[id].(leader := leader, epoch := groups[id].epoch + 1, lastActivity := now)];
      }
    }

    /** Removes the groups without activity for five minutes. */
    method Maintain(now: nat)
      requires Valid()
      modifies this
      ensures Valid() && groups == Swept(old(groups), now)
    {
      var idle := set g | g in groups && WrappingSub(now, groups[g].lastActivity) > 300;
      while idle != {}
        invariant Valid()
        invariant idle <= groups.Keys
        invariant forall g :: g in idle ==> WrappingSub(now, groups[g].lastActivity) > 300
        invariant forall g :: g in groups && g !in idle ==> WrappingSub(now, groups[g].lastActivity) <= 300
        invariant groups.Keys <= old(groups).Keys && forall g :: g in groups ==> groups[g] == old(groups)[g]
        invariant forall g :: g in old(groups) && g !in groups ==> WrappingSub(now, old(groups)[g].lastActivity) > 300
        decreases idle
      {
        var id :| id in idle;
        idle := idle - {id};
        index := RemoveFrom(index, id, groups[id].members);
        groups := groups - {id};
      }
    }
  }

  method ScanForLeader(members: set<Peer>, hash: Peer -> nat) returns (leader: Option<Peer>)
    ensures leader.Some? ==> leader.value in Smallest(members, hash)
    ensures leader.None? ==> Smallest(members, hash) == {}
  {
    leader := None;
    var best := U64 - 1;
    var rest := members;
    while rest != {}
      invariant rest <= members
      invariant leader.None? ==> best == U64 - 1
      invariant leader.Some? ==> leader.value in members - rest && best == hash(leader.value) < U64 - 1
      invariant forall p :: p in members - rest ==> best <= hash(p)
      decreases rest
    {
      var p :| p in rest;
      if hash(p) < best {
        best, leader := hash(p), Some(p);
      }
      rest := rest - {p};
    }
  }

  method UpdateIndex(index: Index, id: GroupId, members: set<Peer>) returns (index': Index)
    ensures forall p :: Listed(index', p) == if p in members then Listed(index, p) + {id} else Listed(index, p) - {id}
  {
    index' := map p | p in index :: index[p] - {id};
    var rest := members;
    while rest != {}
      invariant rest <= members
      invariant forall p :: Listed(index', p) == if p in members && p !in rest then Listed(index, p) + {id} else Listed(index, p) - {id}
      decreases rest
    {
      var p :| p in rest;
      index' := index'[p := Listed(index', p) + {id}];
      rest := rest - {p};
    }
  }

  method RemoveFrom(index: Index, id: GroupId, members: set<Peer>) returns (index': Index)
    ensures forall p :: Listed(index', p) == if p in members then Listed(index, p) - {id} else Listed(index, p)
  {
    index' := index;
    var rest := members;
    while rest != {}
      invariant rest <= members
      invariant forall p :: Listed(index', p) == if p in members && p !in rest then Listed(index, p) - {id} else Listed(index, p)
      decreases rest
    {
      var p :| p in rest;
      index' := index'[p := Listed(index', p) - {id}];
      rest := rest - {p};
    }
  }

  // ---------- Leader choice and iteration order ----------

  /** The scan over the members in a given order. */
  function ScanOver(order: seq<Peer>, hash: Peer -> nat): Option<Peer> {
    if order == [] then None
    else
      var p := order[|order| - 1];
      var before := ScanOver(order[..|order| - 1], hash);
      if hash(p) < (if before.Some? then hash(before.value) else U64 - 1) then Some(p) else before
  }

  function Members(order: seq<Peer>): set<Peer> {
    set p | p in order
  }

  lemma {:induction false} ScanInRange(order: seq<Peer>, hash: Peer -> nat)
    ensures ScanOver(order, hash).Some? ==>
              ScanOver(order, hash).value in order && hash(ScanOver(order, hash).value) < U64 - 1
    ensures forall p :: p in order ==>
              hash(p) >= (if ScanOver(order, hash).Some? then hash(ScanOver(order, hash).value) else U64 - 1)
  {
    if order != [] {
      var n := |order| - 1;
      ScanInRange(order[..n], hash);
      assert order == order[..n] + [order[n]];
    }
  }

  lemma ScanIsSmallest(order: seq<Peer>, hash: Peer -> nat)
    ensures var r := ScanOver(order, hash);
            if r.Some? then r.value in Smallest(Members(order), hash) else Smallest(Members(order), hash) == {}
  {
    ScanInRange(order, hash);
  }

  lemma {:induction false} FirstSmallestWins(order: seq<Peer>, hash: Peer -> nat, all: set<Peer>)
    requires order != [] && Members(order) <= all && order[0] in Smallest(all, hash)
    ensures ScanOver(order, hash) == Some(order[0])
  {
    if |order| > 1 {
      FirstSmallestWins(order[..|order| - 1], hash, all);
      assert order[|order| - 1] in Members(order);
    }
  }

  /** An order in which a set may be iterated. */
  ghost predicate Lists(order: seq<Peer>, s: set<Peer>) {
    Members(order) == s && forall i, j :: 0 <= i < j < |order| ==> order[i] != order[j]
  }

  lemma Listing(s: set<Peer>) returns (order: seq<Peer>)
    ensures Lists(order, s)
  {
    order := [];
    var rest := s;
    while rest != {}
      invariant Lists(order, s - rest) && rest <= s
      decreases rest
    {
      var p :| p in rest;
      assert p !in Members(order);
      assert Members(order + [p]) == Members(order) + {p};
      order := order + [p];
      rest := rest - {p};
    }
  }

  lemma ListingFrom(s: set<Peer>, p: Peer) returns (order: seq<Peer>)
    requires p in s
    ensures Lists(order, s) && order[0] == p
  {
    var others := Listing(s - {p});
    assert p !in Members(others);
    order := [p] + others;
    assert Members(order) == {p} + Members(others);
  }

  ghost predicate OrderFree(members: set<Peer>, hash: Peer -> nat) {
    forall a, b :: Lists(a, members) && Lists(b, members) ==> ScanOver(a, hash) == ScanOver(b, hash)
  }

  /** All nodes elect the same leader whatever order their sets iterate in, exactly when no two members
      share the smallest hash below the bound. */
  lemma OrderFreeIff(members: set<Peer>, hash: Peer -> nat)
    ensures OrderFree(members, hash) <==> forall p, q :: p in Smallest(members, hash) && q in Smallest(members, hash) ==> p == q
  {
    if forall p, q :: p in Smallest(members, hash) && q in Smallest(members, hash) ==> p == q {
      forall a, b | Lists(a, members) && Lists(b, members) ensures ScanOver(a, hash) == ScanOver(b, hash) {
        ScanIsSmallest(a, hash);
        ScanIsSmallest(b, hash);
      }
    } else {
      var p, q :| p in Smallest(members, hash) && q in Smallest(members, hash) && p != q;
      var a := ListingFrom(members, p);
      var b := ListingFrom(members, q);
      FirstSmallestWins(a, hash, members);
      FirstSmallestWins(b, hash, members);
    }
  }

  // ---------- Convergence of announcements ----------

  datatype Delivery = Delivery(announcement: Announcement, at: nat)

  function Deliver(ds: seq<Delivery>): Groups {
    if ds == [] then map[] else Announced(Deliver(ds[..|ds| - 1]), ds[|ds| - 1].announcement, ds[|ds| - 1].at)
  }

  ghost predicate Delivered(ds: seq<Delivery>, a: Announcement) {
    exists i :: 0 <= i < |ds| && ds[i].announcement == a
  }

  /** No delivered announcement for the group has a higher epoch. */
  ghost predicate Latest(ds: seq<Delivery>, a: Announcement) {
    Delivered(ds, a) && forall b :: Delivered(ds, b) && b.group == a.group ==> b.epoch <= a.epoch
  }

  ghost predicate Shows(g: Group, a: Announcement) {
    g.members == MembersOf(a) && g.leader == a.leader && g.epoch == a.epoch
  }

  lemma DeliveredMore(ds: seq<Delivery>, a: Announcement)
    requires ds != []
    ensures Delivered(ds, a) <==> Delivered(ds[..|ds| - 1], a) || ds[|ds| - 1].announcement == a
  {
    var n := |ds| - 1;
    if Delivered(ds[..n], a) {
      var i :| 0 <= i < n && ds[..n][i].announcement == a;
      assert ds[i].announcement == a;
    }
    if Delivered(ds, a) && ds[n].announcement != a {
      var i :| 0 <= i < |ds| && ds[i].announcement == a;
      assert ds[..n][i].announcement == a;
    }
  }

  /** Whatever the order: a known group shows a latest announcement for it. */
  lemma {:induction false} ShowsLatest(ds: seq<Delivery>, id: GroupId) returns (a: Announcement)
    ensures id in Deliver(ds) <==> exists b :: Delivered(ds, b) && b.group == id
    ensures id in Deliver(ds) ==> a.group == id && Latest(ds, a) && Shows(Deliver(ds)[id], a)
  {
    a := Announcement(id, [], None, 0);
    if ds != [] {
      var n := |ds| - 1;
      var next := ds[n].announcement;
      var before := ShowsLatest(ds[..n], id);
      forall b ensures Delivered(ds, b) <==> Delivered(ds[..n], b) || next == b { DeliveredMore(ds, b); }
      var old_groups := Deliver(ds[..n]);
      a := if next.group == id && (id !in old_groups || next.epoch > old_groups[id].epoch) then next else before;
    }
  }

  ghost predicate SameContents(ds: seq<Delivery>, es: seq<Delivery>) {
    forall a :: Delivered(ds, a) <==> Delivered(es, a)
  }

  ghost predicate SameView(g: Groups, h: Groups) {
    g.Keys == h.Keys && forall id :: id in g ==> g[id].members == h[id].members && g[id].leader == h[id].leader && g[id].epoch == h[id].epoch
  }

  /** Announcements of the highest epoch of a group say the same. */
  ghost predicate LatestAgree(ds: seq<Delivery>) {
    forall a, b :: Latest(ds, a) && Latest(ds, b) && a.group == b.group ==>
      MembersOf(a) == MembersOf(b) && a.leader == b.leader
  }

  lemma Converge(ds: seq<Delivery>, es: seq<Delivery>)
    requires SameContents(ds, es) && LatestAgree(ds)
    ensures SameView(Deliver(ds), Deliver(es))
  {
    forall id ensures id in Deliver(ds) <==> id in Deliver(es)
      ensures id in Deliver(ds) && id in Deliver(es) ==>
                && Deliver(ds)[id].members == Deliver(es)[id].members
                && Deliver(ds)[id].leader == Deliver(es)[id].leader
                && Deliver(ds)[id].epoch == Deliver(es)[id].epoch
    {
      var a := ShowsLatest(ds, id);
      var b := ShowsLatest(es, id);
      if id in Deliver(ds) && id in Deliver(es) {
        assert Latest(ds, b);
      }
    }
  }

  lemma {:induction false} FirstLatestStays(ds: seq<Delivery>)
    requires ds != [] && Latest(ds, ds[0].announcement)
    ensures var a := ds[0].announcement; a.group in Deliver(ds) && Shows(Deliver(ds)[a.group], a)
  {
    if |ds| > 1 {
      var n := |ds| - 1;
      forall b | Delivered(ds[..n], b) ensures Delivered(ds, b) { DeliveredMore(ds, b); }
      assert ds[..n][0] == ds[0];
      FirstLatestStays(ds[..n]);
      assert Delivered(ds, ds[n].announcement);
    }
  }

  lemma FirstRepeated(ds: seq<Delivery>, a: Announcement)
    requires Latest(ds, a)
    ensures SameContents([Delivery(a, 0)] + ds, ds)
    ensures var g := Deliver([Delivery(a, 0)] + ds); a.group in g && Shows(g[a.group], a)
  {
    var es := [Delivery(a, 0)] + ds;
    forall b ensures Delivered(es, b) <==> Delivered(ds, b) {
      if Delivered(ds, b) {
        var i :| 0 <= i < |ds| && ds[i].announcement == b;
        assert es[i + 1].announcement == b;
      }
      if Delivered(es, b) {
        var i :| 0 <= i < |es| && es[i].announcement == b;
        assert i > 0 ==> ds[i - 1].announcement == b;
      }
    }
    assert Latest(es, es[0].announcement);
    FirstLatestStays(es);
  }

  ghost predicate Convergent(ds: seq<Delivery>) {
    forall es, fs :: SameContents(ds, es) && SameContents(ds, fs) ==> SameView(Deliver(es), Deliver(fs))
  }

  lemma AgreeingConverge(ds: seq<Delivery>, es: seq<Delivery>, fs: seq<Delivery>)
    requires LatestAgree(ds) && SameContents(ds, es) && SameContents(ds, fs)
    ensures SameView(Deliver(es), Deliver(fs))
  {
    forall a ensures Latest(ds, a) <==> Latest(es, a) {}
    Converge(es, fs);
  }

  lemma ConvergentAgree(ds: seq<Delivery>, a: Announcement, b: Announcement)
    requires Convergent(ds) && Latest(ds, a) && Latest(ds, b) && a.group == b.group
    ensures MembersOf(a) == MembersOf(b) && a.leader == b.leader
  {
    FirstRepeated(ds, a);
    FirstRepeated(ds, b);
    assert SameView(Deliver([Delivery(a, 0)] + ds), Deliver([Delivery(b, 0)] + ds));
  }

  /** Every order of delivery, with any repetitions, gives the same members, leaders and epochs exactly
      when the latest announcements of each group agree; distinct epochs are enough for that. */
  lemma ConvergentIff(ds: seq<Delivery>)
    ensures Convergent(ds) <==> LatestAgree(ds)
  {
    if LatestAgree(ds) {
      forall es, fs | SameContents(ds, es) && SameContents(ds, fs) ensures SameView(Deliver(es), Deliver(fs)) {
        AgreeingConverge(ds, es, fs);
      }
    }
    if Convergent(ds) {
      forall a, b | Latest(ds, a) && Latest(ds, b) && a.group == b.group
        ensures MembersOf(a) == MembersOf(b) && a.leader == b.leader
      {
        ConvergentAgree(ds, a, b);
      }
    }
  }

  /** Two announcements of one epoch that name different leaders: the first to arrive stays. */
  lemma EqualEpochsPart() returns (ds: seq<Delivery>)
    ensures !Convergent(ds)
  {
    var a, b := Announcement(0, [0, 1], Some(0), 1), Announcement(0, [0, 1], Some(1), 1);
    ds := [Delivery(a, 0), Delivery(b, 0)];
    assert ds[0].announcement == a && ds[1].announcement == b;
    assert Latest(ds, a) && Latest(ds, b);
    ConvergentIff(ds);
  }

  // ---------- With local elections and sweeps ----------

  /** What a local election leaves is what an announcement of the next epoch with the same members would: so the
      node is ahead of later announcements of that epoch, and alone in it. */
  lemma ElectionIsAnnouncement(groups: Groups, id: GroupId, leader: Option<Peer>, now: nat) returns (a: Announcement)
    requires id in groups
    ensures a.group == id && a.epoch == groups[id].epoch + 1 && a.leader == leader
    ensures groups[id := groups[id].(leader := leader, epoch := groups[id].epoch + 1, lastActivity := now)] == Announced(groups, a, now)
  {
    var order := Listing(groups[id].members);
    a := Announcement(id, order, leader, groups[id].epoch + 1);
    assert MembersOf(a) == groups[id].members;
  }

  /** A node hears an announcement, or makes one by an election, or sweeps. */
  datatype Op = Hear(delivery: Delivery) | Sweep(at: nat)

  function Operate(ops: seq<Op>): Groups {
    if ops == [] then map[]
    else
      var before, op := Operate(ops[..|ops| - 1]), ops[|ops| - 1];
      match op
      case Hear(d) => Announced(before, d.announcement, d.at)
      case Sweep(now) => Swept(before, now)
  }

  /** What has been heard since the group was last dropped. */
  function Since(ops: seq<Op>, id: GroupId): seq<Delivery> {
    if ops == [] then []
    else
      var before, op := ops[..|ops| - 1], ops[|ops| - 1];
      match op
      case Hear(d) => Since(before, id) + [d]
      case Sweep(now) => if id in Operate(before) && id !in Swept(Operate(before), now) then [] else Since(before, id)
  }

  /** Sweeps make a node forget: a group is as if only what came since had been heard. */
  lemma {:induction false} SinceIs(ops: seq<Op>, id: GroupId)
    ensures id in Operate(ops) <==> id in Deliver(Since(ops, id))
    ensures id in Operate(ops) ==> Operate(ops)[id] == Deliver(Since(ops, id))[id]
  {
    if ops != [] {
      var before, op := ops[..|ops| - 1], ops[|ops| - 1];
      SinceIs(before, id);
      if op.Hear? {
        var heard := Since(before, id);
        assert (heard + [op.delivery])[..|heard|] == heard;
      }
    }
  }

  /** Delivery i is the first one of the group's highest epoch. */
  ghost predicate IsFirst(ds: seq<Delivery>, id: GroupId, i: nat) {
    && i < |ds| && ds[i].announcement.group == id
    && (forall j :: 0 <= j < |ds| && ds[j].announcement.group == id ==> ds[j].announcement.epoch <= ds[i].announcement.epoch)
    && (forall j :: 0 <= j < i && ds[j].announcement.group == id ==> ds[j].announcement.epoch < ds[i].announcement.epoch)
  }

  lemma FirstUnique(ds: seq<Delivery>, id: GroupId, i: nat, j: nat)
    requires IsFirst(ds, id, i) && IsFirst(ds, id, j)
    ensures i == j
  {
  }

  lemma FirstMore(ds: seq<Delivery>, d: Delivery, id: GroupId, i: nat)
    requires IsFirst(ds, id, i)
    ensures d.announcement.group != id || d.announcement.epoch <= ds[i].announcement.epoch ==> IsFirst(ds + [d], id, i)
    ensures d.announcement.group == id && d.announcement.epoch > ds[i].announcement.epoch ==> IsFirst(ds + [d], id, |ds|)
  {
  }

  /** What is not announced is not known; what is known shows the first delivery of the highest epoch. */
  lemma {:induction false} ShowsFirst(ds: seq<Delivery>, id: GroupId) returns (i: nat)
    ensures id in Deliver(ds) ==> IsFirst(ds, id, i) && Shows(Deliver(ds)[id], ds[i].announcement)
    ensures id !in Deliver(ds) ==> forall j :: 0 <= j < |ds| ==> ds[j].announcement.group != id
  {
    i := 0;
    if ds != [] {
      var before, d := ds[..|ds| - 1], ds[|ds| - 1];
      assert ds == before + [d];
      i := ShowsFirst(before, id);
      if id in Deliver(before) {
        FirstMore(before, d, id, i);
        i := if d.announcement.group == id && d.announcement.epoch > before[i].announcement.epoch then |before| else i;
      } else {
        i := |before|;
      }
    }
  }

  ghost predicate SaysSame(a: Announcement, b: Announcement) {
    MembersOf(a) == MembersOf(b) && a.leader == b.leader && a.epoch == b.epoch
  }

  ghost predicate Heard(ds: seq<Delivery>, id: GroupId) {
    exists i: nat :: IsFirst(ds, id, i)
  }

  /** Both nodes have heard of the group or neither has, and what each heard first of its highest epoch says the same. */
  ghost predicate FirstAlike(ds: seq<Delivery>, es: seq<Delivery>, id: GroupId) {
    && (Heard(ds, id) <==> Heard(es, id))
    && forall i: nat, j: nat :: IsFirst(ds, id, i) && IsFirst(es, id, j) ==> SaysSame(ds[i].announcement, es[j].announcement)
  }

  ghost predicate SameAt(g: Groups, h: Groups, id: GroupId) {
    && (id in g <==> id in h)
    && (id in g && id in h ==> g[id].members == h[id].members && g[id].leader == h[id].leader && g[id].epoch == h[id].epoch)
  }

  lemma KnownIfHeard(ds: seq<Delivery>, id: GroupId) returns (i: nat)
    ensures id in Deliver(ds) <==> Heard(ds, id)
    ensures id in Deliver(ds) ==> IsFirst(ds, id, i) && Shows(Deliver(ds)[id], ds[i].announcement)
  {
    i := ShowsFirst(ds, id);
  }

  lemma FirstAlikeIs(ds: seq<Delivery>, es: seq<Delivery>, id: GroupId, x: nat, y: nat)
    requires IsFirst(ds, id, x) && IsFirst(es, id, y)
    ensures FirstAlike(ds, es, id) <==> SaysSame(ds[x].announcement, es[y].announcement)
  {
    forall i: nat, j: nat | IsFirst(ds, id, i) && IsFirst(es, id, j) ensures i == x && j == y {
      FirstUnique(ds, id, i, x);
      FirstUnique(es, id, j, y);
    }
  }

  lemma DeliveredAlikeIff(ds: seq<Delivery>, es: seq<Delivery>, id: GroupId)
    ensures SameAt(Deliver(ds), Deliver(es), id) <==> FirstAlike(ds, es, id)
  {
    var x := KnownIfHeard(ds, id);
    var y := KnownIfHeard(es, id);
    if id in Deliver(ds) && id in Deliver(es) {
      FirstAlikeIs(ds, es, id, x, y);
    }
  }

  /** Two nodes with any runs of announcements, elections and sweeps see a group alike exactly when this is so of
      what each has heard since it last dropped the group. */
  lemma SeeAlikeIff(ops: seq<Op>, others: seq<Op>, id: GroupId)
    ensures SameAt(Operate(ops), Operate(others), id) <==> FirstAlike(Since(ops, id), Since(others, id), id)
  {
    SinceIs(ops, id);
    SinceIs(others, id);
    DeliveredAlikeIff(Since(ops, id), Since(others, id), id);
  }

  lemma OperateMore(ops: seq<Op>, op: Op)
    ensures op.Hear? ==> Operate(ops + [op]) == Announced(Operate(ops), op.delivery.announcement, op.delivery.at)
    ensures op.Sweep? ==> Operate(ops + [op]) == Swept(Operate(ops), op.at)
  {
    assert (ops + [op])[..|ops|] == ops;
  }

  /** After one announcement. */
  lemma HeardOnce(a: Announcement, now: nat) returns (ops: seq<Op>)
    ensures ops == [Hear(Delivery(a, now))] && Operate(ops) == map[a.group := Group(MembersOf(a), a.leader, a.epoch, now, now)]
  {
    ops := [] + [Hear(Delivery(a, now))];
    OperateMore([], Hear(Delivery(a, now)));
  }

  /** Two nodes hear the same two announcements of one epoch, as two nodes that elect at once make them, in different
      order: they do not see the group alike. */
  lemma ElectionsPart() returns (ops: seq<Op>, others: seq<Op>, a: Announcement, b: Announcement)
    ensures a.epoch == b.epoch && a.group == b.group && !SameAt(Operate(ops), Operate(others), a.group)
    ensures ops == [Hear(Delivery(a, 0)), Hear(Delivery(b, 0))] && others == [Hear(Delivery(b, 0)), Hear(Delivery(a, 0))]
  {
    a, b := Announcement(0, [0, 1], Some(0), 1), Announcement(0, [0, 1], Some(1), 1);
    var x := HeardOnce(a, 0);
    var y := HeardOnce(b, 0);
    ops, others := x + [Hear(Delivery(b, 0))], y + [Hear(Delivery(a, 0))];
    OperateMore(x, Hear(Delivery(b, 0)));
    OperateMore(y, Hear(Delivery(a, 0)));
  }

  /** After a sweep an older announcement brings back the group of an older epoch. */
  lemma SweepRevives() returns (ops: seq<Op>, others: seq<Op>, a: Announcement, b: Announcement)
    ensures a.epoch < b.epoch && !SameAt(Operate(ops), Operate(others), a.group)
    ensures ops == [Hear(Delivery(b, 0)), Sweep(301), Hear(Delivery(a, 301))]
    ensures others == [Hear(Delivery(b, 0)), Hear(Delivery(a, 301))]
  {
    a, b := Announcement(0, [0], Some(0), 1), Announcement(0, [0], Some(0), 2);
    var one := HeardOnce(b, 0);
    var two, last := one + [Sweep(301)], Hear(Delivery(a, 301));
    ops, others := two + [last], one + [last];
    OperateMore(one, Sweep(301));
    OperateMore(two, last);
    OperateMore(one, last);
    assert Operate(two) == map[];
  }

  /** Equal memberships give equal indices, as far as anyone can look them up. */
  lemma IndexConverges(g: Groups, i: Index, h: Groups, j: Index, p: Peer)
    requires Mirrors(g, i) && Mirrors(h, j) && SameView(g, h)
    ensures Listed(i, p) == Listed(j, p)
  {
    forall x ensures x in Listed(i, p) <==> x in Listed(j, p) {
      assert x in Listed(i, p) <==> x in g && p in g[x].members;
    }
  }
}
