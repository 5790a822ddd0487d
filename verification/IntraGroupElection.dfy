// Leader election inside a group (savitri-lightnode/src/p2p_intra_group.rs): candidates announce
// themselves, votes are collected per voter, and the leading candidate wins with two thirds of the
// number of known candidates.
module IntraGroupElection {
  import opened Basics
  import Quorum

  type Peer = nat

  datatype Election = Election(epoch: nat, candidates: set<Peer>, votes: map<Peer, Peer>,
                               startedAt: u64, completed: bool, winner: Option<Peer>)

  // ---------- Counting votes ----------

  function Supporters(votes: map<Peer, Peer>, c: Peer): set<Peer> {
    set v | v in votes && votes[v] == c
  }

  /** A candidate with the most votes. */
  ghost predicate Leads(votes: map<Peer, Peer>, w: Peer) {
    && Supporters(votes, w) != {}
    && forall c :: |Supporters(votes, c)| <= |Supporters(votes, w)|
  }

  /** Whether the leader has enough votes, which is the same question for every leader. */
  ghost predicate Decisive(e: Election, w: Peer) {
    Leads(e.votes, w) && |Supporters(e.votes, w)| >= Quorum.QuorumForVoters(|e.candidates|)
  }

  ghost predicate Counts(counts: map<Peer, nat>, votes: map<Peer, Peer>) {
    && (forall c :: c in counts <==> Supporters(votes, c) != {})
    && (forall c :: c in counts ==> counts[c] == |Supporters(votes, c)|)
  }

  lemma SupportersMore(votes: map<Peer, Peer>, v: Peer, c: Peer, d: Peer)
    requires v !in votes
    ensures Supporters(votes[v := c], d) == if d == c then Supporters(votes, d) + {v} else Supporters(votes, d)
  {
  }

  lemma CountsMore(counts: map<Peer, nat>, votes: map<Peer, Peer>, v: Peer, c: Peer)
    requires Counts(counts, votes) && v !in votes
    ensures Counts(counts[c := (if c in counts then counts[c] else 0) + 1], votes[v := c])
  {
    forall d {
      SupportersMore(votes, v, c, d);
    }
  }

  method Tally(votes: map<Peer, Peer>) returns (counts: map<Peer, nat>)
    ensures forall c :: c in counts <==> Supporters(votes, c) != {}
    ensures forall c :: c in counts ==> counts[c] == |Supporters(votes, c)|
  {
    counts := map[];
    var rest := votes.Keys;
    ghost var done: map<Peer, Peer> := map[];
    while rest != {}
      invariant rest <= votes.Keys
      invariant done == map v | v in votes && v !in rest :: votes[v]
      invariant Counts(counts, done)
      decreases rest
    {
      var v :| v in rest;
      var c := votes[v];
      CountsMore(counts, done, v, c);
      counts := counts[c := (if c in counts then counts[c] else 0) + 1];
      rest, done := rest - {v}, done[v := c];
    }
    assert done == votes;
  }

  /** Map iteration order is free, so any candidate with the highest count may come out. */
  method MaxByCount(counts: map<Peer, nat>) returns (w: Peer)
    requires counts != map[]
    ensures w in counts && forall c :: c in counts ==> counts[c] <= counts[w]
  {
    w :| w in counts;
    var rest := counts.Keys;
    while rest != {}
      invariant w in counts && rest <= counts.Keys
      invariant forall c :: c in counts && c !in rest ==> counts[c] <= counts[w]
      decreases rest
    {
      var c :| c in rest;
      if counts[c] >= counts[w] {
        w := c;
      }
      rest := rest - {c};
    }
  }

  // ---------- Steps of one election ----------

  ghost predicate Completes(e: Election, e': Election) {
    || (!(exists w :: Decisive(e, w)) && e' == e)
    || (exists w :: Decisive(e, w) && e' == e.(completed := true, winner := Some(w)))
  }

  /** A vote: ignored after completion, otherwise recorded and counted. */
  ghost predicate VoteStep(e: Election, voter: Peer, candidate: Peer, e': Election) {
    if e.completed then e' == e else Completes(e.(votes := e.votes[voter := candidate]), e')
  }

  method CheckCompletion(e: Election) returns (e': Election)
    requires !e.completed
    ensures Completes(e, e')
  {
    var counts := Tally(e.votes);
    if counts == map[] {
      return e;
    }
    var w := MaxByCount(counts);
    forall c ensures |Supporters(e.votes, c)| <= |Supporters(e.votes, w)| {
      if c in counts {
        assert counts[c] <= counts[w];
      } else {
        assert Supporters(e.votes, c) == {};
      }
    }
    assert Leads(e.votes, w);
    if counts[w] >= (|e.candidates| * 2 + 2) / 3 {
      e' := e.(completed := true, winner := Some(w));
      assert Decisive(e, w);
    } else {
      e' := e;
      assert forall c :: Decisive(e, c) ==> |Supporters(e.votes, c)| <= counts[w];
    }
  }

  /** Candidates may be added at any time, even after completion. */
  function AnnounceStep(e: Election, candidate: Option<Peer>): Election {
    if candidate.Some? then e.(candidates := e.candidates + {candidate.value}) else e
  }

  function NewElection(epoch: nat, now: u64): Election {
    Election(epoch, {}, map[], now, false, None)
  }

  // ---------- Runs of one election entry ----------

  datatype Event = Announce(announced: Option<Peer>) | Vote(voter: Peer, candidate: Peer)

  ghost predicate Step(e: Election, ev: Event, e': Election) {
    match ev
    case Announce(c) => e' == AnnounceStep(e, c)
    case Vote(v, c) => VoteStep(e, v, c, e')
  }

  /** states[i] is the election before event i. */
  ghost predicate IsRun(states: seq<Election>, events: seq<Event>) {
    && |states| == |events| + 1
    && states[0].votes == map[] && !states[0].completed && states[0].winner == None
    && forall i :: 0 <= i < |events| ==> Step(states[i], events[i], states[i + 1])
  }

  lemma RunLonger(states: seq<Election>, events: seq<Event>, ev: Event, e': Election)
    requires IsRun(states, events) && Step(states[|events|], ev, e')
    ensures IsRun(states + [e'], events + [ev])
  {
    var states', events' := states + [e'], events + [ev];
    forall i | 0 <= i < |events'| ensures Step(states'[i], events'[i], states'[i + 1]) {
      if i < |events| {
        assert Step(states[i], events[i], states[i + 1]);
      }
    }
  }

  ghost predicate VotedIn(events: seq<Event>, v: Peer, c: Peer) {
    Vote(v, c) in events
  }

  /** Recorded votes were cast; a winner has a quorum of cast votes, counted against the candidates
      known when it was declared. */
  ghost predicate Inv(events: seq<Event>, n: nat, e: Election) {
    && (forall v :: v in e.votes ==> VotedIn(events, v, e.votes[v]))
    && (e.completed <==> e.winner.Some?)
    && (e.completed ==> |Supporters(e.votes, e.winner.value)| >= Quorum.QuorumForVoters(n)
                        && Supporters(e.votes, e.winner.value) != {})
  }

  /** At least n candidates are known whenever a vote is counted. */
  ghost predicate Informed(states: seq<Election>, events: seq<Event>, n: nat) {
    forall i :: 0 <= i < |events| && i < |states| && events[i].Vote? ==> |states[i].candidates| >= n
  }

  lemma QuorumMonotone(m: nat, n: nat)
    requires m <= n
    ensures Quorum.QuorumForVoters(m) <= Quorum.QuorumForVoters(n)
  {
  }

  lemma StepKeeps(events: seq<Event>, n: nat, e: Election, ev: Event, e': Election)
    requires Inv(events, n, e) && Step(e, ev, e')
    requires ev.Vote? ==> |e.candidates| >= n
    ensures Inv(events + [ev], n, e')
    ensures e.completed ==> e'.completed && e'.winner == e.winner && e'.votes == e.votes
  {
    if ev.Vote? && !e.completed {
      var f := e.(votes := e.votes[ev.voter := ev.candidate]);
      forall v | v in f.votes ensures VotedIn(events + [ev], v, f.votes[v]) {
        assert v != ev.voter ==> VotedIn(events, v, e.votes[v]);
      }
      QuorumMonotone(n, |e.candidates|);
    }
  }

  lemma {:induction false} RunKeeps(states: seq<Election>, events: seq<Event>, n: nat)
    requires IsRun(states, events) && Informed(states, events, n)
    ensures Inv(events, n, states[|events|])
  {
    if events != [] {
      var m := |events| - 1;
      assert IsRun(states[..m + 1], events[..m]);
      RunKeeps(states[..m + 1], events[..m], n);
      StepKeeps(events[..m], n, states[m], events[m], states[m + 1]);
      assert events == events[..m] + [events[m]];
    }
  }

  /** A winner, once declared, stays for the rest of the run. */
  lemma {:induction false} WinnerStays(states: seq<Election>, events: seq<Event>, i: nat, j: nat)
    requires IsRun(states, events) && i <= j <= |events| && states[i].completed
    ensures states[j].completed && states[j].winner == states[i].winner
  {
    if i < j {
      WinnerStays(states, events, i, j - 1);
      assert Step(states[j - 1], events[j - 1], states[j]);
    }
  }

  /** What v voted for last. */
  ghost predicate LastVote(events: seq<Event>, v: Peer, c: Peer) {
    exists i :: 0 <= i < |events| && events[i] == Vote(v, c) && forall j :: i < j < |events| ==> !(events[j].Vote? && events[j].voter == v)
  }

  lemma LastVoteMore(events: seq<Event>, ev: Event, v: Peer, c: Peer)
    ensures LastVote(events + [ev], v, c) <==> if ev.Vote? && ev.voter == v then ev.candidate == c else LastVote(events, v, c)
  {
    var more, n := events + [ev], |events|;
    assert forall i :: 0 <= i < n ==> more[i] == events[i];
    if ev.Vote? && ev.voter == v && ev.candidate == c {
      assert more[n] == Vote(v, c);
    }
    if !(ev.Vote? && ev.voter == v) && LastVote(events, v, c) {
      var i :| 0 <= i < n && events[i] == Vote(v, c) && forall j :: i < j < n ==> !(events[j].Vote? && events[j].voter == v);
      assert more[i] == Vote(v, c);
    }
    if LastVote(more, v, c) {
      var i :| 0 <= i < |more| && more[i] == Vote(v, c) && forall j :: i < j < |more| ==> !(more[j].Vote? && more[j].voter == v);
      assert i < n ==> events[i] == Vote(v, c);
      assert more[n] == ev;
    }
  }

  /** Until an election is decided it holds exactly the last vote of every voter. */
  lemma {:induction false} RecordedVotes(states: seq<Election>, events: seq<Event>, v: Peer, c: Peer)
    requires IsRun(states, events) && !states[|events|].completed
    ensures v in states[|events|].votes && states[|events|].votes[v] == c <==> LastVote(events, v, c)
  {
    if events != [] {
      var m := |events| - 1;
      assert IsRun(states[..m + 1], events[..m]);
      assert events == events[..m] + [events[m]];
      assert Step(states[m], events[m], states[m + 1]);
      RecordedVotes(states[..m + 1], events[..m], v, c);
      LastVoteMore(events[..m], events[m], v, c);
    }
  }

  /** Known candidates are those announced, whenever that was. */
  lemma {:induction false} KnownCandidates(states: seq<Election>, events: seq<Event>, c: Peer)
    requires IsRun(states, events)
    ensures c in states[|events|].candidates <==> c in states[0].candidates || Announce(Some(c)) in events
  {
    if events != [] {
      var m := |events| - 1;
      assert IsRun(states[..m + 1], events[..m]);
      assert events == events[..m] + [events[m]];
      assert Step(states[m], events[m], states[m + 1]);
      KnownCandidates(states[..m + 1], events[..m], c);
    }
  }

  lemma {:induction false} LeaderAmong(votes: map<Peer, Peer>, cs: set<Peer>) returns (w: Peer)
    requires cs != {}
    ensures w in cs && forall c :: c in cs ==> |Supporters(votes, c)| <= |Supporters(votes, w)|
  {
    w :| w in cs;
    if cs != {w} {
      var other := LeaderAmong(votes, cs - {w});
      if |Supporters(votes, other)| > |Supporters(votes, w)| {
        w := other;
      }
    }
  }

  lemma LeaderExists(votes: map<Peer, Peer>, x: Peer) returns (w: Peer)
    requires Supporters(votes, x) != {}
    ensures Leads(votes, w) && |Supporters(votes, w)| >= |Supporters(votes, x)|
  {
    var cs := set v | v in votes :: votes[v];
    var v :| v in Supporters(votes, x);
    assert x in cs;
    w := LeaderAmong(votes, cs);
    forall c ensures |Supporters(votes, c)| <= |Supporters(votes, w)| {
      if c !in cs {
        assert Supporters(votes, c) == {};
      }
    }
    assert |Supporters(votes, x)| > 0;
  }

  /** A vote decides the election exactly when it brings some candidate to two thirds of the known candidates. */
  lemma DecidedIff(e: Election, voter: Peer, candidate: Peer, e': Election)
    requires !e.completed && e.winner == None && VoteStep(e, voter, candidate, e')
    ensures
      var votes := e.votes[voter := candidate];
      && e'.votes == votes && e'.candidates == e.candidates
      && (e'.completed <==> exists w :: Supporters(votes, w) != {} && 3 * |Supporters(votes, w)| >= 2 * |e.candidates|)
      && (e'.completed ==> e'.winner.Some? && Leads(votes, e'.winner.value)
                           && 3 * |Supporters(votes, e'.winner.value)| >= 2 * |e.candidates|)
  {
    var f := e.(votes := e.votes[voter := candidate]);
    forall x | Supporters(f.votes, x) != {} && 3 * |Supporters(f.votes, x)| >= 2 * |e.candidates| ensures e'.completed {
      var w := LeaderExists(f.votes, x);
      assert Decisive(f, w);
    }
    if e'.completed {
      var w := e'.winner.value;
      assert Decisive(f, w);
    }
  }

  // ---------- The object ----------

  method TakeVote(e: Election, voter: Peer, candidate: Peer) returns (e': Election)
    ensures VoteStep(e, voter, candidate, e')
  {
    e' := e;
    if !e.completed {
      e' := CheckCompletion(e.(votes := e.votes[voter := candidate]));
    }
  }

  /** An entry with the states and events of its life so far. */
  datatype Life = Life(states: seq<Election>, events: seq<Event>)

  ghost predicate LifeOf(l: Life, e: Election) {
    IsRun(l.states, l.events) && l.states[|l.events|] == e
  }

  lemma Born(epoch: nat, now: u64)
    ensures LifeOf(Life([NewElection(epoch, now)], []), NewElection(epoch, now))
  {
  }

  lemma Lives(l: Life, e: Election, ev: Event, e': Election)
    requires LifeOf(l, e) && Step(e, ev, e')
    ensures LifeOf(Life(l.states + [e'], l.events + [ev]), e')
  {
    RunLonger(l.states, l.events, ev, e');
  }

  class IntraGroup {
    var elections: map<nat, Election>
    ghost var lives: map<nat, Life>

    /** Every entry is where its announcements and votes since its creation have brought it. */
    ghost predicate Valid()
      reads this
    {
      lives.Keys == elections.Keys && forall g :: g in elections ==> LifeOf(lives[g], elections[g])
    }

    constructor ()
      ensures Valid() && elections == map[]
    {
      elections, lives := map[], map[];
    }

    method HandleElection(group: nat, epoch: nat, candidate: Option<Peer>, now: u64)
      requires Valid()
      modifies this
      ensures Valid()
      ensures
        var e := if group in old(elections) then old(elections)[group] else NewElection(epoch, now);
        elections == old(elections)[group := AnnounceStep(e, candidate)]
      ensures group !in old(elections) ==>
                var known := if candidate.Some? then {candidate.value} else {};
                elections[group] == Election(epoch, known, map[], now, false, None)
    {
      Born(epoch, now);
      var e := if group in elections then elections[group] else NewElection(epoch, now);
      ghost var l := if group in elections then lives[group] else Life([e], []);
      var e' := e;
      if candidate.Some? {
        e' := e.(candidates := e.candidates + {candidate.value});
      }
      Lives(l, e, Announce(candidate), e');
      lives := lives[group := Life(l.states + [e'], l.events + [Announce(candidate)])];
      elections := elections[group := e'];
    }

    /** A voter or candidate that does not parse is `None`. */
    method HandleVote(group: nat, voter: Option<Peer>, candidate: Option<Peer>)
      requires Valid()
      modifies this
      ensures Valid()
      ensures voter.None? || candidate.None? || group !in old(elections) ==> elections == old(elections)
      ensures voter.Some? && candidate.Some? && group in old(elections) ==>
                && elections.Keys == old(elections).Keys
                && VoteStep(old(elections)[group], voter.value, candidate.value, elections[group])
                && forall g :: g in elections && g != group ==> elections[g] == old(elections)[g]
    {
      if voter.Some? && candidate.Some? && group in elections {
        var e := elections[group];
        var e' := TakeVote(e, voter.value, candidate.value);
        elections := elections[group := e'];
        ghost var l := lives[group];
        Lives(l, e, Vote(voter.value, candidate.value), e');
        lives := lives[group := Life(l.states + [e'], l.events + [Vote(voter.value, candidate.value)])];
      }
    }

    /** The monitoring task keeps exactly the entries that have no winner and began less than a minute ago, not
        those that seem to begin later than now. With a winner it forgets the election, so the group may elect anew. */
    method DropStale(now: u64)
      requires Valid()
      modifies this
      ensures Valid()
      ensures forall g :: g in elections <==>
                g in old(elections) && old(elections)[g].winner.None? && Recent(now, old(elections)[g].startedAt, 60)
      ensures forall g :: g in elections ==> elections[g] == old(elections)[g]
    {
      forall g | g in elections
        ensures elections[g].completed <==> elections[g].winner.Some?
        ensures WrappingSub(now, elections[g].startedAt) < 60 <==> Recent(now, elections[g].startedAt, 60)
      {
        Undecided(lives[g], elections[g]);
        ElapsedIff(now, elections[g].startedAt, 60);
      }
      elections := map g | g in elections && !elections[g].completed && WrappingSub(now, elections[g].startedAt) < 60 :: elections[g];
      lives := map g | g in elections :: lives[g];
    }
  }

  lemma Undecided(l: Life, e: Election)
    requires LifeOf(l, e)
    ensures e.completed <==> e.winner.Some?
  {
    RunKeeps(l.states, l.events, 0);
  }

  // ---------- Agreement ----------

  /** Voters are members; a member that is not faulty votes for one candidate, whichever node hears it. */
  ghost predicate HonestVoting(members: set<Peer>, faulty: set<Peer>, all: seq<Event>) {
    && faulty <= members
    && (forall v, c :: VotedIn(all, v, c) ==> v in members)
    && (forall v, c, d :: VotedIn(all, v, c) && VotedIn(all, v, d) && v !in faulty ==> c == d)
  }

  lemma SupportersVoted(events: seq<Event>, all: seq<Event>, n: nat, e: Election, members: set<Peer>, faulty: set<Peer>)
    requires Inv(events, n, e) && e.completed && HonestVoting(members, faulty, all)
    requires forall ev :: ev in events ==> ev in all
    ensures Supporters(e.votes, e.winner.value) <= members
    ensures forall v :: v in Supporters(e.votes, e.winner.value) ==> VotedIn(all, v, e.winner.value)
  {
    forall v | v in Supporters(e.votes, e.winner.value) ensures VotedIn(all, v, e.winner.value) && v in members {
      assert VotedIn(events, v, e.votes[v]);
      assert VotedIn(all, v, e.winner.value);
    }
  }

  /** Two nodes that count against all n members, fewer than a third of them faulty, declare the same
      winner, in whatever order messages reach them and however their maps iterate. */
  lemma WinnersAgree(states: seq<Election>, events: seq<Event>, states': seq<Election>, events': seq<Event>,
                     members: set<Peer>, faulty: set<Peer>)
    requires IsRun(states, events) && Informed(states, events, |members|)
    requires IsRun(states', events') && Informed(states', events', |members|)
    requires HonestVoting(members, faulty, events + events') && 3 * |faulty| < |members|
    requires states[|events|].completed && states'[|events'|].completed
    ensures states[|events|].winner == states'[|events'|].winner
  {
    var n, all := |members|, events + events';
    var e, e' := states[|events|], states'[|events'|];
    RunKeeps(states, events, n);
    RunKeeps(states', events', n);
    SupportersVoted(events, all, n, e, members, faulty);
    SupportersVoted(events', all, n, e', members, faulty);
    var a, b := Supporters(e.votes, e.winner.value), Supporters(e'.votes, e'.winner.value);
    Quorum.VotersQuorumSafe(n, |faulty|);
    Quorum.SharedHonest(n, Quorum.QuorumForVoters(n), |faulty|, members, faulty, a, b);
    var v :| v in a * b - faulty;
    assert VotedIn(all, v, e.winner.value) && VotedIn(all, v, e'.winner.value);
  }

  // ---------- Nodes that know too few candidates ----------

  /** Votes it takes with c known candidates: at least one, even when none is known. */
  function Needed(c: nat): nat {
    if c == 0 then 1 else Quorum.QuorumForVoters(c)
  }

  /** Two runs among the members with different winners, counted against at least c and d candidates. */
  ghost predicate Disagreement(n: nat, c: nat, d: nat, f: nat, members: set<Peer>, faulty: set<Peer>, l: Life, l': Life) {
    && |members| == n && |faulty| <= f && HonestVoting(members, faulty, l.events + l'.events)
    && Elects(l, c) && Elects(l', d) && Winner(l) != Winner(l')
  }

  ghost predicate Elects(l: Life, c: nat) {
    IsRun(l.states, l.events) && Informed(l.states, l.events, c) && l.states[|l.events|].completed
  }

  ghost function Winner(l: Life): Option<Peer>
    requires |l.states| > |l.events|
  {
    l.states[|l.events|].winner
  }

  ghost predicate CanDisagree(n: nat, c: nat, d: nat, f: nat) {
    exists members, faulty, l, l' :: Disagreement(n, c, d, f, members, faulty, l, l')
  }

  lemma WinnerHasVotes(l: Life, c: nat, all: seq<Event>, members: set<Peer>, faulty: set<Peer>) returns (voters: set<Peer>)
    requires Elects(l, c) && HonestVoting(members, faulty, all) && forall ev :: ev in l.events ==> ev in all
    ensures Winner(l).Some? && voters <= members && |voters| >= Needed(c)
    ensures forall v :: v in voters ==> VotedIn(all, v, Winner(l).value)
  {
    RunKeeps(l.states, l.events, c);
    var e := l.states[|l.events|];
    SupportersVoted(l.events, all, c, e, members, faulty);
    voters := Supporters(e.votes, e.winner.value);
    assert |voters| >= 1;
  }

  lemma DisagreementNeeds(n: nat, c: nat, d: nat, f: nat, members: set<Peer>, faulty: set<Peer>, l: Life, l': Life)
    requires Disagreement(n, c, d, f, members, faulty, l, l')
    ensures Needed(c) <= n && Needed(d) <= n && Needed(c) + Needed(d) <= n + f
  {
    var all := l.events + l'.events;
    var a := WinnerHasVotes(l, c, all, members, faulty);
    var b := WinnerHasVotes(l', d, all, members, faulty);
    forall v | v in a * b ensures v in faulty {
      assert VotedIn(all, v, Winner(l).value) && VotedIn(all, v, Winner(l').value);
    }
    Quorum.Smaller(a, members);
    Quorum.Smaller(b, members);
    Quorum.Smaller(a * b, faulty);
    Quorum.Overlap(a, b, members);
  }

  /** A run so far: c candidates are known, the voters from lo on have voted for w, and nobody has won. */
  ghost predicate Underway(l: Life, c: nat, lo: nat, m: nat, w: Peer) {
    && IsRun(l.states, l.events) && Informed(l.states, l.events, c) && CastFrom(l.events, lo, m, w)
    && var e := l.states[|l.events|];
       |e.candidates| == c && e.votes == Ballots(lo, m, w) && !e.completed && e.winner == None
  }

  ghost predicate CastFrom(events: seq<Event>, lo: nat, m: nat, w: Peer) {
    forall v: Peer, x :: VotedIn(events, v, x) ==> lo <= v < lo + m && x == w
  }

  function Ballots(lo: nat, m: nat, w: Peer): map<Peer, Peer> {
    if m == 0 then map[] else Ballots(lo, m - 1, w)[lo + m - 1 := w]
  }

  lemma {:induction false} BallotsFor(lo: nat, m: nat, w: Peer)
    ensures Ballots(lo, m, w).Keys == Quorum.Range(lo, lo + m)
    ensures forall v :: v in Ballots(lo, m, w) ==> Ballots(lo, m, w)[v] == w
  {
    if m > 0 {
      BallotsFor(lo, m - 1, w);
    }
  }

  lemma BallotsSupport(lo: nat, m: nat, w: Peer)
    ensures Supporters(Ballots(lo, m, w), w) == Quorum.Range(lo, lo + m) && |Supporters(Ballots(lo, m, w), w)| == m
    ensures forall x :: x != w ==> Supporters(Ballots(lo, m, w), x) == {}
  {
    BallotsFor(lo, m, w);
    assert Supporters(Ballots(lo, m, w), w) == Ballots(lo, m, w).Keys;
  }

  lemma InformedLonger(l: Life, c: nat, ev: Event, e': Election)
    requires |l.states| == |l.events| + 1 && Informed(l.states, l.events, c)
    requires ev.Vote? ==> |l.states[|l.events|].candidates| >= c
    ensures Informed(l.states + [e'], l.events + [ev], c)
  {
    var states, events := l.states + [e'], l.events + [ev];
    forall i | 0 <= i < |events| && i < |states| && events[i].Vote? ensures |states[i].candidates| >= c {
      if i < |l.events| {
        assert events[i] == l.events[i] && states[i] == l.states[i];
      }
    }
  }

  ghost predicate Campaign(l: Life, base: nat, c: nat) {
    && IsRun(l.states, l.events) && (forall i :: 0 <= i < |l.events| ==> l.events[i].Announce?)
    && var e := l.states[|l.events|];
       e.candidates == Quorum.Range(base, base + c) && e.votes == map[] && !e.completed && e.winner == None
  }

  /** Candidates base, base + 1, ... are announced. */
  lemma {:induction false} AnnounceAll(base: nat, c: nat) returns (l: Life)
    ensures Campaign(l, base, c)
  {
    if c == 0 {
      l := Life([NewElection(0, 0)], []);
    } else {
      var before := AnnounceAll(base, c - 1);
      var e := before.states[|before.events|];
      var e', ev := AnnounceStep(e, Some(base + c - 1)), Announce(Some(base + c - 1));
      RunLonger(before.states, before.events, ev, e');
      l := Life(before.states + [e'], before.events + [ev]);
    }
  }

  lemma CampaignEnds(l: Life, base: nat, c: nat, lo: nat, w: Peer)
    requires Campaign(l, base, c)
    ensures Underway(l, c, lo, 0, w)
  {
    assert Ballots(lo, 0, w) == map[];
  }

  lemma NobodyYet(e: Election, lo: nat, m: nat, w: Peer)
    requires e.votes == Ballots(lo, m, w) && m < Needed(|e.candidates|) && 0 < m
    ensures Completes(e, e)
  {
    BallotsSupport(lo, m, w);
    forall x ensures !Decisive(e, x) {
      assert x != w ==> Supporters(e.votes, x) == {};
    }
  }

  lemma WinsNow(e: Election, lo: nat, m: nat, w: Peer)
    requires e.votes == Ballots(lo, m, w) && m == Needed(|e.candidates|)
    ensures Completes(e, e.(completed := true, winner := Some(w)))
  {
    BallotsSupport(lo, m, w);
    forall x ensures |Supporters(e.votes, x)| <= |Supporters(e.votes, w)| {
      assert x != w ==> Supporters(e.votes, x) == {};
    }
    assert Decisive(e, w);
  }

  lemma CastLonger(events: seq<Event>, lo: nat, m: nat, w: Peer)
    requires CastFrom(events, lo, m, w)
    ensures CastFrom(events + [Vote(lo + m, w)], lo, m + 1, w)
  {
    var longer := events + [Vote(lo + m, w)];
    forall v: Peer, x | VotedIn(longer, v, x) ensures lo <= v < lo + m + 1 && x == w {
      assert Vote(v, x) != Vote(lo + m, w) ==> VotedIn(events, v, x);
    }
  }

  lemma OneMoreVote(before: Life, c: nat, lo: nat, m: nat, w: Peer, e': Election) returns (l: Life)
    requires Underway(before, c, lo, m, w)
    requires Completes(before.states[|before.events|].(votes := Ballots(lo, m + 1, w)), e')
    ensures IsRun(l.states, l.events) && Informed(l.states, l.events, c) && CastFrom(l.events, lo, m + 1, w)
    ensures l.states[|l.events|] == e'
  {
    var ev := Vote(lo + m, w);
    RunLonger(before.states, before.events, ev, e');
    InformedLonger(before, c, ev, e');
    CastLonger(before.events, lo, m, w);
    l := Life(before.states + [e'], before.events + [ev]);
  }

  lemma {:induction false} VoteOn(campaign: Life, base: nat, c: nat, lo: nat, m: nat, w: Peer) returns (l: Life)
    requires Campaign(campaign, base, c) && m < Needed(c)
    ensures Underway(l, c, lo, m, w)
  {
    if m == 0 {
      CampaignEnds(campaign, base, c, lo, w);
      l := campaign;
    } else {
      var before := VoteOn(campaign, base, c, lo, m - 1, w);
      var e := before.states[|before.events|].(votes := Ballots(lo, m, w));
      NobodyYet(e, lo, m, w);
      l := OneMoreVote(before, c, lo, m - 1, w, e);
    }
  }

  /** c candidates from `base` on and as many voters from `lo` on as it takes elect w. */
  lemma ElectionFor(base: nat, c: nat, lo: nat, w: Peer) returns (l: Life)
    ensures Elects(l, c) && Winner(l) == Some(w) && CastFrom(l.events, lo, Needed(c), w)
  {
    var campaign := AnnounceAll(base, c);
    var before := VoteOn(campaign, base, c, lo, Needed(c) - 1, w);
    var e := before.states[|before.events|].(votes := Ballots(lo, Needed(c), w));
    WinsNow(e, lo, Needed(c), w);
    l := OneMoreVote(before, c, lo, Needed(c) - 1, w, e.(completed := true, winner := Some(w)));
  }

  lemma VotersHonest(n: nat, a: seq<Event>, p: nat, b: seq<Event>, q: nat, faulty: set<Peer>)
    requires p <= n && q <= n && CastFrom(a, 0, p, 0) && CastFrom(b, n - q, q, 1)
    requires faulty == Quorum.Range(0, p) * Quorum.Range(n - q, n)
    ensures HonestVoting(Quorum.Range(0, n), faulty, a + b)
  {
    var all := a + b;
    forall v: Peer, x | VotedIn(all, v, x) ensures (v in Quorum.Range(0, p) && x == 0) || (v in Quorum.Range(n - q, n) && x == 1) {
      assert VotedIn(a, v, x) || VotedIn(b, v, x);
    }
    Quorum.InRange(0, n - q, p, n);
  }

  lemma DisagreementExists(n: nat, c: nat, d: nat, f: nat)
    requires Needed(c) <= n && Needed(d) <= n && Needed(c) + Needed(d) <= n + f
    ensures CanDisagree(n, c, d, f)
  {
    var p, q := Needed(c), Needed(d);
    var l := ElectionFor(0, c, 0, 0);
    var l' := ElectionFor(1, d, n - q, 1);
    var members, faulty := Quorum.Range(0, n), Quorum.Range(0, p) * Quorum.Range(n - q, n);
    VotersHonest(n, l.events, p, l'.events, q, faulty);
    Quorum.FewShared(n, p, q, f);
    assert Disagreement(n, c, d, f, members, faulty, l, l');
  }

  /** Two nodes that count against c and d known candidates can declare different winners among n voters with
      at most f faulty ones exactly when both thresholds can be met and together do not exceed n + f. */
  lemma PartialKnowledgeIff(n: nat, c: nat, d: nat, f: nat)
    ensures CanDisagree(n, c, d, f) <==> Needed(c) <= n && Needed(d) <= n && Needed(c) + Needed(d) <= n + f
  {
    if Needed(c) <= n && Needed(d) <= n && Needed(c) + Needed(d) <= n + f {
      DisagreementExists(n, c, d, f);
    }
    forall members, faulty, l, l' | Disagreement(n, c, d, f, members, faulty, l, l')
      ensures Needed(c) <= n && Needed(d) <= n && Needed(c) + Needed(d) <= n + f
    {
      DisagreementNeeds(n, c, d, f, members, faulty, l, l');
    }
  }

  /** One known candidate and one vote end an election: two such nodes disagree without any fault. */
  lemma UninformedDisagree() returns (s: seq<Election>, ev: seq<Event>, s': seq<Election>, ev': seq<Event>)
    ensures IsRun(s, ev) && IsRun(s', ev') && HonestVoting({0, 1, 2, 3}, {}, ev + ev')
    ensures s[|ev|].completed && s'[|ev'|].completed && s[|ev|].winner != s'[|ev'|].winner
  {
    s, ev := OneVoteElection(0);
    s', ev' := OneVoteElection(1);
  }

  lemma OneVoteElection(p: Peer) returns (s: seq<Election>, ev: seq<Event>)
    ensures IsRun(s, ev) && ev == [Announce(Some(p)), Vote(p, p)]
    ensures s[2].completed && s[2].winner == Some(p)
  {
    var e0 := NewElection(0, 0);
    var e1 := AnnounceStep(e0, Some(p));
    var voted := e1.(votes := map[p := p]);
    var e2 := voted.(completed := true, winner := Some(p));
    assert Supporters(voted.votes, p) == {p};
    assert forall c :: c != p ==> Supporters(voted.votes, c) == {};
    assert Decisive(voted, p);
    assert e1.votes[p := p] == voted.votes;
    s, ev := [e0, e1, e2], [Announce(Some(p)), Vote(p, p)];
  }
}
