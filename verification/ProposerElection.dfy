// The proposer election (savitri-lightnode/src/proposer.rs): every node sorts the scores it knows, its
// own last, and proposes if its own key comes out first.
module ProposerElection {
  type PublicKey = nat

  datatype Candidate = Candidate(pubkey: PublicKey, score: nat)

  datatype Result = Result(winner: Candidate, isLocal: bool, candidates: seq<Candidate>)

  // ---------- Stable sort, highest score first ----------

  predicate Descending(s: seq<Candidate>) {
    forall i, j :: 0 <= i < j < |s| ==> s[i].score >= s[j].score
  }

  /** The entries of one score in their order. */
  function WithScore(s: seq<Candidate>, score: nat): seq<Candidate> {
    if s == [] then []
    else WithScore(s[..|s| - 1], score) + if s[|s| - 1].score == score then [s[|s| - 1]] else []
  }

  lemma WithScoreMore(s: seq<Candidate>, c: Candidate, score: nat)
    ensures WithScore(s + [c], score) == WithScore(s, score) + if c.score == score then [c] else []
  {
    assert (s + [c])[..|s|] == s;
  }

  lemma {:induction false} WithScoreConcat(a: seq<Candidate>, b: seq<Candidate>, score: nat)
    ensures WithScore(a + b, score) == WithScore(a, score) + WithScore(b, score)
  {
    if b == [] {
      assert a + b == a;
    } else {
      var rest, c := b[..|b| - 1], b[|b| - 1];
      WithScoreConcat(a, rest, score);
      assert b == rest + [c] && a + b == (a + rest) + [c];
      WithScoreMore(rest, c, score);
      WithScoreMore(a + rest, c, score);
    }
  }

  lemma {:induction false} WithScoreNone(s: seq<Candidate>, score: nat)
    requires forall i :: 0 <= i < |s| ==> s[i].score != score
    ensures WithScore(s, score) == []
  {
    if s != [] {
      WithScoreNone(s[..|s| - 1], score);
    }
  }

  /** Sorted by falling score, with equal scores left in their order. */
  ghost predicate StablySorted(s: seq<Candidate>, r: seq<Candidate>) {
    Descending(r) && multiset(r) == multiset(s) && forall score :: WithScore(r, score) == WithScore(s, score)
  }

  method StableSort(s: seq<Candidate>) returns (r: seq<Candidate>)
    ensures StablySorted(s, r)
  {
    r := [];
    for i := 0 to |s|
      invariant StablySorted(s[..i], r)
    {
      var k := Position(r, s[i]);
      assert r == r[..k] + r[k..];
      InsertKeeps(s[..i], r[..k], s[i], r[k..]);
      assert s[..i + 1] == s[..i] + [s[i]];
      r := r[..k] + [s[i]] + r[k..];
    }
    assert s[..|s|] == s;
  }

  method Position(r: seq<Candidate>, c: Candidate) returns (k: nat)
    ensures k <= |r| && (k == |r| || r[k].score < c.score)
    ensures forall j :: 0 <= j < k ==> r[j].score >= c.score
  {
    k := 0;
    while k < |r| && r[k].score >= c.score
      invariant 0 <= k <= |r|
      invariant forall j :: 0 <= j < k ==> r[j].score >= c.score
    {
      k := k + 1;
    }
  }

  lemma InsertKeeps(s: seq<Candidate>, a: seq<Candidate>, c: Candidate, b: seq<Candidate>)
    requires StablySorted(s, a + b)
    requires forall j :: 0 <= j < |a| ==> a[j].score >= c.score
    requires b == [] || b[0].score < c.score
    ensures StablySorted(s + [c], a + [c] + b)
  {
    DescendingInsert(a, c, b);
    forall score ensures WithScore(a + [c] + b, score) == WithScore(s + [c], score) {
      InsertStable(s, a, c, b, score);
    }
  }

  lemma DescendingInsert(a: seq<Candidate>, c: Candidate, b: seq<Candidate>)
    requires Descending(a + b)
    requires forall j :: 0 <= j < |a| ==> a[j].score >= c.score
    requires b == [] || b[0].score < c.score
    ensures Descending(a + [c] + b)
    ensures forall j :: 0 <= j < |b| ==> b[j].score < c.score
  {
    assert forall j :: 0 <= j < |b| ==> (a + b)[|a| + j] == b[j];
    assert forall j :: 0 <= j < |a| ==> (a + b)[j] == a[j];
  }

  lemma InsertStable(s: seq<Candidate>, a: seq<Candidate>, c: Candidate, b: seq<Candidate>, score: nat)
    requires WithScore(a + b, score) == WithScore(s, score)
    requires forall j :: 0 <= j < |b| ==> b[j].score < c.score
    ensures WithScore(a + [c] + b, score) == WithScore(s + [c], score)
  {
    WithScoreConcat(a + [c], b, score);
    WithScoreConcat(a, [c], score);
    WithScoreConcat(a, b, score);
    WithScoreConcat(s, [c], score);
    if score == c.score {
      WithScoreNone(b, score);
    } else {
      WithScoreNone([c], score);
    }
  }

  // ---------- The election ----------

  /** The first candidate with the highest score. */
  ghost predicate FirstBest(s: seq<Candidate>, i: int) {
    && 0 <= i < |s|
    && (forall j :: 0 <= j < |s| ==> s[j].score <= s[i].score)
    && (forall j :: 0 <= j < i ==> s[j].score < s[i].score)
  }

  lemma {:induction false} WithScoreHead(s: seq<Candidate>, i: nat)
    requires FirstBest(s, i)
    ensures WithScore(s, s[i].score) != [] && WithScore(s, s[i].score)[0] == s[i]
  {
    var score := s[i].score;
    assert s == s[..i] + [s[i]] + s[i + 1..];
    WithScoreConcat(s[..i] + [s[i]], s[i + 1..], score);
    WithScoreConcat(s[..i], [s[i]], score);
    WithScoreNone(s[..i], score);
    assert WithScore([s[i]], score) == [s[i]] by { assert [s[i]][..0] == []; }
  }

  lemma SortedHead(s: seq<Candidate>, r: seq<Candidate>, i: nat)
    requires StablySorted(s, r) && FirstBest(s, i)
    ensures r != [] && r[0] == s[i]
  {
    assert s[i] in multiset(s);
    assert s[i] in r;
    assert r[0] in multiset(r);
    var k :| 0 <= k < |s| && s[k] == r[0];
    assert r[0].score >= s[i].score;
    assert FirstBest(r, 0);
    WithScoreHead(s, i);
    WithScoreHead(r, 0);
  }

  lemma {:induction false} FirstBestExists(s: seq<Candidate>) returns (i: nat)
    requires s != []
    ensures FirstBest(s, i)
  {
    if |s| == 1 {
      i := 0;
    } else {
      i := FirstBestExists(s[..|s| - 1]);
      if s[|s| - 1].score > s[i].score {
        i := |s| - 1;
      }
    }
  }

  method RunElection(peers: seq<Candidate>, local: Candidate) returns (r: Result)
    ensures StablySorted(peers + [local], r.candidates)
    ensures r.winner == r.candidates[0]
    ensures exists i :: FirstBest(peers + [local], i) && r.winner == (peers + [local])[i]
    ensures r.isLocal <==> r.winner.pubkey == local.pubkey
  {
    var candidates := peers + [local];
    var sorted := StableSort(candidates);
    ghost var i := FirstBestExists(candidates);
    SortedHead(candidates, sorted, i);
    r := Result(sorted[0], sorted[0].pubkey == local.pubkey, sorted);
  }

  ghost predicate ElectsItself(peers: seq<Candidate>, local: Candidate) {
    exists i :: FirstBest(peers + [local], i) && (peers + [local])[i].pubkey == local.pubkey
  }

  /** Strictly ahead of every entry of the table. */
  ghost predicate Ahead(peers: seq<Candidate>, local: Candidate) {
    forall p :: p in peers ==> p.score < local.score
  }

  /** An entry under the node's own key, which the table accepts, comes first and is not behind the node. */
  ghost predicate OldSelfAhead(peers: seq<Candidate>, local: Candidate) {
    exists i :: FirstBest(peers, i) && peers[i].pubkey == local.pubkey && peers[i].score >= local.score
  }

  lemma FirstBestOf(peers: seq<Candidate>, local: Candidate, i: int)
    ensures FirstBest(peers + [local], i) <==>
            (FirstBest(peers, i) && peers[i].score >= local.score) || (i == |peers| && Ahead(peers, local))
  {
    var s, n := peers + [local], |peers|;
    assert forall j :: 0 <= j < n ==> s[j] == peers[j] && peers[j] in peers;
    if FirstBest(s, i) {
      assert s[n].score <= s[i].score;
      if i == n {
        forall p | p in peers ensures p.score < local.score {
          var j :| 0 <= j < n && peers[j] == p;
          assert s[j].score < s[n].score;
        }
      }
    }
  }

  /** A node elects itself exactly when it is strictly ahead of every entry, losing every tie, or when an
      entry under its own key comes first. */
  lemma ElectsItselfIff(peers: seq<Candidate>, local: Candidate)
    ensures ElectsItself(peers, local) <==> Ahead(peers, local) || OldSelfAhead(peers, local)
  {
    var s := peers + [local];
    if ElectsItself(peers, local) {
      var i :| FirstBest(s, i) && s[i].pubkey == local.pubkey;
      FirstBestOf(peers, local, i);
    }
    if Ahead(peers, local) {
      FirstBestOf(peers, local, |peers|);
      assert FirstBest(s, |peers|) && s[|peers|] == local;
    }
    if OldSelfAhead(peers, local) {
      var i :| FirstBest(peers, i) && peers[i].pubkey == local.pubkey && peers[i].score >= local.score;
      FirstBestOf(peers, local, i);
      assert s[i] == peers[i];
    }
  }

  /** Two nodes with the same score and tables that show the other: none elects itself. */
  lemma TieElectsNobody()
    ensures !ElectsItself([Candidate(1, 7)], Candidate(0, 7)) && !ElectsItself([Candidate(0, 7)], Candidate(1, 7))
  {
    var a, b := Candidate(0, 7), Candidate(1, 7);
    assert a in [a] && b in [b];
    ElectsItselfIff([b], a);
    ElectsItselfIff([a], b);
  }

  // ---------- A network with consistent tables ----------

  /** Each node knows every other node with its score, in any order, and nobody else. */
  ghost predicate Consistent(scores: map<PublicKey, nat>, tables: map<PublicKey, seq<Candidate>>) {
    && tables.Keys == scores.Keys
    && forall k, p :: k in tables ==>
         (p in tables[k] <==> p.pubkey in scores && p.pubkey != k && p.score == scores[p.pubkey])
  }

  ghost predicate SelfElected(scores: map<PublicKey, nat>, tables: map<PublicKey, seq<Candidate>>, k: PublicKey) {
    k in scores && k in tables && ElectsItself(tables[k], Candidate(k, scores[k]))
  }

  ghost predicate StrictTop(scores: map<PublicKey, nat>, k: PublicKey) {
    k in scores && forall m :: m in scores && m != k ==> scores[m] < scores[k]
  }

  /** A node proposes exactly when it alone has the top score: never two nodes, and none on a tie. */
  lemma ProposesIff(scores: map<PublicKey, nat>, tables: map<PublicKey, seq<Candidate>>, k: PublicKey)
    requires Consistent(scores, tables) && k in scores
    ensures SelfElected(scores, tables, k) <==> StrictTop(scores, k)
  {
    ElectsItselfIff(tables[k], Candidate(k, scores[k]));
    assert !OldSelfAhead(tables[k], Candidate(k, scores[k])) by {
      assert forall i :: 0 <= i < |tables[k]| ==> tables[k][i] in tables[k];
    }
    if SelfElected(scores, tables, k) {
      forall m | m in scores && m != k ensures scores[m] < scores[k] {
        assert Candidate(m, scores[m]) in tables[k];
      }
    }
  }

  lemma AtMostOneProposer(scores: map<PublicKey, nat>, tables: map<PublicKey, seq<Candidate>>, k: PublicKey, m: PublicKey)
    requires Consistent(scores, tables)
    requires SelfElected(scores, tables, k) && SelfElected(scores, tables, m)
    ensures k == m
  {
    ProposesIff(scores, tables, k);
    ProposesIff(scores, tables, m);
  }
}
