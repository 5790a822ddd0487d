// What the lattice threshold decides (savitri-consensus/src/lattice/aggregator.rs, types/lattice.rs): for
// which group sizes and fault counts two runs can certify different cells of one author in one round.
module LatticeThreshold {
  import opened Basics
  import opened ByteStrings
  import opened LatticeCells
  import opened LatticeAggregator
  import opened CertifyingRuns
  import LatticeRuntime
  import Quorum

  // ---------- Names and keys ----------

  /** Members 0 to n - 1 and, as number n, an author who is not one of them; everyone has a key of their own. */
  datatype Cast = Cast(n: nat, keys: nat -> Hash32)

  ghost predicate OwnKeys(x: Cast) {
    forall i, j :: 0 <= i <= x.n && 0 <= j <= x.n && x.keys(i) == x.keys(j) ==> i == j
  }

  ghost function RosterOf(x: Cast): Roster {
    map name | name in Names(Quorum.Range(0, x.n)) :: x.keys(|name|)
  }

  lemma RosterIs(x: Cast)
    ensures |RosterOf(x)| == x.n && RosterOf(x).Keys == Names(Quorum.Range(0, x.n))
    ensures forall i :: 0 <= i < x.n ==> Name(i) in RosterOf(x) && RosterOf(x)[Name(i)] == x.keys(i)
    ensures forall m :: m in RosterOf(x) ==> |m| < x.n && m == Name(|m|) && RosterOf(x)[m] == x.keys(|m|)
  {
    NamesSize(Quorum.Range(0, x.n));
    assert RosterOf(x).Keys == Names(Quorum.Range(0, x.n));
    assert |RosterOf(x)| == |RosterOf(x).Keys|;
  }

  /** The number itself, filled up to a key. */
  function NumberKey(i: nat): Hash32 {
    LittleEndian(i, 8) + Fill(0, 24)
  }

  lemma NumberKeysDiffer(i: u64, j: u64)
    requires NumberKey(i) == NumberKey(j)
    ensures i == j
  {
    SplitField(LittleEndian(i, 8), Fill(0, 24), LittleEndian(j, 8), Fill(0, 24));
    U64Injective(i, j);
  }

  lemma MakeCast(n: nat) returns (x: Cast)
    requires n < U64
    ensures x.n == n && OwnKeys(x)
  {
    x := Cast(n, NumberKey);
    forall i, j | 0 <= i <= n && 0 <= j <= n && x.keys(i) == x.keys(j) ensures i == j {
      NumberKeysDiffer(i, j);
    }
  }

  // ---------- Two cells of one author in one round ----------

  function Twin(x: Cast, b: Byte): Cell {
    Cell(0, [], Name(x.n), x.keys(x.n), [], Fill(b, 32), Fill(0, 64))
  }

  lemma {:induction false} NamePlain(i: nat)
    ensures BAR !in Name(i)
  {
    if i > 0 {
      NamePlain(i - 1);
    }
  }

  lemma TwinsDiffer(x: Cast)
    ensures !Same(Twin(x, 0), Twin(x, 1)) && SignableBytes(Twin(x, 0)) != SignableBytes(Twin(x, 1))
  {
    NamePlain(x.n);
    assert Twin(x, 0).batchRoot[0] != Twin(x, 1).batchRoot[0];
    SignableInjective(Twin(x, 0), Twin(x, 1));
  }

  /** The author has signed both twins, members in a the first one and members in b the second. */
  predicate Signs(x: Cast, a: set<nat>, b: set<nat>, key: Hash32, c: Cell) {
    || (SignableBytes(c) == SignableBytes(Twin(x, 0)) && (key == x.keys(x.n) || exists i :: i in a && x.keys(i) == key))
    || (SignableBytes(c) == SignableBytes(Twin(x, 1)) && (key == x.keys(x.n) || exists i :: i in b && x.keys(i) == key))
  }

  /** A world with these signatures and a hash that separates the twins. */
  function World(x: Cast, a: set<nat>, b: set<nat>): Crypto {
    Crypto((c: Cell) => if SignableBytes(c) == SignableBytes(Twin(x, 1)) then Fill(1, 32) else Fill(0, 32),
           (key: Hash32, signature: Hash64, c: Cell) => Signs(x, a, b, key, c))
  }

  lemma WorldOnBytes(x: Cast, a: set<nat>, b: set<nat>)
    ensures OnBytes(World(x, a, b))
  {
  }

  lemma WorldSeparates(x: Cast, w: Crypto)
    requires w.id(Twin(x, 0)) == Fill(0, 32) && w.id(Twin(x, 1)) == Fill(1, 32)
    ensures w.id(Twin(x, 0)) != w.id(Twin(x, 1)) && Faithful(w, {Twin(x, 0), Twin(x, 1)})
  {
    TwinsDiffer(x);
    assert Fill(0, 32)[0] != Fill(1, 32)[0];
  }

  lemma WorldAuthor(x: Cast, a: set<nat>, b: set<nat>)
    ensures World(x, a, b).AuthorOk(Twin(x, 0)) && World(x, a, b).AuthorOk(Twin(x, 1))
  {
  }

  lemma WorldIsSound(x: Cast, a: set<nat>, b: set<nat>)
    ensures OnBytes(World(x, a, b)) && Faithful(World(x, a, b), {Twin(x, 0), Twin(x, 1)})
    ensures World(x, a, b).id(Twin(x, 0)) != World(x, a, b).id(Twin(x, 1))
  {
    TwinsDiffer(x);
    WorldOnBytes(x, a, b);
    WorldSeparates(x, World(x, a, b));
  }

  lemma WorldSigns(x: Cast, a: set<nat>, b: set<nat>, key: Hash32)
    ensures Signs(x, a, b, key, Twin(x, 0)) <==> key == x.keys(x.n) || exists i :: i in a && x.keys(i) == key
    ensures Signs(x, a, b, key, Twin(x, 1)) <==> key == x.keys(x.n) || exists i :: i in b && x.keys(i) == key
  {
    TwinsDiffer(x);
  }

  // ---------- One key is enough ----------

  /** Names are not tied to keys: in every world and for every configured size, one signature under one key, sent under
      a quorum of names, certifies the cell. */
  lemma OneKeyCertifies(w: Crypto, size: nat, c: Cell, key: Hash32, signature: Hash64) returns (events: seq<Event>)
    requires w.AuthorOk(c) && w.signs(key, signature, c)
    ensures Holds(Run(w, Fresh(size), events), c)
    ensures events == Voting(w, c, OneKey(key, signature), 0, Quorum.LatticeVotes(size))
  {
    var v, q := OneKey(key, signature), Quorum.LatticeVotes(size);
    events := Voting(w, c, v, 0, q);
    Certifies(w, Fresh(size), c, v, 0, q);
  }

  // ---------- Two runs that disagree ----------

  /** Only keys of members count, under whatever name. */
  ghost predicate KeysOnly(w: Crypto, play: Play, roster: Roster) {
    forall c, a :: Backs(w, play, a, c) ==> a.signerPubkey in roster.Values
  }

  /** n members with a key each, at most f of them faulty; the others back one cell of an author and round. */
  ghost predicate Setting(n: nat, f: nat, w: Crypto, play: Play, roster: Roster, faulty: set<Bytes>) {
    && OnBytes(w) && Faithful(w, play.cells)
    && |roster| == n && faulty <= roster.Keys && |faulty| <= f
    && (forall x, y :: x in roster && y in roster && roster[x] == roster[y] ==> x == y)
    && OneEach(w, play, roster, faulty)
  }

  /** With `bound`, names come with their keys. */
  ghost predicate Staged(n: nat, f: nat, bound: bool, w: Crypto, play: Play, roster: Roster, faulty: set<Bytes>) {
    Setting(n, f, w, play, roster, faulty) && if bound then Bound(w, play, roster) else KeysOnly(w, play, roster)
  }

  /** Two runs that certify different cells. */
  ghost predicate Clash(size: nat, w: Crypto, play: Play, events: seq<Event>, others: seq<Event>, k: Key) {
    && AllWithin(play, events) && AllWithin(play, others)
    && Differ(Run(w, Fresh(size), events), Run(w, Fresh(size), others), k)
  }

  ghost predicate Differ(s: State, t: State, k: Key) {
    k in s.certified && k in t.certified && !Same(s.certified[k].cell, t.certified[k].cell)
  }

  ghost predicate Clashes(size: nat, w: Crypto, play: Play) {
    exists events, others, k :: Clash(size, w, play, events, others, k)
  }

  ghost predicate CanConflict(size: nat, n: nat, f: nat, bound: bool) {
    exists w, play, roster, faulty :: Staged(n, f, bound, w, play, roster, faulty) && Clashes(size, w, play)
  }

  lemma MakeConflict(size: nat, n: nat, f: nat, bound: bool, w: Crypto, play: Play, roster: Roster, faulty: set<Bytes>)
    requires Staged(n, f, bound, w, play, roster, faulty) && Clashes(size, w, play)
    ensures CanConflict(size, n, f, bound)
  {
  }

  function Letters(id: CellId, v: Votes, s: set<nat>): set<Sent> {
    set i | i in s :: Sent(id, v(i))
  }

  /** Members in a attest the first twin through v, members in b the second one through u. */
  function Posted(x: Cast, w: Crypto, v: Votes, a: set<nat>, u: Votes, b: set<nat>): Play {
    Play({Twin(x, 0), Twin(x, 1)}, Letters(w.id(Twin(x, 0)), v, a) + Letters(w.id(Twin(x, 1)), u, b))
  }

  lemma BackedBy(x: Cast, w: Crypto, v: Votes, a: set<nat>, u: Votes, b: set<nat>, att: Attestation, c: Cell)
    returns (i: nat)
    requires w.id(Twin(x, 0)) != w.id(Twin(x, 1)) && Backs(w, Posted(x, w, v, a, u, b), att, c)
    ensures (c == Twin(x, 0) && i in a && att == v(i)) || (c == Twin(x, 1) && i in b && att == u(i))
  {
    if c == Twin(x, 0) {
      i :| i in a && Sent(w.id(c), att) == Sent(w.id(c), v(i));
    } else {
      i :| i in b && Sent(w.id(c), att) == Sent(w.id(c), u(i));
    }
  }

  /** All that two runs for c and d need: q attestations for each, sent and verifying, under different names. */
  ghost predicate Ready(w: Crypto, play: Play, c: Cell, v: Votes, lo: nat, d: Cell, u: Votes, hi: nat, q: nat) {
    && UnderNames(v) && UnderNames(u) && w.AuthorOk(c) && w.AuthorOk(d) && c in play.cells && d in play.cells
    && KeyOf(c) == KeyOf(d) && !Same(c, d)
    && (forall i :: lo <= i < lo + q ==> Sent(w.id(c), v(i)) in play.sent)
    && (forall i :: hi <= i < hi + q ==> Sent(w.id(d), u(i)) in play.sent)
    && Attested(w, c, v, lo, q) && Attested(w, d, u, hi, q)
  }

  /** The two runs. */
  lemma TwoRuns(size: nat, w: Crypto, play: Play, c: Cell, v: Votes, lo: nat, d: Cell, u: Votes, hi: nat, q: nat)
    requires q == Quorum.LatticeVotes(size) && Ready(w, play, c, v, lo, d, u, hi, q)
    ensures Clashes(size, w, play)
  {
    var events, others := Voting(w, c, v, lo, q), Voting(w, d, u, hi, q);
    VotingWithin(w, c, v, lo, q, play);
    VotingWithin(w, d, u, hi, q, play);
    Certifies(w, Fresh(size), c, v, lo, q);
    Certifies(w, Fresh(size), d, u, hi, q);
    assert Clash(size, w, play, events, others, KeyOf(c));
  }

  lemma TwinsReady(x: Cast, w: Crypto, v: Votes, lo: nat, u: Votes, hi: nat, q: nat)
    requires UnderNames(v) && UnderNames(u) && w.AuthorOk(Twin(x, 0)) && w.AuthorOk(Twin(x, 1))
    requires Attested(w, Twin(x, 0), v, lo, q) && Attested(w, Twin(x, 1), u, hi, q)
    ensures Ready(w, Posted(x, w, v, Quorum.Range(lo, lo + q), u, Quorum.Range(hi, hi + q)), Twin(x, 0), v, lo, Twin(x, 1), u, hi, q)
  {
    TwinsDiffer(x);
  }

  // ---------- Names that come with their keys ----------

  function OwnVotes(x: Cast): Votes {
    (i: nat) => Attestation(Name(i), x.keys(i), Fill(0, 64))
  }

  lemma OwnVotesBound(x: Cast, w: Crypto, a: set<nat>, b: set<nat>)
    requires w.id(Twin(x, 0)) != w.id(Twin(x, 1)) && forall i :: i in a + b ==> i < x.n
    ensures Bound(w, Posted(x, w, OwnVotes(x), a, OwnVotes(x), b), RosterOf(x))
  {
    var play := Posted(x, w, OwnVotes(x), a, OwnVotes(x), b);
    RosterIs(x);
    forall c, att | Backs(w, play, att, c) ensures att.signer in RosterOf(x) && att.signerPubkey == RosterOf(x)[att.signer] {
      var i := BackedBy(x, w, OwnVotes(x), a, OwnVotes(x), b, att, c);
      assert att == OwnVotes(x)(i) && i in a + b;
    }
  }

  lemma OwnKeyBacks(x: Cast, w: Crypto, a: set<nat>, b: set<nat>, i: nat, c: Cell)
    requires w.id(Twin(x, 0)) != w.id(Twin(x, 1)) && (forall j :: j in a + b ==> j < x.n) && i < x.n && OwnKeys(x)
    requires KeyBacks(w, Posted(x, w, OwnVotes(x), a, OwnVotes(x), b), x.keys(i), c)
    ensures (c == Twin(x, 0) && i in a) || (c == Twin(x, 1) && i in b)
  {
    var play := Posted(x, w, OwnVotes(x), a, OwnVotes(x), b);
    var att :| Backs(w, play, att, c) && att.signerPubkey == x.keys(i);
    var j := BackedBy(x, w, OwnVotes(x), a, OwnVotes(x), b, att, c);
    assert att == OwnVotes(x)(j) && j in a + b;
  }

  lemma OwnVotesOneEach(x: Cast, w: Crypto, a: set<nat>, b: set<nat>)
    requires w.id(Twin(x, 0)) != w.id(Twin(x, 1)) && (forall i :: i in a + b ==> i < x.n) && OwnKeys(x)
    ensures OneEach(w, Posted(x, w, OwnVotes(x), a, OwnVotes(x), b), RosterOf(x), Names(a * b))
  {
    var play := Posted(x, w, OwnVotes(x), a, OwnVotes(x), b);
    RosterIs(x);
    forall m | m in RosterOf(x) && m !in Names(a * b) ensures Single(w, play, RosterOf(x)[m]) {
      forall c, d | KeyBacks(w, play, x.keys(|m|), c) && KeyBacks(w, play, x.keys(|m|), d) ensures Same(c, d) {
        OwnKeyBacks(x, w, a, b, |m|, c);
        OwnKeyBacks(x, w, a, b, |m|, d);
      }
    }
  }

  lemma CastKeysDiffer(x: Cast)
    requires OwnKeys(x)
    ensures forall m, k :: m in RosterOf(x) && k in RosterOf(x) && RosterOf(x)[m] == RosterOf(x)[k] ==> m == k
  {
    RosterIs(x);
  }

  lemma SomeInside(a: set<nat>, b: set<nat>, n: nat)
    requires forall i :: i in a + b ==> i < n
    ensures Names(a * b) <= Names(Quorum.Range(0, n))
  {
    forall name | name in Names(a * b) ensures name in Names(Quorum.Range(0, n)) {
      var i :| i in a * b && name == Name(i);
      assert i in a + b;
      assert i in Quorum.Range(0, n);
    }
  }

  lemma OwnStaged(n: nat, f: nat, x: Cast, a: set<nat>, b: set<nat>)
    requires x.n == n && OwnKeys(x) && (forall i :: i in a + b ==> i < n) && |a * b| <= f
    ensures Staged(n, f, true, World(x, a, b), Posted(x, World(x, a, b), OwnVotes(x), a, OwnVotes(x), b),
                   RosterOf(x), Names(a * b))
  {
    var w := World(x, a, b);
    WorldIsSound(x, a, b);
    OwnVotesBound(x, w, a, b);
    OwnVotesOneEach(x, w, a, b);
    CastKeysDiffer(x);
    RosterIs(x);
    SomeInside(a, b, n);
    NamesSize(a * b);
  }

  lemma OwnNames(x: Cast)
    ensures UnderNames(OwnVotes(x))
  {
  }

  lemma OwnReady(x: Cast, a: set<nat>, b: set<nat>, hi: nat, q: nat, w: Crypto, v: Votes)
    requires a == Quorum.Range(0, 0 + q) && b == Quorum.Range(hi, hi + q) && w == World(x, a, b) && v == OwnVotes(x)
    ensures Ready(w, Posted(x, w, v, a, v, b), Twin(x, 0), v, 0, Twin(x, 1), v, hi, q)
  {
    WorldAuthor(x, a, b);
    AllOwnAttested(x, a, b, 0, hi, q);
    OwnNames(x);
    TwinsReady(x, w, v, 0, v, hi, q);
  }

  lemma OwnWorld(n: nat, f: nat, hi: nat, q: nat)
    returns (w: Crypto, play: Play, roster: Roster, faulty: set<Bytes>, c: Cell, d: Cell, v: Votes)
    requires n < U64 && hi + q <= n && |Quorum.Range(0, q) * Quorum.Range(hi, hi + q)| <= f
    ensures Staged(n, f, true, w, play, roster, faulty) && Ready(w, play, c, v, 0, d, v, hi, q)
  {
    var x := MakeCast(n);
    var a, b := Quorum.Range(0, 0 + q), Quorum.Range(hi, hi + q);
    v := OwnVotes(x);
    w, roster, faulty, c, d := World(x, a, b), RosterOf(x), Names(a * b), Twin(x, 0), Twin(x, 1);
    play := Posted(x, w, v, a, v, b);
    OwnStaged(n, f, x, a, b);
    OwnReady(x, a, b, hi, q, w, v);
  }

  lemma ConflictExists(size: nat, n: nat, f: nat)
    requires n < U64 && f <= n && 2 * Quorum.LatticeVotes(size) <= n + f
    ensures CanConflict(size, n, f, true)
  {
    var q := Quorum.LatticeVotes(size);
    var hi := n - q;
    Quorum.FewShared(n, q, q, f);
    assert Quorum.Range(hi, hi + q) == Quorum.Range(n - q, n);
    var w, play, roster, faulty, c, d, v := OwnWorld(n, f, hi, q);
    TwoRuns(size, w, play, c, v, 0, d, v, hi, q);
    MakeConflict(size, n, f, true, w, play, roster, faulty);
  }

  lemma OwnAttested(x: Cast, a: set<nat>, b: set<nat>, i: nat)
    ensures i in a ==> World(x, a, b).AttestationOk(OwnVotes(x)(i), Twin(x, 0))
    ensures i in b ==> World(x, a, b).AttestationOk(OwnVotes(x)(i), Twin(x, 1))
  {
    WorldSigns(x, a, b, x.keys(i));
    assert OwnVotes(x)(i).signerPubkey == x.keys(i);
  }

  lemma AllOwnAttested(x: Cast, a: set<nat>, b: set<nat>, lo: nat, hi: nat, q: nat)
    requires a == Quorum.Range(lo, lo + q) && b == Quorum.Range(hi, hi + q)
    ensures Attested(World(x, a, b), Twin(x, 0), OwnVotes(x), lo, q)
    ensures Attested(World(x, a, b), Twin(x, 1), OwnVotes(x), hi, q)
  {
    forall i: nat ensures lo <= i < lo + q ==> World(x, a, b).AttestationOk(OwnVotes(x)(i), Twin(x, 0))
      ensures hi <= i < hi + q ==> World(x, a, b).AttestationOk(OwnVotes(x)(i), Twin(x, 1))
    {
      OwnAttested(x, a, b, i);
    }
  }

  lemma BoundAgrees(size: nat, n: nat, f: nat, w: Crypto, play: Play, roster: Roster, faulty: set<Bytes>)
    requires Staged(n, f, true, w, play, roster, faulty) && 2 * Quorum.LatticeVotes(size) > n + f
    ensures !Clashes(size, w, play)
  {
    assert Agreeing(w, play, size, roster, faulty);
    forall events, others, k ensures !Clash(size, w, play, events, others, k) {
      if Clash(size, w, play, events, others, k) {
        RunsAgree(w, play, size, roster, faulty, Fresh(size), events, Fresh(size), others, k);
      }
    }
  }

  /** A group of n members of whom f may attest twice certifies at most one cell per author and round,
      in all runs of all nodes, exactly when the threshold satisfies 2q > n + f. This is what a rule of one
      attestation per author and round would give. */
  lemma ConflictIff(size: nat, n: nat, f: nat)
    requires n < U64 && f <= n
    ensures CanConflict(size, n, f, true) <==> 2 * Quorum.LatticeVotes(size) <= n + f
  {
    if 2 * Quorum.LatticeVotes(size) <= n + f {
      ConflictExists(size, n, f);
    } else {
      forall w, play, roster, faulty | Staged(n, f, true, w, play, roster, faulty) ensures !Clashes(size, w, play) {
        BoundAgrees(size, n, f, w, play, roster, faulty);
      }
    }
  }

  /** Were the size set to the number of members, such a rule would make exactly the groups of 3f + 1 members
      safe, at the fault count the group is meant to survive. */
  lemma SafeGroups(n: nat)
    requires 0 < n < U64
    ensures !CanConflict(n, n, Quorum.MaxFaulty(n), true) <==> n % 3 == 1
  {
    ConflictIff(n, n, Quorum.MaxFaulty(n));
  }

  /** With the configured size and its threshold of three, such a rule makes safe exactly the groups in which members and
      faults together are at most five; at the fault count a group is meant to survive, those of up to four members. */
  lemma SafeByDefault(n: nat, f: nat)
    requires 0 < n < U64 && f <= n
    ensures !CanConflict(DEFAULT_GROUP_SIZE, n, f, true) <==> n + f <= 5
    ensures !CanConflict(DEFAULT_GROUP_SIZE, n, Quorum.MaxFaulty(n), true) <==> n <= 4
  {
    ConflictIff(DEFAULT_GROUP_SIZE, n, f);
    ConflictIff(DEFAULT_GROUP_SIZE, n, Quorum.MaxFaulty(n));
  }

  // ---------- Names that come with any member's key ----------

  lemma OneKeySingle(x: Cast, w: Crypto, v: Votes, a: set<nat>, u: Votes, b: set<nat>, p: nat, r: nat, key: Hash32)
    requires w.id(Twin(x, 0)) != w.id(Twin(x, 1))
    requires (forall i :: i in a ==> v(i).signerPubkey == x.keys(p)) && (forall i :: i in b ==> u(i).signerPubkey == x.keys(r))
    requires x.keys(p) != x.keys(r) || (key != x.keys(p) && key != x.keys(r))
    ensures Single(w, Posted(x, w, v, a, u, b), key)
  {
    var play := Posted(x, w, v, a, u, b);
    forall c, d | KeyBacks(w, play, key, c) && KeyBacks(w, play, key, d) ensures Same(c, d) {
      var att :| Backs(w, play, att, c) && att.signerPubkey == key;
      var other :| Backs(w, play, other, d) && other.signerPubkey == key;
      var i := BackedBy(x, w, v, a, u, b, att, c);
      var j := BackedBy(x, w, v, a, u, b, other, d);
    }
  }

  lemma LooseKeys(x: Cast, w: Crypto, v: Votes, u: Votes, a: set<nat>, p: nat, r: nat)
    requires w.id(Twin(x, 0)) != w.id(Twin(x, 1)) && p < x.n && r < x.n
    requires (forall i :: i in a ==> v(i).signerPubkey == x.keys(p)) && (forall i :: i in a ==> u(i).signerPubkey == x.keys(r))
    ensures KeysOnly(w, Posted(x, w, v, a, u, a), RosterOf(x))
  {
    RosterIs(x);
    assert RosterOf(x)[Name(p)] == x.keys(p) && RosterOf(x)[Name(r)] == x.keys(r);
    forall c, att | Backs(w, Posted(x, w, v, a, u, a), att, c) ensures att.signerPubkey in RosterOf(x).Values {
      var i := BackedBy(x, w, v, a, u, a, att, c);
    }
  }

  lemma LooseOneEach(x: Cast, w: Crypto, v: Votes, u: Votes, a: set<nat>, p: nat, r: nat, faulty: set<Bytes>)
    requires w.id(Twin(x, 0)) != w.id(Twin(x, 1)) && p < x.n && r < x.n && OwnKeys(x) && (p == r ==> Name(p) in faulty)
    requires (forall i :: i in a ==> v(i).signerPubkey == x.keys(p)) && (forall i :: i in a ==> u(i).signerPubkey == x.keys(r))
    ensures OneEach(w, Posted(x, w, v, a, u, a), RosterOf(x), faulty)
  {
    RosterIs(x);
    forall m | m in RosterOf(x) && m !in faulty ensures Single(w, Posted(x, w, v, a, u, a), RosterOf(x)[m]) {
      OneKeySingle(x, w, v, a, u, a, p, r, x.keys(|m|));
    }
  }

  lemma LooseStaged(n: nat, f: nat, x: Cast, v: Votes, u: Votes, a: set<nat>, p: nat, r: nat, faulty: set<Bytes>)
    requires x.n == n && p < n && r < n && OwnKeys(x) && |faulty| <= f && faulty <= {Name(p)} && (p == r ==> Name(p) in faulty)
    requires v == OneKey(x.keys(p), Fill(0, 64)) && u == OneKey(x.keys(r), Fill(0, 64))
    ensures Staged(n, f, false, World(x, {p}, {r}), Posted(x, World(x, {p}, {r}), v, a, u, a), RosterOf(x), faulty)
  {
    var w := World(x, {p}, {r});
    WorldIsSound(x, {p}, {r});
    CastKeysDiffer(x);
    RosterIs(x);
    LooseKeys(x, w, v, u, a, p, r);
    LooseOneEach(x, w, v, u, a, p, r, faulty);
  }

  lemma LooseAttested(x: Cast, p: nat, r: nat, v: Votes, u: Votes, q: nat)
    requires v == OneKey(x.keys(p), Fill(0, 64)) && u == OneKey(x.keys(r), Fill(0, 64))
    ensures UnderNames(v) && UnderNames(u)
    ensures Attested(World(x, {p}, {r}), Twin(x, 0), v, 0, q) && Attested(World(x, {p}, {r}), Twin(x, 1), u, 0, q)
  {
    WorldSigns(x, {p}, {r}, x.keys(p));
    WorldSigns(x, {p}, {r}, x.keys(r));
  }

  lemma LooseReady(x: Cast, p: nat, r: nat, a: set<nat>, q: nat, w: Crypto, v: Votes, u: Votes)
    requires a == Quorum.Range(0, 0 + q) && w == World(x, {p}, {r})
    requires v == OneKey(x.keys(p), Fill(0, 64)) && u == OneKey(x.keys(r), Fill(0, 64))
    ensures Ready(w, Posted(x, w, v, a, u, a), Twin(x, 0), v, 0, Twin(x, 1), u, 0, q)
  {
    WorldAuthor(x, {p}, {r});
    LooseAttested(x, p, r, v, u, q);
    TwinsReady(x, w, v, 0, u, 0, q);
  }

  lemma LooseWorld(n: nat, f: nat, q: nat, p: nat, r: nat, faulty: set<Bytes>)
    returns (w: Crypto, play: Play, roster: Roster, c: Cell, v: Votes, d: Cell, u: Votes)
    requires n < U64 && p < n && r < n && |faulty| <= f && faulty <= {Name(p)} && (p == r ==> Name(p) in faulty)
    ensures Staged(n, f, false, w, play, roster, faulty) && Ready(w, play, c, v, 0, d, u, 0, q)
  {
    var x := MakeCast(n);
    var a := Quorum.Range(0, 0 + q);
    v, u := OneKey(x.keys(p), Fill(0, 64)), OneKey(x.keys(r), Fill(0, 64));
    w, roster, c, d := World(x, {p}, {r}), RosterOf(x), Twin(x, 0), Twin(x, 1);
    play := Posted(x, w, v, a, u, a);
    LooseStaged(n, f, x, v, u, a, p, r, faulty);
    LooseReady(x, p, r, a, q, w, v, u);
  }

  /** Member p has signed the first twin and member r the second: enough for two certificates if p and r
      are different, or if p is faulty. */
  lemma LooseConflict(size: nat, n: nat, f: nat, p: nat, r: nat)
    requires n < U64 && p < n && r < n && (p == r ==> f > 0)
    ensures CanConflict(size, n, f, false)
  {
    var q := Quorum.LatticeVotes(size);
    var faulty := if p == r then {Name(p)} else {};
    var w, play, roster, c, v, d, u := LooseWorld(n, f, q, p, r, faulty);
    TwoRuns(size, w, play, c, v, 0, d, u, 0, q);
    MakeConflict(size, n, f, false, w, play, roster, faulty);
  }

  lemma SomeKeyBacks(w: Crypto, play: Play, roster: Roster, s: State, k: Key) returns (m: Bytes)
    requires AllCertifiedOk(w, play, s) && KeysOnly(w, play, roster) && k in s.certified
    ensures m in roster && KeyBacks(w, play, roster[m], s.certified[k].cell)
    ensures KeyOf(s.certified[k].cell) == k
  {
    var p := s.certified[k];
    assert CertifiedOk(w, play, s.groupSize, s.highWater, k, p);
    assert p.attestations != map[];
    var x :| x in p.attestations;
    assert Backs(w, play, p.attestations[x], p.cell);
    m :| m in roster && roster[m] == p.attestations[x].signerPubkey;
  }

  lemma LoneMemberAgrees(w: Crypto, play: Play, roster: Roster, s: State, t: State, k: Key)
    requires AllCertifiedOk(w, play, s) && AllCertifiedOk(w, play, t) && |roster| == 1
    requires KeysOnly(w, play, roster) && OneEach(w, play, roster, {}) && k in s.certified && k in t.certified
    ensures Same(s.certified[k].cell, t.certified[k].cell)
  {
    var m := SomeKeyBacks(w, play, roster, s, k);
    var m' := SomeKeyBacks(w, play, roster, t, k);
    Lone(roster.Keys, m, m');
    assert Single(w, play, roster[m]);
  }

  lemma Lone<T>(s: set<T>, x: T, y: T)
    requires |s| == 1 && x in s && y in s
    ensures x == y
  {
    if x != y {
      Quorum.Smaller({x, y}, s);
    }
  }

  /** While names are not tied to keys the threshold does not matter: even with one attestation per member
      two runs can conflict in every group, but for one lone member without fault. */
  lemma LooseIff(size: nat, n: nat, f: nat)
    requires 0 < n < U64
    ensures CanConflict(size, n, f, false) <==> n + f >= 2
  {
    if n >= 2 {
      LooseConflict(size, n, f, 0, 1);
    } else if f > 0 {
      LooseConflict(size, n, f, 0, 0);
    } else {
      forall w, play, roster, faulty | Staged(n, f, false, w, play, roster, faulty) ensures !Clashes(size, w, play) {
        LoneAgrees(size, w, play, roster, faulty);
      }
    }
  }

  lemma LoneAgrees(size: nat, w: Crypto, play: Play, roster: Roster, faulty: set<Bytes>)
    requires Staged(1, 0, false, w, play, roster, faulty)
    ensures !Clashes(size, w, play)
  {
    assert faulty == {};
    forall events, others, k ensures !Clash(size, w, play, events, others, k) {
      if Clash(size, w, play, events, others, k) {
        RunKeeps(w, play, Fresh(size), events);
        RunKeeps(w, play, Fresh(size), others);
        LoneMemberAgrees(w, play, roster, Run(w, Fresh(size), events), Run(w, Fresh(size), others), k);
      }
    }
  }

  // ---------- The runtime's own rule ----------

  /** Everyone's signature is the same; only the hash matters here. */
  function PlainWorld(x: Cast): Crypto {
    Crypto((c: Cell) => if SignableBytes(c) == SignableBytes(Twin(x, 1)) then Fill(1, 32) else Fill(0, 32),
           (key: Hash32, signature: Hash64, c: Cell) => signature == Fill(0, 64))
  }

  ghost function PlainGroup(x: Cast, size: nat): LatticeRuntime.Group {
    LatticeRuntime.Group(PlainWorld(x), [], size, RosterOf(x), (m: Bytes, c: Cell) => Fill(0, 64), RosterOf(x).Keys, 0,
                         Quorum.LatticeVotes(size))
  }

  lemma PlainSound(x: Cast, size: nat)
    requires x.n > 0
    ensures LatticeRuntime.Sound(PlainGroup(x, size)) && OnBytes(PlainWorld(x))
  {
    RosterIs(x);
    assert Name(0) in RosterOf(x);
  }

  lemma PlainTwins(x: Cast, size: nat)
    ensures Faithful(PlainWorld(x), {Twin(x, 0), Twin(x, 1)})
    ensures
      var g := PlainGroup(x, size);
      !NoTwins(g.crypto, LatticeRuntime.Accepted(g, {Twin(x, 0), Twin(x, 1)}))
  {
    TwinsDiffer(x);
    WorldSeparates(x, PlainWorld(x));
    var g, c, d := PlainGroup(x, size), Twin(x, 0), Twin(x, 1);
    assert c in LatticeRuntime.Accepted(g, {c, d}) && d in LatticeRuntime.Accepted(g, {c, d});
    assert KeyOf(c) == KeyOf(d) && g.crypto.AuthorOk(c) && g.crypto.AuthorOk(d);
  }

  /** The runtime attests every cell it accepts: in a group whose threshold is below the number of its members, all of
      whom run and have keys of their own, two cells of one author in one round are enough for two nodes to certify
      different ones. */
  lemma RuntimeParts(size: nat, n: nat) returns (g: LatticeRuntime.Group, c: Cell, d: Cell)
    requires Quorum.LatticeVotes(size) < n < U64
    ensures LatticeRuntime.Sound(g) && OnBytes(g.crypto) && Faithful(g.crypto, {c, d})
    ensures g.size == size && |g.roster| == n && g.active == g.roster.Keys && LatticeRuntime.CanPart(g, {c, d})
    ensures forall m, k :: m in g.roster && k in g.roster && g.roster[m] == g.roster[k] ==> m == k
  {
    var x := MakeCast(n);
    g, c, d := PlainGroup(x, size), Twin(x, 0), Twin(x, 1);
    RosterIs(x);
    CastKeysDiffer(x);
    PlainSound(x, size);
    PlainTwins(x, size);
    LatticeRuntime.TwinsDecide(g, {c, d});
  }
}
