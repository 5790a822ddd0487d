// The certificate receiver (savitri-lightnode/src/p2p_certificate.rs): certificates wait, are checked
// by a background task, and are finalized once. Every method takes its locks in several sections, and
// other tasks may run between two sections, so the steps of the model are the sections.
module Certificates {
  import opened Basics
  import Quorum

  type Hash = nat
  type Voter = nat

  datatype Certificate = Certificate(hash: Hash, height: nat, voters: seq<Voter>, signatureLength: nat)

  datatype Validation = Validation(id: Hash, voters: seq<Voter>, height: nat, timestamp: nat)

  datatype Reason = TooFewVotes | BadSignatureLength

  /** The collections, the calls under way between two sections, and the finalizations so far. */
  datatype State = State(
    pending: map<Hash, Certificate>,
    validated: map<Hash, Validation>,
    finalized: set<Hash>,
    rejected: map<Hash, Reason>,
    arriving: map<Call, Certificate>,
    checking: map<Call, Certificate>,
    approving: map<Call, Validation>,
    log: seq<Validation>)

  const EMPTY := State(map[], map[], {}, map[], map[], map[], map[], [])

  type Call = nat

  datatype Event =
    | ReceiveCheck(call: Call, cert: Certificate)
    | ReceiveInsert(call: Call)
    | ValidateRead(call: Call, id: Hash)
    | ValidateWrite(call: Call, now: nat)
    | FinalizeRead(call: Call, id: Hash)
    | FinalizeWrite(call: Call)
    | CleanPending(now: nat)
    | CleanValidated(now: nat)

  predicate Known(s: State, id: Hash) {
    id in s.pending || id in s.validated || id in s.finalized
  }

  function Record(n: nat, s: State, c: Certificate, now: nat): State {
    if |c.voters| < Quorum.QuorumForVoters(n) then s.(rejected := s.rejected[c.hash := TooFewVotes])
    else if c.signatureLength != 64 then s.(rejected := s.rejected[c.hash := BadSignatureLength])
    else s.(validated := s.validated[c.hash := Validation(c.hash, c.voters, c.height, now)])
  }

  function Settle(s: State, v: Validation): State {
    if v.id in s.finalized then s
    else s.(finalized := s.finalized + {v.id}, pending := s.pending - {v.id}, log := s.log + [v])
  }

  function Step(n: nat, s: State, e: Event): State {
    match e
    case ReceiveCheck(x, c) => if Known(s, c.hash) then s else s.(arriving := s.arriving[x := c])
    case ReceiveInsert(x) =>
      if x !in s.arriving then s
      else s.(arriving := s.arriving - {x}, pending := s.pending[s.arriving[x].hash := s.arriving[x]])
    case ValidateRead(x, id) => if id !in s.pending then s else s.(checking := s.checking[x := s.pending[id]])
    case ValidateWrite(x, now) =>
      if x !in s.checking then s else Record(n, s.(checking := s.checking - {x}), s.checking[x], now)
    case FinalizeRead(x, id) => if id !in s.validated then s else s.(approving := s.approving[x := s.validated[id]])
    case FinalizeWrite(x) =>
      if x !in s.approving then s else Settle(s.(approving := s.approving - {x}), s.approving[x])
    case CleanPending(now) =>
      s.(pending := map id | id in s.pending && WrappingSub(now, s.pending[id].height) < 600 :: s.pending[id])
    case CleanValidated(now) =>
      s.(validated := map id | id in s.validated && WrappingSub(now, s.validated[id].timestamp) < 3600 :: s.validated[id])
  }

  function Run(n: nat, s: State, events: seq<Event>): State {
    if events == [] then s else Step(n, Run(n, s, events[..|events| - 1]), events[|events| - 1])
  }

  // ---------- The object, each method run without interruption ----------

  class Receiver {
    const committeeSize: nat
    var pending: map<Hash, Certificate>
    var validated: map<Hash, Validation>
    var finalized: set<Hash>
    var rejected: map<Hash, Reason>
    ghost var log: seq<Validation>

    ghost function View(): State
      reads this
    {
      State(pending, validated, finalized, rejected, map[], map[], map[], log)
    }

    constructor (committeeSize: nat)
      ensures View() == EMPTY && this.committeeSize == committeeSize
    {
      this.committeeSize := committeeSize;
      pending, validated, finalized, rejected, log := map[], map[], {}, map[], [];
    }

    method Receive(cert: Certificate)
      modifies this
      ensures View() == Step(committeeSize, Step(committeeSize, old(View()), ReceiveCheck(0, cert)), ReceiveInsert(0))
      ensures
        var known := cert.hash in old(pending) || cert.hash in old(validated) || cert.hash in old(finalized);
        pending == if known then old(pending) else old(pending)[cert.hash := cert]
    {
      if cert.hash in pending || cert.hash in validated || cert.hash in finalized {
        return;
      }
      pending := pending[cert.hash := cert];
    }

    method Validate(id: Hash, now: nat)
      modifies this
      ensures View() == Step(committeeSize, Step(committeeSize, old(View()), ValidateRead(0, id)), ValidateWrite(0, now))
      ensures pending == old(pending) && finalized == old(finalized) && log == old(log)
      ensures id !in old(pending) ==> validated == old(validated) && rejected == old(rejected)
      ensures id in old(pending) ==>
                var c := old(pending)[id];
                var enough := 3 * |c.voters| >= 2 * committeeSize;
                && validated == (if enough && c.signatureLength == 64
                                 then old(validated)[c.hash := Validation(c.hash, c.voters, c.height, now)] else old(validated))
                && rejected == (if !enough then old(rejected)[c.hash := TooFewVotes]
                                else if c.signatureLength != 64 then old(rejected)[c.hash := BadSignatureLength]
                                else old(rejected))
    {
      if id !in pending {
        return;
      }
      var cert := pending[id];
      if |cert.voters| < (committeeSize * 2 + 2) / 3 {
        rejected := rejected[cert.hash := TooFewVotes];
      } else if cert.signatureLength != 64 {
        rejected := rejected[cert.hash := BadSignatureLength];
      } else {
        validated := validated[cert.hash := Validation(cert.hash, cert.voters, cert.height, now)];
      }
    }

    method Finalize(id: Hash) returns (done: bool)
      modifies this
      ensures View() == Step(committeeSize, Step(committeeSize, old(View()), FinalizeRead(0, id)), FinalizeWrite(0))
      ensures done == (id in old(validated) && old(validated)[id].id !in old(finalized))
      ensures finalized == (if done then old(finalized) + {old(validated)[id].id} else old(finalized))
      ensures pending == (if done then old(pending) - {old(validated)[id].id} else old(pending))
      ensures log == (if done then old(log) + [old(validated)[id]] else old(log))
      ensures validated == old(validated) && rejected == old(rejected)
    {
      if id !in validated {
        return false;
      }
      var v := validated[id];
      if v.id in finalized {
        return false;
      }
      finalized := finalized + {v.id};
      pending := pending - {v.id};
      log := log + [v];
      done := true;
    }

    method Clean(now: nat)
      modifies this
      ensures View() == Step(committeeSize, Step(committeeSize, old(View()), CleanPending(now)), CleanValidated(now))
      ensures finalized == old(finalized) && rejected == old(rejected) && log == old(log)
      ensures pending.Keys <= old(pending).Keys && validated.Keys <= old(validated).Keys
      ensures forall id :: id in old(pending) && now < U64 && old(pending)[id].height < U64 ==>
                (id in pending <==> Recent(now, old(pending)[id].height, 600))
      ensures forall id :: id in old(validated) && now < U64 && old(validated)[id].timestamp < U64 ==>
                (id in validated <==> Recent(now, old(validated)[id].timestamp, 3600))
      ensures forall id :: id in pending ==> pending[id] == old(pending)[id]
      ensures forall id :: id in validated ==> validated[id] == old(validated)[id]
    {
      forall id | id in pending && now < U64 && pending[id].height < U64
        ensures WrappingSub(now, pending[id].height) < 600 <==> Recent(now, pending[id].height, 600)
      {
        ElapsedIff(now, pending[id].height, 600);
      }
      forall id | id in validated && now < U64 && validated[id].timestamp < U64
        ensures WrappingSub(now, validated[id].timestamp) < 3600 <==> Recent(now, validated[id].timestamp, 3600)
      {
        ElapsedIff(now, validated[id].timestamp, 3600);
      }
      pending := map id | id in pending && WrappingSub(now, pending[id].height) < 600 :: pending[id];
      validated := map id | id in validated && WrappingSub(now, validated[id].timestamp) < 3600 :: validated[id];
    }
  }

  /** A validation that is not interrupted enters a pending certificate as validated exactly when it lists at least two
      thirds of the committee and has 64 signature bytes, and otherwise gives the reason; too few votes come first. */
  lemma ValidatedIff(n: nat, s: State, x: Call, id: Hash, now: nat)
    requires id in s.pending && s.pending[id].hash !in s.validated && s.pending[id].hash !in s.rejected
    ensures
      var c, t := s.pending[id], Step(n, Step(n, s, ValidateRead(x, id)), ValidateWrite(x, now));
      && (c.hash in t.validated <==> 3 * |c.voters| >= 2 * n && c.signatureLength == 64)
      && (c.hash in t.rejected <==> c.hash !in t.validated)
      && (c.hash in t.validated ==> t.validated[c.hash] == Validation(c.hash, c.voters, c.height, now))
      && (c.hash in t.rejected ==> t.rejected[c.hash] == if 3 * |c.voters| < 2 * n then TooFewVotes else BadSignatureLength)
      && t.pending == s.pending && t.finalized == s.finalized && t.log == s.log
  {
    assert Step(n, s, ValidateRead(x, id)).checking[x] == s.pending[id];
  }

  // ---------- Calls that are interrupted ----------

  ghost predicate ByOthers(x: Call, events: seq<Event>) {
    forall i :: 0 <= i < |events| ==> events[i].CleanPending? || events[i].CleanValidated? || events[i].call != x
  }

  ghost predicate SameAt<V>(x: Call, a: map<Call, V>, b: map<Call, V>) {
    (x in a <==> x in b) && (x in a ==> a[x] == b[x])
  }

  /** Call x has read the same, if anything. */
  ghost predicate SameCall(x: Call, s: State, t: State) {
    SameAt(x, s.arriving, t.arriving) && SameAt(x, s.checking, t.checking) && SameAt(x, s.approving, t.approving)
  }

  lemma OtherReceives(n: nat, s: State, e: Event, x: Call)
    requires (e.ReceiveCheck? || e.ReceiveInsert?) && e.call != x
    ensures SameCall(x, s, Step(n, s, e))
  {
  }

  lemma OtherValidates(n: nat, s: State, e: Event, x: Call)
    requires (e.ValidateRead? || e.ValidateWrite?) && e.call != x
    ensures SameCall(x, s, Step(n, s, e))
  {
  }

  lemma OtherFinalizes(n: nat, s: State, e: Event, x: Call)
    requires (e.FinalizeRead? || e.FinalizeWrite?) && e.call != x
    ensures SameCall(x, s, Step(n, s, e))
  {
  }

  lemma OtherKeepsCall(n: nat, s: State, e: Event, x: Call)
    requires e.CleanPending? || e.CleanValidated? || e.call != x
    ensures SameCall(x, s, Step(n, s, e))
  {
    match e
    case ReceiveCheck(_, _) | ReceiveInsert(_) => OtherReceives(n, s, e, x);
    case ValidateRead(_, _) | ValidateWrite(_, _) => OtherValidates(n, s, e, x);
    case FinalizeRead(_, _) | FinalizeWrite(_) => OtherFinalizes(n, s, e, x);
    case CleanPending(_) | CleanValidated(_) =>
  }

  lemma {:induction false} OthersKeepCall(n: nat, s: State, events: seq<Event>, x: Call)
    requires ByOthers(x, events)
    ensures SameCall(x, s, Run(n, s, events))
  {
    if events != [] {
      var m := |events| - 1;
      OthersKeepCall(n, s, events[..m], x);
      OtherKeepsCall(n, Run(n, s, events[..m]), events[m], x);
    }
  }

  /** Whatever others do between the sections of a call, even finalize the certificate, a certificate that was unknown
      at the check is entered as pending, in place of one that came in between. */
  lemma InterruptedReceive(n: nat, s: State, x: Call, c: Certificate, between: seq<Event>)
    requires c.hash !in s.pending && c.hash !in s.validated && c.hash !in s.finalized && ByOthers(x, between)
    ensures
      var t := Run(n, Step(n, s, ReceiveCheck(x, c)), between);
      var u := Step(n, t, ReceiveInsert(x));
      u == t.(pending := t.pending[c.hash := c], arriving := u.arriving) && u.arriving.Keys == t.arriving.Keys - {x}
  {
    OthersKeepCall(n, Step(n, s, ReceiveCheck(x, c)), between, x);
  }

  /** It judges the certificate that was pending when it began. */
  lemma InterruptedValidate(n: nat, s: State, x: Call, id: Hash, between: seq<Event>, now: nat)
    requires id in s.pending && ByOthers(x, between)
    ensures
      var c, t := s.pending[id], Run(n, Step(n, s, ValidateRead(x, id)), between);
      var u, enough := Step(n, t, ValidateWrite(x, now)), 3 * |c.voters| >= 2 * n;
      && u.pending == t.pending && u.finalized == t.finalized && u.log == t.log
      && u.validated == (if enough && c.signatureLength == 64
                         then t.validated[c.hash := Validation(c.hash, c.voters, c.height, now)] else t.validated)
      && u.rejected == (if !enough then t.rejected[c.hash := TooFewVotes]
                        else if c.signatureLength != 64 then t.rejected[c.hash := BadSignatureLength] else t.rejected)
  {
    var r := Step(n, s, ValidateRead(x, id));
    assert x in r.checking && r.checking[x] == s.pending[id];
    OthersKeepCall(n, r, between, x);
  }

  /** It finalizes what was validated when it began, unless another call has finalized it meanwhile. */
  lemma InterruptedFinalize(n: nat, s: State, x: Call, id: Hash, between: seq<Event>)
    requires id in s.validated && ByOthers(x, between)
    ensures
      var v, t := s.validated[id], Run(n, Step(n, s, FinalizeRead(x, id)), between);
      var u := Step(n, t, FinalizeWrite(x));
      && u.validated == t.validated && u.rejected == t.rejected && u.finalized == t.finalized + {v.id}
      && u.log == (if v.id in t.finalized then t.log else t.log + [v])
      && u.pending == (if v.id in t.finalized then t.pending else t.pending - {v.id})
  {
    var r := Step(n, s, FinalizeRead(x, id));
    assert x in r.approving && r.approving[x] == s.validated[id];
    OthersKeepCall(n, r, between, x);
  }

  // ---------- What every interleaving keeps ----------

  /** The record of a received certificate that had a quorum of voters and 64 bytes of signature. */
  ghost predicate Backed(n: nat, received: set<Certificate>, v: Validation) {
    && |v.voters| >= Quorum.QuorumForVoters(n)
    && exists c :: c in received && c.hash == v.id && c.height == v.height && c.voters == v.voters && c.signatureLength == 64
  }

  /** Certificates held anywhere were received. */
  ghost predicate Sourced(received: set<Certificate>, s: State) {
    && (forall id :: id in s.pending ==> s.pending[id] in received)
    && (forall x :: x in s.arriving ==> s.arriving[x] in received)
    && (forall x :: x in s.checking ==> s.checking[x] in received)
  }

  ghost predicate AllBacked(n: nat, received: set<Certificate>, validated: map<Hash, Validation>) {
    forall id :: id in validated ==> validated[id].id == id && Backed(n, received, validated[id])
  }

  ghost predicate AllApproved(n: nat, received: set<Certificate>, approving: map<Call, Validation>) {
    forall x :: x in approving ==> Backed(n, received, approving[x])
  }

  ghost predicate Checked(n: nat, received: set<Certificate>, s: State) {
    AllBacked(n, received, s.validated) && AllApproved(n, received, s.approving)
  }

  /** The log lists the finalized identifiers, each once. */
  ghost predicate Logged(n: nat, received: set<Certificate>, log: seq<Validation>, finalized: set<Hash>) {
    && (forall i :: 0 <= i < |log| ==> log[i].id in finalized && Backed(n, received, log[i]))
    && (forall id :: id in finalized ==> exists i :: 0 <= i < |log| && log[i].id == id)
    && (forall i, j :: 0 <= i < j < |log| ==> log[i].id != log[j].id)
  }

  ghost predicate Inv(n: nat, received: set<Certificate>, s: State) {
    Sourced(received, s) && Checked(n, received, s) && Logged(n, received, s.log, s.finalized)
  }

  ghost predicate OnlyReceived(received: set<Certificate>, events: seq<Event>) {
    forall i :: 0 <= i < |events| && events[i].ReceiveCheck? ==> events[i].cert in received
  }

  lemma StepKeeps(n: nat, received: set<Certificate>, s: State, e: Event)
    requires Inv(n, received, s) && (e.ReceiveCheck? ==> e.cert in received)
    ensures Inv(n, received, Step(n, s, e))
    ensures s.finalized <= Step(n, s, e).finalized
  {
    StepKeepsSourced(n, received, s, e);
    StepKeepsChecked(n, received, s, e);
    StepKeepsLogged(n, received, s, e);
  }

  lemma StepKeepsSourced(n: nat, received: set<Certificate>, s: State, e: Event)
    requires Sourced(received, s) && (e.ReceiveCheck? ==> e.cert in received)
    ensures Sourced(received, Step(n, s, e))
  {
  }

  lemma StepKeepsBacked(n: nat, received: set<Certificate>, s: State, e: Event)
    requires Sourced(received, s) && AllBacked(n, received, s.validated)
    ensures AllBacked(n, received, Step(n, s, e).validated)
  {
    if e.ValidateWrite? && e.call in s.checking {
      var c := s.checking[e.call];
      assert |c.voters| >= Quorum.QuorumForVoters(n) && c.signatureLength == 64 ==> Backed(n, received, Validation(c.hash, c.voters, c.height, e.now));
    }
  }

  lemma StepKeepsApproved(n: nat, received: set<Certificate>, s: State, e: Event)
    requires Checked(n, received, s)
    ensures AllApproved(n, received, Step(n, s, e).approving)
  {
    if e.FinalizeRead? && e.id in s.validated {
      assert Backed(n, received, s.validated[e.id]);
    }
  }

  lemma StepKeepsChecked(n: nat, received: set<Certificate>, s: State, e: Event)
    requires Sourced(received, s) && Checked(n, received, s)
    ensures Checked(n, received, Step(n, s, e))
  {
    StepKeepsBacked(n, received, s, e);
    StepKeepsApproved(n, received, s, e);
  }

  lemma StepKeepsLogged(n: nat, received: set<Certificate>, s: State, e: Event)
    requires Checked(n, received, s) && Logged(n, received, s.log, s.finalized)
    ensures Logged(n, received, Step(n, s, e).log, Step(n, s, e).finalized)
  {
    if e.FinalizeWrite? && e.call in s.approving {
      LogOnce(n, received, s.log, s.finalized, s.approving[e.call]);
    } else {
      LogUnchanged(n, s, e);
    }
  }

  lemma LogUnchanged(n: nat, s: State, e: Event)
    requires e.FinalizeWrite? ==> e.call !in s.approving
    ensures Step(n, s, e).log == s.log && Step(n, s, e).finalized == s.finalized
  {
  }

  lemma LogOnce(n: nat, received: set<Certificate>, log: seq<Validation>, finalized: set<Hash>, v: Validation)
    requires Logged(n, received, log, finalized) && Backed(n, received, v)
    ensures v.id !in finalized ==> Logged(n, received, log + [v], finalized + {v.id})
  {
    if v.id !in finalized {
      var log' := log + [v];
      assert log'[|log|] == v;
      forall id | id in finalized ensures exists i :: 0 <= i < |log'| && log'[i].id == id {
        var i :| 0 <= i < |log| && log[i].id == id;
        assert log'[i].id == id;
      }
    }
  }

  /** In every interleaving, across cleanups: what is finalized was validated with a quorum of voters
      and is finalized exactly once. */
  lemma {:induction false} RunKeeps(n: nat, received: set<Certificate>, s: State, events: seq<Event>)
    requires Inv(n, received, s) && OnlyReceived(received, events)
    ensures Inv(n, received, Run(n, s, events))
    ensures s.finalized <= Run(n, s, events).finalized
  {
    if events != [] {
      var m := |events| - 1;
      RunKeeps(n, received, s, events[..m]);
      StepKeeps(n, received, Run(n, s, events[..m]), events[m]);
    }
  }

  // ---------- Safety across nodes ----------

  function VoterSet(voters: seq<Voter>): set<Voter> {
    set x | x in voters
  }

  lemma {:induction false} DistinctSize(voters: seq<Voter>)
    requires forall i, j :: 0 <= i < j < |voters| ==> voters[i] != voters[j]
    ensures |VoterSet(voters)| == |voters|
  {
    if voters != [] {
      DistinctSize(voters[1..]);
      assert voters == [voters[0]] + voters[1..];
      assert VoterSet(voters) == {voters[0]} + VoterSet(voters[1..]);
    }
  }

  /** What the receiver leaves to others: certificates list distinct members, and a member that is not
      faulty signs one hash per height. */
  ghost predicate HonestSigning(received: set<Certificate>, members: set<Voter>, faulty: set<Voter>) {
    && faulty <= members
    && (forall c :: c in received ==> VoterSet(c.voters) <= members)
    && (forall c :: c in received ==> forall i, j :: 0 <= i < j < |c.voters| ==> c.voters[i] != c.voters[j])
    && (forall c, d, v :: c in received && d in received && v in c.voters && v in d.voters ==>
          c.height == d.height && v !in faulty ==> c.hash == d.hash)
  }

  /** Two runs of nodes that are configured for `size` members: they finalize different hashes at one height, though
      certificates list n members, of whom at most f sign two hashes at a height. */
  ghost predicate Fork(size: nat, n: nat, f: nat, received: set<Certificate>, members: set<Voter>, faulty: set<Voter>,
                       events: seq<Event>, others: seq<Event>, i: nat, j: nat) {
    && HonestSigning(received, members, faulty) && |members| == n && |faulty| <= f
    && OnlyReceived(received, events) && OnlyReceived(received, others)
    && i < |Run(size, EMPTY, events).log| && j < |Run(size, EMPTY, others).log|
    && Run(size, EMPTY, events).log[i].height == Run(size, EMPTY, others).log[j].height
    && Run(size, EMPTY, events).log[i].id != Run(size, EMPTY, others).log[j].id
  }

  ghost predicate CanFork(size: nat, n: nat, f: nat) {
    exists received, members, faulty, events, others, i, j ::
      Fork(size, n, f, received, members, faulty, events, others, i, j)
  }

  lemma BackedAgree(size: nat, n: nat, received: set<Certificate>, members: set<Voter>, faulty: set<Voter>, v: Validation, w: Validation)
    requires HonestSigning(received, members, faulty) && |members| == n && 2 * Quorum.QuorumForVoters(size) > n + |faulty|
    requires Backed(size, received, v) && Backed(size, received, w) && v.height == w.height
    ensures v.id == w.id
  {
    DistinctSize(v.voters);
    DistinctSize(w.voters);
    var a, b := VoterSet(v.voters), VoterSet(w.voters);
    Quorum.SharedHonest(n, Quorum.QuorumForVoters(size), |faulty|, members, faulty, a, b);
    var x :| x in a * b - faulty;
  }

  lemma ForkNeeds(size: nat, n: nat, f: nat, received: set<Certificate>, members: set<Voter>, faulty: set<Voter>,
                  events: seq<Event>, others: seq<Event>, i: nat, j: nat)
    requires Fork(size, n, f, received, members, faulty, events, others, i, j)
    ensures Quorum.QuorumForVoters(size) <= n && 2 * Quorum.QuorumForVoters(size) <= n + f
  {
    RunKeeps(size, received, EMPTY, events);
    RunKeeps(size, received, EMPTY, others);
    var v, w := Run(size, EMPTY, events).log[i], Run(size, EMPTY, others).log[j];
    if 2 * Quorum.QuorumForVoters(size) > n + |faulty| {
      BackedAgree(size, n, received, members, faulty, v, w);
    }
    DistinctSize(v.voters);
    Quorum.Smaller(VoterSet(v.voters), members);
  }

  // ---------- Runs that finalize a certificate ----------

  /** An uninterrupted receipt, validation and finalization. */
  function Finalizing(c: Certificate): seq<Event> {
    [ReceiveCheck(0, c)] + [ReceiveInsert(0)] + [ValidateRead(0, c.hash)] + [ValidateWrite(0, 0)]
    + [FinalizeRead(0, c.hash)] + [FinalizeWrite(0)]
  }

  lemma FinalizingRuns(size: nat, c: Certificate)
    requires |c.voters| >= Quorum.QuorumForVoters(size) && c.signatureLength == 64
    ensures Run(size, EMPTY, Finalizing(c)).log == [Validation(c.hash, c.voters, c.height, 0)]
  {
    var a := [ReceiveCheck(0, c)] + [ReceiveInsert(0)];
    var b := a + [ValidateRead(0, c.hash)] + [ValidateWrite(0, 0)];
    assert [] + [ReceiveCheck(0, c)] == [ReceiveCheck(0, c)];
    RunTwo(size, EMPTY, [], ReceiveCheck(0, c), ReceiveInsert(0));
    RunTwo(size, EMPTY, a, ValidateRead(0, c.hash), ValidateWrite(0, 0));
    RunTwo(size, EMPTY, b, FinalizeRead(0, c.hash), FinalizeWrite(0));
  }

  lemma FinalizingOnly(received: set<Certificate>, c: Certificate)
    requires c in received
    ensures OnlyReceived(received, Finalizing(c))
  {
  }

  /** Voters lo, lo + 1, ... */
  function Block(lo: nat, q: nat): (voters: seq<Voter>)
    ensures |voters| == q && forall i :: 0 <= i < q ==> voters[i] == lo + i
  {
    seq(q, i requires 0 <= i => lo + i)
  }

  lemma BlockSet(lo: nat, q: nat)
    ensures VoterSet(Block(lo, q)) == Quorum.Range(lo, lo + q)
  {
    forall x | x in Quorum.Range(lo, lo + q) ensures x in Block(lo, q) {
      assert Block(lo, q)[x - lo] == x;
    }
  }

  /** Two certificates that share only faulty voters. */
  lemma PairHonest(c: Certificate, d: Certificate, members: set<Voter>, faulty: set<Voter>)
    requires faulty <= members && VoterSet(c.voters) <= members && VoterSet(d.voters) <= members
    requires forall i, j :: 0 <= i < j < |c.voters| ==> c.voters[i] != c.voters[j]
    requires forall i, j :: 0 <= i < j < |d.voters| ==> d.voters[i] != d.voters[j]
    requires VoterSet(c.voters) * VoterSet(d.voters) <= faulty
    ensures HonestSigning({c, d}, members, faulty)
  {
    forall x, y, v | x in {c, d} && y in {c, d} && v in x.voters && v in y.voters && v !in faulty ensures x.hash == y.hash {
      assert v in VoterSet(x.voters) && v in VoterSet(y.voters);
    }
  }

  lemma ForkOf(size: nat, n: nat, f: nat, c: Certificate, d: Certificate, members: set<Voter>, faulty: set<Voter>)
    requires HonestSigning({c, d}, members, faulty) && |members| == n && |faulty| <= f
    requires c.hash != d.hash && c.height == d.height && c.signatureLength == d.signatureLength == 64
    requires |c.voters| >= Quorum.QuorumForVoters(size) && |d.voters| >= Quorum.QuorumForVoters(size)
    ensures CanFork(size, n, f)
  {
    FinalizingRuns(size, c);
    FinalizingRuns(size, d);
    FinalizingOnly({c, d}, c);
    FinalizingOnly({c, d}, d);
    MakeFork(size, n, f, {c, d}, members, faulty, Finalizing(c), Finalizing(d), 0, 0);
  }

  lemma MakeFork(size: nat, n: nat, f: nat, received: set<Certificate>, members: set<Voter>, faulty: set<Voter>,
                 events: seq<Event>, others: seq<Event>, i: nat, j: nat)
    requires Fork(size, n, f, received, members, faulty, events, others, i, j)
    ensures CanFork(size, n, f)
  {
  }

  /** Two lists of q of n voters with at most f in common. */
  lemma TwoLists(n: nat, q: nat, f: nat) returns (a: seq<Voter>, b: seq<Voter>, members: set<Voter>, faulty: set<Voter>)
    requires q <= n && 2 * q <= n + f
    ensures |a| == |b| == q && |members| == n && |faulty| <= f
    ensures faulty <= members && VoterSet(a) <= members && VoterSet(b) <= members && VoterSet(a) * VoterSet(b) <= faulty
    ensures forall i, j :: 0 <= i < j < q ==> a[i] != a[j] && b[i] != b[j]
  {
    a, b, members := Block(0, q), Block(n - q, q), Quorum.Range(0, n);
    faulty := Quorum.Range(0, q) * Quorum.Range(n - q, n);
    BlockSet(0, q);
    BlockSet(n - q, q);
    Quorum.FewShared(n, q, q, f);
  }

  lemma ForkExists(size: nat, n: nat, f: nat)
    requires Quorum.QuorumForVoters(size) <= n && 2 * Quorum.QuorumForVoters(size) <= n + f
    ensures CanFork(size, n, f)
  {
    var a, b, members, faulty := TwoLists(n, Quorum.QuorumForVoters(size), f);
    var c, d := Certificate(0, 0, a, 64), Certificate(1, 0, b, 64);
    PairHonest(c, d, members, faulty);
    ForkOf(size, n, f, c, d, members, faulty);
  }

  /** Two nodes configured for `size` members can finalize different blocks at one height, among n members of whom at
      most f sign twice, exactly when the threshold can be met and twice the threshold is at most n + f. */
  lemma ForkIff(size: nat, n: nat, f: nat)
    ensures CanFork(size, n, f) <==> Quorum.QuorumForVoters(size) <= n && 2 * Quorum.QuorumForVoters(size) <= n + f
  {
    if Quorum.QuorumForVoters(size) <= n && 2 * Quorum.QuorumForVoters(size) <= n + f {
      ForkExists(size, n, f);
    }
    forall received, members, faulty, events, others, i, j | Fork(size, n, f, received, members, faulty, events, others, i, j)
      ensures Quorum.QuorumForVoters(size) <= n && 2 * Quorum.QuorumForVoters(size) <= n + f
    {
      ForkNeeds(size, n, f, received, members, faulty, events, others, i, j);
    }
  }

  /** Nodes configured for the number of members never do while fewer than a third of them sign twice. */
  lemma FinalizedAgree(n: nat, f: nat)
    requires 3 * f < n
    ensures !CanFork(n, n, f)
  {
    ForkIff(n, n, f);
    Quorum.VotersQuorumSafe(n, f);
  }

  /** That voters are distinct is left to others: the validator counts the entries of the list, so one voter listed
      often enough finalizes any block. */
  lemma OneVoterFinalizes(size: nat, hash: Hash, height: nat, v: Voter) returns (c: Certificate, events: seq<Event>)
    ensures VoterSet(c.voters) <= {v} && c.hash == hash && c.height == height && OnlyReceived({c}, events)
    ensures hash in Run(size, EMPTY, events).finalized
  {
    c := Certificate(hash, height, seq(Quorum.QuorumForVoters(size), _ => v), 64);
    events := Finalizing(c);
    FinalizingRuns(size, c);
    RunKeeps(size, {c}, EMPTY, events);
    assert Run(size, EMPTY, events).log[0].id == hash;
  }

  // ---------- A finalized certificate and the pending ones ----------

  ghost predicate Settled(s: State) {
    s.pending.Keys !! s.finalized
  }

  /** The second section of a receipt whose certificate has been finalized since the first. */
  ghost predicate Late(s: State, e: Event) {
    e.ReceiveInsert? && e.call in s.arriving && s.arriving[e.call].hash in s.finalized
  }

  /** One step brings a finalized certificate back exactly when it completes a late receipt. */
  lemma SettledIff(n: nat, s: State, e: Event)
    requires Settled(s)
    ensures Settled(Step(n, s, e)) <==> !Late(s, e)
  {
    if e.ReceiveInsert? && e.call in s.arriving {
      assert s.arriving[e.call].hash in Step(n, s, e).pending.Keys;
    }
  }

  ghost predicate SettledThroughout(n: nat, events: seq<Event>) {
    forall i :: 0 <= i <= |events| ==> Settled(Run(n, EMPTY, events[..i]))
  }

  ghost predicate NeverLate(n: nat, events: seq<Event>) {
    forall i :: 0 <= i < |events| ==> !Late(Run(n, EMPTY, events[..i]), events[i])
  }

  lemma SettledLonger(n: nat, events: seq<Event>, e: Event)
    ensures SettledThroughout(n, events + [e]) <==> SettledThroughout(n, events) && Settled(Run(n, EMPTY, events + [e]))
  {
    var all := events + [e];
    assert all[..|all|] == all;
    assert forall i :: 0 <= i <= |events| ==> all[..i] == events[..i];
  }

  lemma LateLonger(n: nat, events: seq<Event>, e: Event)
    ensures NeverLate(n, events + [e]) <==> NeverLate(n, events) && !Late(Run(n, EMPTY, events), e)
  {
    var all := events + [e];
    assert all[..|events|] == events && all[|events|] == e;
    assert forall i :: 0 <= i <= |events| ==> all[..i] == events[..i];
    assert forall i :: 0 <= i < |events| ==> all[i] == events[i];
  }

  lemma SettledNext(n: nat, events: seq<Event>, e: Event)
    requires SettledThroughout(n, events)
    ensures Settled(Run(n, EMPTY, events + [e])) <==> !Late(Run(n, EMPTY, events), e)
  {
    assert events[..|events|] == events;
    RunAppend(n, EMPTY, events, e);
    SettledIff(n, Run(n, EMPTY, events), e);
  }

  lemma SettledAtFirst(n: nat)
    ensures SettledThroughout(n, []) && NeverLate(n, [])
  {
  }

  /** A run keeps the two collections apart throughout exactly when no receipt in it is late. */
  lemma {:induction false} SettledThroughoutIff(n: nat, events: seq<Event>)
    ensures SettledThroughout(n, events) <==> NeverLate(n, events)
  {
    if events == [] {
      SettledAtFirst(n);
    } else {
      var before, e := events[..|events| - 1], events[|events| - 1];
      assert events == before + [e];
      SettledThroughoutIff(n, before);
      ThroughoutLonger(n, before, e);
    }
  }

  lemma ThroughoutLonger(n: nat, events: seq<Event>, e: Event)
    requires SettledThroughout(n, events) <==> NeverLate(n, events)
    ensures SettledThroughout(n, events + [e]) <==> NeverLate(n, events + [e])
  {
    SettledLonger(n, events, e);
    LateLonger(n, events, e);
    if SettledThroughout(n, events) {
      SettledNext(n, events, e);
    }
  }

  /** When nothing comes between the two sections of a receipt, this cannot happen. */
  lemma AtomicReceiveSettles(n: nat, s: State, x: Call, c: Certificate)
    requires Settled(s) && s.arriving == map[]
    ensures
      var s' := Step(n, Step(n, s, ReceiveCheck(x, c)), ReceiveInsert(x));
      Settled(s') && s'.arriving == map[]
  {
    SettledIff(n, s, ReceiveCheck(x, c));
    SettledIff(n, Step(n, s, ReceiveCheck(x, c)), ReceiveInsert(x));
  }

  lemma RunAppend(n: nat, s: State, events: seq<Event>, e: Event)
    ensures Run(n, s, events + [e]) == Step(n, Run(n, s, events), e)
  {
    assert (events + [e])[..|events|] == events;
  }

  const CERT := Certificate(7, 0, [5], 64)

  lemma TwoArrivals() returns (events: seq<Event>)
    ensures OnlyReceived({CERT}, events)
    ensures Run(1, EMPTY, events) == EMPTY.(arriving := map[1 := CERT], pending := map[7 := CERT])
  {
    var a := [] + [ReceiveCheck(0, CERT)];
    RunAppend(1, EMPTY, [], ReceiveCheck(0, CERT));
    var b := a + [ReceiveCheck(1, CERT)];
    RunAppend(1, EMPTY, a, ReceiveCheck(1, CERT));
    assert Run(1, EMPTY, b).arriving == map[0 := CERT, 1 := CERT];
    events := b + [ReceiveInsert(0)];
    RunAppend(1, EMPTY, b, ReceiveInsert(0));
  }

  lemma RunTwo(n: nat, s: State, events: seq<Event>, e: Event, f: Event)
    ensures Run(n, s, events + [e] + [f]) == Step(n, Step(n, Run(n, s, events), e), f)
  {
    RunAppend(n, s, events, e);
    RunAppend(n, s, events + [e], f);
  }

  const PASSED := Validation(7, [5], 0, 0)

  lemma CertPasses(s: State)
    requires s == EMPTY.(arriving := map[1 := CERT], pending := map[7 := CERT])
    ensures Step(1, Step(1, s, ValidateRead(2, 7)), ValidateWrite(2, 0)) == s.(validated := map[7 := PASSED])
  {
    assert Step(1, s, ValidateRead(2, 7)).checking == map[2 := CERT];
  }

  lemma CertSettles(s: State)
    requires s == EMPTY.(arriving := map[1 := CERT], pending := map[7 := CERT], validated := map[7 := PASSED])
    ensures
      var s' := Step(1, Step(1, s, FinalizeRead(3, 7)), FinalizeWrite(3));
      s'.finalized == {7} && s'.arriving == map[1 := CERT]
  {
    assert Step(1, s, FinalizeRead(3, 7)).approving == map[3 := PASSED];
  }

  /** Otherwise it can: one receipt of a certificate is overtaken by another and its finalization. */
  lemma Overtaken() returns (events: seq<Event>)
    ensures OnlyReceived({CERT}, events) && !Settled(Run(1, EMPTY, events))
  {
    var a := TwoArrivals();
    var b := a + [ValidateRead(2, 7)] + [ValidateWrite(2, 0)];
    RunTwo(1, EMPTY, a, ValidateRead(2, 7), ValidateWrite(2, 0));
    CertPasses(Run(1, EMPTY, a));
    var c := b + [FinalizeRead(3, 7)] + [FinalizeWrite(3)];
    RunTwo(1, EMPTY, b, FinalizeRead(3, 7), FinalizeWrite(3));
    CertSettles(Run(1, EMPTY, b));
    events := c + [ReceiveInsert(1)];
    RunAppend(1, EMPTY, c, ReceiveInsert(1));
    assert 7 in Run(1, EMPTY, events).pending.Keys;
  }
}
