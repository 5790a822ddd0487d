// Slashing (savitri-consensus/src/slashing.rs, types/slashing.rs): accepted reports are spaced by a
// cooldown, jail a validator once it has collected a share of the allowed slashes, and finally remove it.
module Slashing {
  import opened Arithmetic

  type Id = nat

  datatype Misbehavior = DoubleVote | Equivocation | Downtime | InvalidProposal | MaliciousGradient

  datatype Config = Config(doubleVote: nat, equivocation: nat, downtime: nat, invalidProposal: nat, maliciousGradient: nat,
                           jailThreshold: nat, jailDuration: nat, cooldown: nat, maxSlashes: nat)

  datatype Record = Record(misbehavior: Misbehavior, epoch: nat, slot: nat, evidence: nat, permille: nat)

  datatype Validator = Validator(cumulative: nat, lastSlash: nat, jailedUntil: nat, permanent: bool, records: seq<Record>)

  datatype Outcome = Accepted(permille: nat) | AlreadySlashed | Jailed | Cooldown

  const CLEAN := Validator(0, 0, 0, false, [])

  function PermilleFor(c: Config, m: Misbehavior): nat {
    match m
    case DoubleVote => c.doubleVote
    case Equivocation => c.equivocation
    case Downtime => c.downtime
    case InvalidProposal => c.invalidProposal
    case MaliciousGradient => c.maliciousGradient
  }

  /** Share of the allowed slashes that k slashes make, in permille. */
  function Ratio(c: Config, k: nat): nat {
    if c.maxSlashes > 0 then k * 1000 / c.maxSlashes else 1000
  }

  // ---------- Steps of one validator ----------

  function Report(c: Config, v: Validator, m: Misbehavior, epoch: nat, slot: nat, evidence: nat): (Validator, Outcome) {
    if v.permanent then (v, AlreadySlashed)
    else if v.jailedUntil > epoch then (v, Jailed)
    else if v.lastSlash > 0 && (if epoch < v.lastSlash then 0 else epoch - v.lastSlash) < c.cooldown then (v, Cooldown)
    else
      var permille := PermilleFor(c, m);
      var k := v.cumulative + 1;
      var slashed := v.(records := v.records + [Record(m, epoch, slot, evidence, permille)], cumulative := k, lastSlash := epoch);
      if k >= c.maxSlashes then (slashed.(permanent := true), Accepted(permille))
      else if Ratio(c, k) >= c.jailThreshold then (slashed.(jailedUntil := epoch + c.jailDuration), Accepted(permille))
      else (slashed, Accepted(permille))
  }

  function Unjail(v: Validator, epoch: nat): Validator {
    if !v.permanent && v.jailedUntil <= epoch then v.(jailedUntil := 0) else v
  }

  // ---------- The manager ----------

  class SlashingManager {
    const config: Config
    var states: map<Id, Validator>

    constructor (config: Config)
      ensures this.config == config && states == map[]
    {
      this.config := config;
      states := map[];
    }

    ghost function Of(id: Id): Validator
      reads this
    {
      if id in states then states[id] else CLEAN
    }

    method ReportMisbehavior(id: Id, m: Misbehavior, epoch: nat, slot: nat, evidence: nat) returns (outcome: Outcome)
      modifies this
      ensures (Of(id), outcome) == Report(config, old(Of(id)), m, epoch, slot, evidence)
      ensures states.Keys == old(states).Keys + {id}
      ensures forall x :: x != id ==> Of(x) == old(Of(x))
    {
      var v := if id in states then states[id] else CLEAN;
      states := states[id := v];
      if v.permanent { return AlreadySlashed; }
      if v.jailedUntil > epoch { return Jailed; }
      var since := if epoch < v.lastSlash then 0 else epoch - v.lastSlash;
      if v.lastSlash > 0 && since < config.cooldown { return Cooldown; }
      var permille := PermilleFor(config, m);
      v := v.(records := v.records + [Record(m, epoch, slot, evidence, permille)]);
      v := v.(cumulative := v.cumulative + 1, lastSlash := epoch);
      if v.cumulative >= config.maxSlashes {
        v := v.(permanent := true);
      } else {
        var ratio := if config.maxSlashes > 0 then v.cumulative * 1000 / config.maxSlashes else 1000;
        if ratio >= config.jailThreshold {
          v := v.(jailedUntil := epoch + config.jailDuration);
        }
      }
      states := states[id := v];
      outcome := Accepted(permille);
    }

    /** Lists the validators whose jail term has run out. */
    method ProcessJailExpiry(epoch: nat) returns (expired: seq<Id>)
      ensures forall id :: id in expired <==>
                id in states && !states[id].permanent && 0 < states[id].jailedUntil <= epoch
      ensures forall i, j :: 0 <= i < j < |expired| ==> expired[i] != expired[j]
    {
      expired := [];
      var rest := states.Keys;
      while rest != {}
        invariant rest <= states.Keys
        invariant forall id :: id in expired <==>
                    id in states && id !in rest && !states[id].permanent && 0 < states[id].jailedUntil <= epoch
        invariant forall i, j :: 0 <= i < j < |expired| ==> expired[i] != expired[j]
        decreases rest
      {
        var id :| id in rest;
        var v := states[id];
        if !v.permanent && v.jailedUntil > 0 && v.jailedUntil <= epoch {
          expired := expired + [id];
        }
        rest := rest - {id};
      }
    }

    method UnjailValidator(id: Id, epoch: nat) returns (outcome: Outcome)
      modifies this
      ensures Of(id) == Unjail(old(Of(id)), epoch)
      ensures outcome == if old(Of(id)).permanent then AlreadySlashed
                         else if old(Of(id)).jailedUntil <= epoch then Accepted(0) else Jailed
      ensures states.Keys == old(states).Keys && forall x :: x != id ==> Of(x) == old(Of(x))
    {
      if id !in states { return Accepted(0); }
      var v := states[id];
      if v.permanent { return AlreadySlashed; }
      if v.jailedUntil > epoch { return Jailed; }
      states := states[id := v.(jailedUntil := 0)];
      outcome := Accepted(0);
    }
  }

  // ---------- Histories ----------

  datatype Event = ReportAt(misbehavior: Misbehavior, epoch: nat, slot: nat, evidence: nat) | UnjailAt(epoch: nat)

  function Step(c: Config, v: Validator, e: Event): Validator {
    match e
    case ReportAt(m, epoch, slot, evidence) => Report(c, v, m, epoch, slot, evidence).0
    case UnjailAt(epoch) => Unjail(v, epoch)
  }

  function Run(c: Config, events: seq<Event>): Validator {
    if events == [] then CLEAN else Step(c, Run(c, events[..|events| - 1]), events[|events| - 1])
  }

  lemma RunAppend(c: Config, events: seq<Event>, e: Event)
    ensures Run(c, events + [e]) == Step(c, Run(c, events), e)
  {
    assert (events + [e])[..|events|] == events;
  }

  ghost predicate Chronological(events: seq<Event>) {
    forall i, j :: 0 <= i < j < |events| ==> events[i].epoch <= events[j].epoch
  }

  /** The k-th slash jails (one that removes the validator does not jail it as well). */
  predicate Jails(c: Config, k: nat) {
    k < c.maxSlashes && Ratio(c, k) >= c.jailThreshold
  }

  /** First epoch at which a report can be accepted after the k-th slash at epoch e. */
  function NextSlash(c: Config, k: nat, e: nat): nat {
    var cooled := if e > 0 then e + c.cooldown else e;
    var freed := if Jails(c, k) then e + c.jailDuration else e;
    if cooled < freed then freed else cooled
  }

  /** What a history up to epoch `now` leaves behind. */
  ghost predicate Inv(c: Config, now: nat, v: Validator) {
    var k := |v.records|;
    && v.cumulative == k
    && (v.permanent <==> k > 0 && k >= c.maxSlashes)
    && k <= (if c.maxSlashes == 0 then 1 else c.maxSlashes)
    && v.lastSlash == (if k == 0 then 0 else v.records[k - 1].epoch)
    && v.lastSlash <= now
    && (v.jailedUntil <= now || (k > 0 && Jails(c, k) && v.jailedUntil == v.lastSlash + c.jailDuration))
    && (k > 0 && Jails(c, k) ==> v.jailedUntil == v.lastSlash + c.jailDuration || v.lastSlash + c.jailDuration <= now)
    && Spaced(c, v.records)
  }

  /** Consecutive slashes keep the distance that cooldown and jail ask for. */
  ghost predicate Spaced(c: Config, records: seq<Record>) {
    forall i :: 0 <= i < |records| - 1 ==> records[i + 1].epoch >= NextSlash(c, i + 1, records[i].epoch)
  }

  lemma RatioGrows(c: Config, j: nat, k: nat)
    requires j <= k
    ensures Ratio(c, j) <= Ratio(c, k)
  {
    if c.maxSlashes > 0 {
      DivMonotone(j * 1000, k * 1000, c.maxSlashes);
    }
  }

  /** Once slashes jail, every further one short of removal jails as well. */
  lemma JailsStays(c: Config, j: nat, k: nat)
    requires Jails(c, j) && j <= k < c.maxSlashes
    ensures Jails(c, k)
  {
    RatioGrows(c, j, k);
  }

  /** Exactly when a report is accepted. */
  lemma AcceptedIff(c: Config, now: nat, v: Validator, m: Misbehavior, epoch: nat, slot: nat, evidence: nat)
    requires Inv(c, now, v) && now <= epoch
    ensures Report(c, v, m, epoch, slot, evidence).1.Accepted? <==>
            !v.permanent && (v.records == [] || epoch >= NextSlash(c, |v.records|, v.lastSlash))
    ensures
      var (v', outcome) := Report(c, v, m, epoch, slot, evidence);
      if outcome.Accepted? then |v'.records| == |v.records| + 1 && v'.lastSlash == epoch else v' == v
  {
  }

  /** Whatever came before: which answer a report gets. The removed are told so, then the jailed, then those slashed less
      than a cooldown ago, unless that was at epoch 0. */
  lemma AnswerIff(c: Config, v: Validator, m: Misbehavior, epoch: nat, slot: nat, evidence: nat)
    ensures
      var outcome := Report(c, v, m, epoch, slot, evidence).1;
      && (outcome == AlreadySlashed <==> v.permanent)
      && (outcome == Jailed <==> !v.permanent && epoch < v.jailedUntil)
      && (outcome == Cooldown <==>
          !v.permanent && epoch >= v.jailedUntil && c.cooldown > 0 && v.lastSlash > 0 && epoch < v.lastSlash + c.cooldown)
  {
  }

  /** An accepted report takes the share set for its kind of misbehavior and is recorded as it came. It removes the
      validator exactly when it makes the allowed number full, and otherwise jails it, for the set duration, exactly
      when the slashes so far make the set share of that number. */
  lemma AcceptedIs(c: Config, v: Validator, m: Misbehavior, epoch: nat, slot: nat, evidence: nat)
    requires Report(c, v, m, epoch, slot, evidence).1.Accepted?
    ensures
      var (t, outcome) := Report(c, v, m, epoch, slot, evidence);
      var k := v.cumulative + 1;
      && (m == DoubleVote ==> outcome.permille == c.doubleVote)
      && (m == Equivocation ==> outcome.permille == c.equivocation)
      && (m == Downtime ==> outcome.permille == c.downtime)
      && (m == InvalidProposal ==> outcome.permille == c.invalidProposal)
      && (m == MaliciousGradient ==> outcome.permille == c.maliciousGradient)
      && t.records == v.records + [Record(m, epoch, slot, evidence, outcome.permille)]
      && t.cumulative == k && t.lastSlash == epoch && (t.permanent <==> v.permanent || k >= c.maxSlashes)
      && t.jailedUntil == if k < c.maxSlashes && k * 1000 >= c.jailThreshold * c.maxSlashes
                          then epoch + c.jailDuration else v.jailedUntil
  {
    var k := v.cumulative + 1;
    if c.maxSlashes > 0 {
      ShareIff(k * 1000, c.maxSlashes, c.jailThreshold);
    }
  }

  lemma ShareIff(a: nat, d: nat, q: nat)
    requires d > 0
    ensures a / d >= q <==> a >= q * d
  {
    DivBounds(a, d);
    if a / d >= q {
      MulMonotone(d, q, a / d);
    } else {
      MulMonotone(d, a / d + 1, q);
    }
  }

  /** Unjailing lifts a term that has run out, and nothing else. */
  lemma UnjailIs(v: Validator, epoch: nat)
    ensures Unjail(v, epoch).jailedUntil == if v.permanent || epoch < v.jailedUntil then v.jailedUntil else 0
    ensures Unjail(v, epoch) == v.(jailedUntil := Unjail(v, epoch).jailedUntil)
  {
  }

  lemma StepKeeps(c: Config, now: nat, v: Validator, e: Event)
    requires Inv(c, now, v) && now <= e.epoch
    ensures Inv(c, e.epoch, Step(c, v, e))
    ensures v.records <= Step(c, v, e).records && (v.permanent ==> Step(c, v, e).permanent)
  {
    if e.ReportAt? {
      AcceptedIff(c, now, v, e.misbehavior, e.epoch, e.slot, e.evidence);
    }
  }

  /** In every chronological history of reports and unjailings the accepted slashes are spaced, never
      exceed the maximum, and remove the validator exactly when they reach it. */
  lemma {:induction false} RunKeeps(c: Config, events: seq<Event>)
    requires Chronological(events)
    ensures Inv(c, if events == [] then 0 else events[|events| - 1].epoch, Run(c, events))
  {
    if events != [] {
      var n := |events| - 1;
      RunKeeps(c, events[..n]);
      StepKeeps(c, if n == 0 then 0 else events[n - 1].epoch, Run(c, events[..n]), events[n]);
    }
  }

  /** What survives when epochs arrive in any order: the counts, and the cooldown unless it is zero. */
  ghost predicate Counted(c: Config, v: Validator) {
    var k := |v.records|;
    && v.cumulative == k
    && (v.permanent <==> k > 0 && k >= c.maxSlashes)
    && k <= (if c.maxSlashes == 0 then 1 else c.maxSlashes)
    && v.lastSlash == (if k == 0 then 0 else v.records[k - 1].epoch)
    && (c.cooldown > 0 ==>
          forall i :: 0 <= i < k - 1 && v.records[i].epoch > 0 ==> v.records[i + 1].epoch >= v.records[i].epoch + c.cooldown)
  }

  lemma {:induction false} AnyOrderKeeps(c: Config, events: seq<Event>)
    ensures Counted(c, Run(c, events))
  {
    if events != [] {
      AnyOrderKeeps(c, events[..|events| - 1]);
    }
  }

  // ---------- How fast a validator can be removed ----------

  /** Earliest epoch of the k-th slash when the first is at epoch e. */
  function Earliest(c: Config, k: nat, e: nat): nat
    requires k >= 1
  {
    if k == 1 then e else NextSlash(c, k - 1, Earliest(c, k - 1, e))
  }

  lemma {:induction false} NotBefore(c: Config, records: seq<Record>, k: nat)
    requires Spaced(c, records) && 1 <= k <= |records|
    ensures records[k - 1].epoch >= Earliest(c, k, records[0].epoch)
  {
    if k > 1 {
      NotBefore(c, records, k - 1);
      assert records[(k - 2) + 1].epoch >= NextSlash(c, k - 1, records[k - 2].epoch);
    }
  }

  lemma CoolsDown(c: Config, k: nat, e: nat)
    ensures NextSlash(c, k, e) >= e
    ensures e > 0 ==> NextSlash(c, k, e) >= e + c.cooldown
  {
  }

  /** k slashes, the first after epoch 0, span at least k - 1 cooldowns. */
  lemma {:induction false} SpansCooldowns(c: Config, k: nat, e: nat)
    requires k >= 1 && e > 0
    ensures Earliest(c, k, e) >= e
    ensures Earliest(c, k, e) >= e + c.cooldown * (k - 1)
  {
    if k > 1 {
      var before := Earliest(c, k - 1, e);
      SpansCooldowns(c, k - 1, e);
      CoolsDown(c, k - 1, before);
      Distribute(c.cooldown, k - 1, 1);
    }
  }

  /** In every history: the k-th slash comes no earlier than `Earliest`, so removal takes that long. */
  lemma RemovalTakes(c: Config, events: seq<Event>, k: nat)
    requires Chronological(events) && 1 <= k <= |Run(c, events).records|
    ensures
      var r := Run(c, events).records;
      && r[k - 1].epoch >= Earliest(c, k, r[0].epoch)
      && (r[0].epoch > 0 ==> r[k - 1].epoch >= r[0].epoch + c.cooldown * (k - 1))
  {
    RunKeeps(c, events);
    var r := Run(c, events).records;
    NotBefore(c, r, k);
    if r[0].epoch > 0 {
      SpansCooldowns(c, k, r[0].epoch);
    }
  }

  /** Reports at exactly the earliest epochs. */
  function Fastest(c: Config, k: nat, e: nat): seq<Event> {
    if k == 0 then [] else Fastest(c, k - 1, e) + [ReportAt(DoubleVote, Earliest(c, k, e), 0, 0)]
  }

  lemma {:induction false} FastestShape(c: Config, k: nat, e: nat)
    ensures |Fastest(c, k, e)| == k
    ensures forall i :: 0 <= i < k ==> Fastest(c, k, e)[i].epoch == Earliest(c, i + 1, e)
    ensures Chronological(Fastest(c, k, e))
  {
    if k > 0 {
      FastestShape(c, k - 1, e);
      var before, all := Fastest(c, k - 1, e), Fastest(c, k, e);
      if k > 1 {
        CoolsDown(c, k - 1, Earliest(c, k - 1, e));
        assert before[k - 2].epoch <= Earliest(c, k, e);
      }
      assert forall i :: 0 <= i < k - 1 ==> all[i] == before[i];
    }
  }

  lemma AcceptedNext(c: Config, events: seq<Event>, epoch: nat)
    requires Chronological(events) && events != []
    requires var v := Run(c, events);
             && v.records != [] && !v.permanent && events[|events| - 1].epoch == v.lastSlash
             && epoch == NextSlash(c, |v.records|, v.lastSlash)
    ensures
      var v, v' := Run(c, events), Run(c, events + [ReportAt(DoubleVote, epoch, 0, 0)]);
      |v'.records| == |v.records| + 1 && v'.lastSlash == epoch
  {
    var v := Run(c, events);
    RunAppend(c, events, ReportAt(DoubleVote, epoch, 0, 0));
    RunKeeps(c, events);
    CoolsDown(c, |v.records|, v.lastSlash);
    AcceptedIff(c, v.lastSlash, v, DoubleVote, epoch, 0, 0);
  }

  lemma AcceptedFirst(c: Config, e: nat)
    ensures |Run(c, Fastest(c, 1, e)).records| == 1 && Run(c, Fastest(c, 1, e)).lastSlash == e
  {
    RunAppend(c, [], ReportAt(DoubleVote, e, 0, 0));
    AcceptedIff(c, 0, CLEAN, DoubleVote, e, 0, 0);
  }

  /** The bound is attained: these reports are all accepted. */
  lemma {:induction false} FastestAccepted(c: Config, k: nat, e: nat)
    requires 1 <= k <= (if c.maxSlashes == 0 then 1 else c.maxSlashes)
    ensures Chronological(Fastest(c, k, e))
    ensures |Run(c, Fastest(c, k, e)).records| == k
    ensures Run(c, Fastest(c, k, e)).lastSlash == Earliest(c, k, e)
  {
    FastestShape(c, k, e);
    if k == 1 {
      AcceptedFirst(c, e);
    } else {
      FastestAccepted(c, k - 1, e);
      FastestShape(c, k - 1, e);
      RunKeeps(c, Fastest(c, k - 1, e));
      AcceptedNext(c, Fastest(c, k - 1, e), Earliest(c, k, e));
    }
  }

  const DEFAULTS := Config(500, 500, 100, 250, 300, 600, 10, 5, 5)

  lemma DefaultEarliest(e: nat)
    ensures e > 0 ==> Earliest(DEFAULTS, 5, e) == e + 30
    ensures e == 0 ==> Earliest(DEFAULTS, 3, e) == 0 && Earliest(DEFAULTS, 5, e) == 20
  {
    assert Ratio(DEFAULTS, 1) == 200 && Ratio(DEFAULTS, 2) == 400 && Ratio(DEFAULTS, 3) == 600 && Ratio(DEFAULTS, 4) == 800;
    assert Earliest(DEFAULTS, 2, e) == NextSlash(DEFAULTS, 1, e);
    assert Earliest(DEFAULTS, 3, e) == NextSlash(DEFAULTS, 2, Earliest(DEFAULTS, 2, e));
    assert Earliest(DEFAULTS, 4, e) == NextSlash(DEFAULTS, 3, Earliest(DEFAULTS, 3, e));
  }

  /** With the default settings every history that removes a validator takes 30 epochs from a first slash past
      epoch 0, or 20 from one at epoch 0, which no cooldown follows. */
  lemma DefaultTimeline(events: seq<Event>)
    requires Chronological(events) && Run(DEFAULTS, events).permanent
    ensures
      var r := Run(DEFAULTS, events).records;
      |r| == 5 && r[4].epoch >= if r[0].epoch > 0 then r[0].epoch + 30 else 20
  {
    RunKeeps(DEFAULTS, events);
    RemovalTakes(DEFAULTS, events, 5);
    DefaultEarliest(Run(DEFAULTS, events).records[0].epoch);
  }

  /** Both are attained, and three reports at epoch 0 are all accepted. */
  lemma DefaultFastest(e: nat)
    ensures
      var v := Run(DEFAULTS, Fastest(DEFAULTS, 5, e));
      v.permanent && v.lastSlash == if e > 0 then e + 30 else 20
    ensures
      var v := Run(DEFAULTS, Fastest(DEFAULTS, 3, 0));
      |v.records| == 3 && v.lastSlash == 0
  {
    DefaultEarliest(e);
    DefaultEarliest(0);
    FastestAccepted(DEFAULTS, 5, e);
    RunKeeps(DEFAULTS, Fastest(DEFAULTS, 5, e));
    FastestAccepted(DEFAULTS, 3, 0);
  }
}
