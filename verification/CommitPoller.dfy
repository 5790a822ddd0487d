// The commit poller (savitri-lightnode/src/lattice_runtime.rs): on every tick it tries the cycles
// after the last committed one, up to the cycle before the current one, and stops at the first
// that does not commit. The clock may stall or go backwards.
module CommitPoller {
  import opened Basics
  import opened ByteStrings
  import opened LatticeCells
  import opened LatticeAggregator
  import opened LineageCommit
  import Pivot
  import Quorum
  import opened Weights

  /** What one tick reads: the group and its members by falling score, the round, and for each attempt the
      aggregator at that moment. */
  datatype Tick = NoGroup | Tick(groupId: Bytes, round: u64, ranked: seq<Ranked>, seen: u64 -> State)

  /** A committed cycle, with the aggregator state it was decided on. */
  datatype Entry = Entry(cycle: Cycle, seen: State)

  function LastAttempt(round: u64): u64 {
    if round / 2 == 0 then 0 else round / 2 - 1
  }

  /** What the poller has committed, and whether a panic has ended its task. */
  datatype Progress = Progress(log: seq<Entry>, stopped: bool)

  const BEGIN := Progress([], false)

  /** The pivot of a tick, for every cycle it tries: the election always gives the last ranked peer. */
  function PivotAt(t: Tick): Option<Bytes>
    requires t.Tick?
  {
    if t.ranked == [] then None else Some(t.ranked[|t.ranked| - 1].peer)
  }

  ghost function Verdict(w: Crypto, t: Tick, index: u64): Option<Decision>
    requires t.Tick?
  {
    if PivotAt(t).None? then None else Some(Decide(w, t.seen(index), index, PivotAt(t).value, t.groupId))
  }

  predicate Goes(v: Option<Decision>) {
    v.Some? && v.value.Committed?
  }

  ghost predicate Commits(w: Crypto, t: Tick, index: u64) {
    t.Tick? && Goes(Verdict(w, t, index))
  }

  ghost function EntryOf(w: Crypto, t: Tick, index: u64): Entry
    requires Commits(w, t, index)
  {
    Entry(Verdict(w, t, index).value.cycle, t.seen(index))
  }

  /** After trying cycles |log|, |log| + 1, ... up to `last`, with these verdicts on these states. */
  ghost function Follow(judge: u64 -> Option<Decision>, seen: u64 -> State, p: Progress, last: u64): Progress
    decreases last + 1 - |p.log|
  {
    if p.stopped || |p.log| > last then p
    else
      var v := judge(|p.log|);
      if Goes(v) then Follow(judge, seen, Progress(p.log + [Entry(v.value.cycle, seen(|p.log|))], false), last)
      else Progress(p.log, v == Some(Panics))
  }

  ghost predicate Judges(w: Crypto, t: Tick, judge: u64 -> Option<Decision>) {
    t.Tick? && forall i {:trigger Verdict(w, t, i)} :: judge(i) == Verdict(w, t, i)
  }

  ghost function JudgeOf(w: Crypto, t: Tick): u64 -> Option<Decision>
    requires t.Tick?
  {
    (i: u64) => Verdict(w, t, i)
  }

  ghost function AfterTick(w: Crypto, t: Tick, p: Progress): Progress {
    match t
    case NoGroup => p
    case Tick(_, round, _, _) => Follow(JudgeOf(w, t), t.seen, p, LastAttempt(round))
  }

  ghost function ProgressOf(w: Crypto, ticks: seq<Tick>): Progress {
    if ticks == [] then BEGIN else AfterTick(w, ticks[|ticks| - 1], ProgressOf(w, ticks[..|ticks| - 1]))
  }

  ghost function LogOf(w: Crypto, ticks: seq<Tick>): seq<Entry> {
    ProgressOf(w, ticks).log
  }

  /** Attempts read reachable aggregator states. */
  ghost predicate Reads(w: Crypto, play: Play, t: Tick) {
    t.Tick? ==> forall i :: Inv(w, play, t.seen(i))
  }

  /** `draw` is what the generator gives for each cycle. */
  method TryCycle(w: Crypto, ghost play: Play, t: Tick, cycle: u64, draw: u64 -> nat -> nat) returns (v: Option<Decision>)
    requires t.Tick? && Faithful(w, play.cells) && Reads(w, play, t)
    ensures v == Verdict(w, t, cycle)
  {
    var pivot := Pivot.PivotForCycle(cycle, t.ranked, draw(cycle));
    if pivot.None? {
      return None;
    }
    TableOfInv(w, play, t.seen(cycle));
    var d := TryCommit(w, t.seen(cycle), cycle, pivot.value, t.groupId);
    v := Some(d);
  }

  /** One round of the loop: go on after a commit, otherwise be done. */
  method TryNext(w: Crypto, ghost play: Play, t: Tick, ghost judge: u64 -> Option<Decision>,
                 ghost p: Progress, last: u64, cycle: u64, draw: u64 -> nat -> nat)
    returns (committed: bool, stopped: bool, ghost q: Progress)
    requires Faithful(w, play.cells) && Reads(w, play, t) && Judges(w, t, judge)
    requires !p.stopped && cycle == |p.log| <= last
    ensures committed ==> Follow(judge, t.seen, q, last) == Follow(judge, t.seen, p, last) && |q.log| == |p.log| + 1 && !q.stopped
    ensures !committed ==> q == Follow(judge, t.seen, p, last) && |q.log| == |p.log| && stopped == q.stopped
  {
    var v := TryCycle(w, play, t, cycle, draw);
    assert v == judge(cycle);
    committed := Goes(v);
    stopped := v == Some(Panics);
    q := if committed then Progress(p.log + [Entry(v.value.cycle, t.seen(cycle))], false) else Progress(p.log, stopped);
  }

  /** The number of the last entry. */
  function LastOf(n: nat): Option<u64>
    requires n <= U64
  {
    if n == 0 then None else Some(n - 1)
  }

  /** The loop over the cycles of one tick. */
  method AttemptAll(w: Crypto, ghost play: Play, t: Tick, ghost judge: u64 -> Option<Decision>,
                    before: Option<u64>, ghost p: Progress, draw: u64 -> nat -> nat)
    returns (lastCommitted: Option<u64>, stopped: bool, ghost q: Progress)
    requires Faithful(w, play.cells) && Reads(w, play, t) && Judges(w, t, judge)
    requires !p.stopped && |p.log| <= U64 && before == LastOf(|p.log|)
    ensures q == Follow(judge, t.seen, p, LastAttempt(t.round)) && stopped == q.stopped
    ensures |q.log| <= U64 && lastCommitted == LastOf(|q.log|)
  {
    var last := LastAttempt(t.round);
    lastCommitted, stopped, q := before, false, p;
    var cycle: int := if before.Some? then before.value + 1 else 0;
    while cycle <= last
      invariant cycle == |q.log| <= U64 && lastCommitted == LastOf(|q.log|) && !q.stopped && !stopped
      invariant Follow(judge, t.seen, q, last) == Follow(judge, t.seen, p, last)
    {
      var committed;
      committed, stopped, q := TryNext(w, play, t, judge, q, last, cycle, draw);
      if !committed {
        return;
      }
      lastCommitted, stopped := Some(cycle), false;
      cycle := cycle + 1;
    }
  }

  class Poller {
    var lastCommitted: Option<u64>
    var stopped: bool
    ghost var log: seq<Entry>

    ghost predicate Valid()
      reads this
    {
      |log| <= U64 && lastCommitted == LastOf(|log|)
    }

    ghost function View(): Progress
      reads this
    {
      Progress(log, stopped)
    }

    constructor ()
      ensures Valid() && View() == BEGIN
    {
      lastCommitted, stopped, log := None, false, [];
    }

    method Poll(w: Crypto, ghost play: Play, t: Tick, draw: u64 -> nat -> nat)
      requires Valid() && Faithful(w, play.cells) && Reads(w, play, t)
      modifies this
      ensures Valid() && View() == AfterTick(w, t, old(View()))
    {
      if t.NoGroup? || stopped { return; }
      ghost var p: Progress;
      lastCommitted, stopped, p := AttemptAll(w, play, t, JudgeOf(w, t), lastCommitted, View(), draw);
      log := p.log;
    }
  }

  // ---------- The log of one node ----------

  /** Entry i is the decision for cycle i. */
  ghost predicate Decided(w: Crypto, e: Entry, i: nat) {
    && i < U64
    && e.cycle.index == i
    && Decide(w, e.seen, i, e.cycle.pivot, e.cycle.groupId) == Committed(e.cycle)
  }

  /** What the nodes of a group share. */
  datatype Group = Group(crypto: Crypto, play: Play, size: nat)

  /** A tick of a node of this group reads reachable aggregator states. */
  ghost predicate Follows(g: Group, t: Tick) {
    t.Tick? ==> forall i :: Inv(g.crypto, g.play, t.seen(i)) && t.seen(i).groupSize == g.size
  }

  ghost predicate EntryOk(g: Group, e: Entry, i: nat) {
    Decided(g.crypto, e, i) && Inv(g.crypto, g.play, e.seen) && e.seen.groupSize == g.size
  }

  ghost predicate LogOk(g: Group, log: seq<Entry>) {
    forall i :: 0 <= i < |log| ==> EntryOk(g, log[i], i)
  }

  lemma NextEntryOk(g: Group, t: Tick, i: u64)
    requires Follows(g, t) && Commits(g.crypto, t, i)
    ensures EntryOk(g, EntryOf(g.crypto, t, i), i)
  {
  }

  ghost predicate Filed(judge: u64 -> Option<Decision>, seen: u64 -> State, last: u64, i: nat, e: Entry) {
    i <= last && Goes(judge(i)) && e == Entry(judge(i).value.cycle, seen(i))
  }

  /** An attempt commits exactly when someone is ranked, and the last ranked peer's cell of round 2 * index is certified
      and followed by a quorum of the round after, short of the largest round. */
  lemma CommitsIff(w: Crypto, t: Tick, index: u64)
    requires t.Tick?
    ensures Commits(w, t, index) <==>
            && t.ranked != [] && 2 * index + 1 < LAST_ROUND && t.seen(index).highWater != LAST_ROUND
            && Followed(w, t.seen(index).certified, Key(2 * index, t.ranked[|t.ranked| - 1].peer),
                        Quorum.LatticeQuorum(t.seen(index).groupSize))
  {
    if t.ranked != [] {
      CommittedIff(w, t.seen(index), index, t.ranked[|t.ranked| - 1].peer, t.groupId);
    }
  }

  /** From p the loop gets to q: it commits the cycles after the last one up to the first that does not commit
      or lies too far ahead, and a panic there ends the task. */
  ghost predicate Reached(judge: u64 -> Option<Decision>, seen: u64 -> State, p: Progress, q: Progress, last: u64) {
    && p.log <= q.log
    && (forall i :: |p.log| <= i < |q.log| ==> Filed(judge, seen, last, i, q.log[i]))
    && (|q.log| > last || !Goes(judge(|q.log|)))
    && (q.stopped <==> |q.log| <= last && judge(|q.log|) == Some(Panics))
  }

  lemma {:induction false} FollowIs(judge: u64 -> Option<Decision>, seen: u64 -> State, p: Progress, last: u64)
    requires !p.stopped
    ensures Reached(judge, seen, p, Follow(judge, seen, p, last), last)
    decreases last + 1 - |p.log|
  {
    var n := |p.log|;
    if n <= last && Goes(judge(n)) {
      var next := Progress(p.log + [Entry(judge(n).value.cycle, seen(n))], false);
      var q := Follow(judge, seen, next, last);
      FollowIs(judge, seen, next, last);
      assert q == Follow(judge, seen, p, last) && Filed(judge, seen, last, n, next.log[n]);
      forall i | n <= i < |q.log| ensures Filed(judge, seen, last, i, q.log[i]) {
        assert i == n ==> q.log[i] == next.log[i];
      }
    }
  }

  ghost predicate Tries(t: Tick, cycle: nat) {
    t.Tick? && cycle <= LastAttempt(t.round)
  }

  /** The tick tries the cycle and panics over it. */
  ghost predicate FailsAt(w: Crypto, t: Tick, cycle: nat) {
    Tries(t, cycle) && Verdict(w, t, cycle) == Some(Panics)
  }

  ghost predicate MovesAt(w: Crypto, t: Tick, cycle: nat) {
    Tries(t, cycle) && Commits(w, t, cycle)
  }

  /** The tick tries cycle i and commits it as e. */
  ghost predicate Adds(w: Crypto, t: Tick, i: nat, e: Entry) {
    Tries(t, i) && Commits(w, t, i) && e == EntryOf(w, t, i)
  }

  ghost predicate Took(w: Crypto, t: Tick, p: Progress, q: Progress) {
    && p.log <= q.log
    && (forall i :: |p.log| <= i < |q.log| ==> Adds(w, t, i, q.log[i]))
    && !MovesAt(w, t, |q.log|)
    && (q.stopped <==> FailsAt(w, t, |q.log|))
  }

  /** What one tick does, exactly. */
  lemma TickIs(w: Crypto, t: Tick, p: Progress)
    requires t.Tick? && !p.stopped
    ensures Took(w, t, p, AfterTick(w, t, p))
  {
    var q, judge, last := AfterTick(w, t, p), JudgeOf(w, t), LastAttempt(t.round);
    FollowIs(judge, t.seen, p, last);
    forall i | |p.log| <= i < |q.log| ensures Adds(w, t, i, q.log[i]) {
      assert Filed(judge, t.seen, last, i, q.log[i]) && judge(i) == Verdict(w, t, i);
    }
    if |q.log| <= last {
      assert judge(|q.log|) == Verdict(w, t, |q.log|);
    }
  }

  lemma AddsOk(g: Group, t: Tick, i: nat, e: Entry)
    requires Follows(g, t) && Adds(g.crypto, t, i, e)
    ensures EntryOk(g, e, i)
  {
    NextEntryOk(g, t, i);
  }

  lemma TickKeeps(g: Group, t: Tick, p: Progress)
    requires Follows(g, t) && LogOk(g, p.log)
    ensures LogOk(g, AfterTick(g.crypto, t, p).log)
  {
    if t.Tick? && !p.stopped {
      TickIs(g.crypto, t, p);
      TookKeeps(g, t, p, AfterTick(g.crypto, t, p));
    }
  }

  lemma TookKeeps(g: Group, t: Tick, p: Progress, q: Progress)
    requires Follows(g, t) && LogOk(g, p.log) && Took(g.crypto, t, p, q)
    ensures LogOk(g, q.log)
  {
    forall i | 0 <= i < |q.log| ensures EntryOk(g, q.log[i], i) {
      if i < |p.log| {
        assert q.log[i] == p.log[i];
      } else {
        AddsOk(g, t, i, q.log[i]);
      }
    }
  }

  ghost predicate AllFollow(g: Group, ticks: seq<Tick>) {
    forall i :: 0 <= i < |ticks| ==> Follows(g, ticks[i])
  }

  /** In every run, whatever the clock does: cycles are committed as 0, 1, 2, ... without gap or
      repetition, and every entry is the decision for its cycle. */
  lemma {:induction false} LogShape(g: Group, ticks: seq<Tick>)
    requires AllFollow(g, ticks)
    ensures LogOk(g, LogOf(g.crypto, ticks))
  {
    if ticks != [] {
      var m := |ticks| - 1;
      LogShape(g, ticks[..m]);
      TickKeeps(g, ticks[m], ProgressOf(g.crypto, ticks[..m]));
    }
  }

  /** A tick tries cycle 0, and every other cycle from two rounds after its first one on. */
  lemma TriesIff(t: Tick, k: nat)
    ensures Tries(t, k) <==> t.Tick? && (k == 0 || t.round >= 2 * k + 2)
  {
  }

  /** After a tick the log has more than k entries exactly when it had before, or when the round allows cycle k and
      every cycle from the end of the log up to k commits. */
  lemma TickReaches(w: Crypto, t: Tick, p: Progress, k: u64)
    requires t.Tick? && !p.stopped
    ensures |AfterTick(w, t, p).log| > k <==>
            || |p.log| > k
            || ((k == 0 || t.round >= 2 * k + 2) && forall i: u64 :: |p.log| <= i <= k ==> Commits(w, t, i))
  {
    var q := AfterTick(w, t, p);
    TickIs(w, t, p);
    TriesIff(t, k);
    if |q.log| > k >= |p.log| {
      assert Adds(w, t, k, q.log[k]);
      forall i: u64 | |p.log| <= i <= k ensures Commits(w, t, i) {
        assert Adds(w, t, i, q.log[i]);
      }
    }
    if |q.log| <= k && (k == 0 || t.round >= 2 * k + 2) {
      TriesIff(t, |q.log|);
      assert !MovesAt(w, t, |q.log|);
    }
  }

  /** Nothing committed is ever retracted. */
  lemma {:induction false} LogGrows(w: Crypto, ticks: seq<Tick>, m: nat)
    requires m <= |ticks|
    ensures LogOf(w, ticks[..m]) <= LogOf(w, ticks)
  {
    if m == |ticks| {
      assert ticks[..m] == ticks;
    } else {
      var before, t := ticks[..|ticks| - 1], ticks[|ticks| - 1];
      LogGrows(w, before, m);
      assert before[..m] == ticks[..m];
      if t.Tick? && !ProgressOf(w, before).stopped {
        TickIs(w, t, ProgressOf(w, before));
      }
    }
  }

  /** Every entry was committed at some tick, with the group and the pivot of that tick. */
  lemma {:induction false} EntryFrom(w: Crypto, ticks: seq<Tick>, i: nat) returns (j: nat)
    requires i < |LogOf(w, ticks)|
    ensures j < |ticks| && Adds(w, ticks[j], i, LogOf(w, ticks)[i])
  {
    var n := |ticks| - 1;
    LogGrows(w, ticks, n);
    if i < |LogOf(w, ticks[..n])| {
      j := EntryFrom(w, ticks[..n], i);
    } else {
      j := n;
      TickIs(w, ticks[n], ProgressOf(w, ticks[..n]));
    }
  }

  lemma AddsPivot(w: Crypto, t: Tick, i: nat, e: Entry)
    requires Adds(w, t, i, e)
    ensures PivotAt(t) == Some(e.cycle.pivot) && t.groupId == e.cycle.groupId
  {
  }

  // ---------- When a node goes on ----------

  /** A panic ends the poller for good. */
  lemma {:induction false} StoppedForGood(w: Crypto, ticks: seq<Tick>, m: nat)
    requires m <= |ticks| && ProgressOf(w, ticks[..m]).stopped
    ensures ProgressOf(w, ticks) == ProgressOf(w, ticks[..m])
  {
    if m == |ticks| {
      assert ticks[..m] == ticks;
    } else {
      var before := ticks[..|ticks| - 1];
      assert before[..m] == ticks[..m];
      StoppedForGood(w, before, m);
    }
  }

  /** Tick j commits the cycle, and none from tick m on has panicked over it before. */
  ghost predicate Resumes(w: Crypto, ticks: seq<Tick>, m: nat, j: nat, cycle: nat) {
    m <= j < |ticks| && MovesAt(w, ticks[j], cycle) && forall i :: m <= i < j ==> !FailsAt(w, ticks[i], cycle)
  }

  ghost predicate SomeFails(w: Crypto, ticks: seq<Tick>, m: nat, cycle: nat) {
    exists i :: m <= i < |ticks| && FailsAt(w, ticks[i], cycle)
  }

  /** Since tick m the log is as it was then, and the task has ended if a tick has panicked. */
  ghost predicate Idle(w: Crypto, ticks: seq<Tick>, m: nat, log: seq<Entry>) {
    ProgressOf(w, ticks) == Progress(log, SomeFails(w, ticks, m, |log|))
  }

  lemma IdleTick(w: Crypto, t: Tick, p: Progress)
    requires !p.stopped
    ensures AfterTick(w, t, p).log != p.log <==> MovesAt(w, t, |p.log|)
    ensures AfterTick(w, t, p).log == p.log ==> (AfterTick(w, t, p).stopped <==> FailsAt(w, t, |p.log|))
  {
    if t.Tick? {
      TickIs(w, t, p);
    }
  }

  lemma SomeFailsMore(w: Crypto, ticks: seq<Tick>, t: Tick, m: nat, cycle: nat)
    requires m <= |ticks|
    ensures SomeFails(w, ticks + [t], m, cycle) <==> SomeFails(w, ticks, m, cycle) || FailsAt(w, t, cycle)
  {
    var more := ticks + [t];
    if SomeFails(w, ticks, m, cycle) {
      var i :| m <= i < |ticks| && FailsAt(w, ticks[i], cycle);
      assert FailsAt(w, more[i], cycle);
    }
    if FailsAt(w, t, cycle) {
      assert FailsAt(w, more[|ticks|], cycle);
    }
  }

  lemma ProgressMore(w: Crypto, ticks: seq<Tick>, t: Tick)
    ensures ProgressOf(w, ticks + [t]) == AfterTick(w, t, ProgressOf(w, ticks))
  {
    assert (ticks + [t])[..|ticks|] == ticks;
  }

  /** One more tick of an idle run: it goes on exactly when the next cycle commits and none has panicked. */
  lemma IdleMore(w: Crypto, ticks: seq<Tick>, t: Tick, m: nat, log: seq<Entry>)
    requires m <= |ticks| && Idle(w, ticks, m, log)
    ensures LogOf(w, ticks + [t]) != log <==> MovesAt(w, t, |log|) && !SomeFails(w, ticks, m, |log|)
    ensures LogOf(w, ticks + [t]) == log ==> Idle(w, ticks + [t], m, log)
  {
    ProgressMore(w, ticks, t);
    SomeFailsMore(w, ticks, t, m, |log|);
    var p := ProgressOf(w, ticks);
    if !p.stopped {
      IdleTick(w, t, p);
    }
  }

  lemma {:induction false} StaysIdle(w: Crypto, ticks: seq<Tick>, m: nat)
    requires m <= |ticks| && !ProgressOf(w, ticks[..m]).stopped && LogOf(w, ticks) == LogOf(w, ticks[..m])
    ensures Idle(w, ticks, m, LogOf(w, ticks[..m]))
  {
    if m == |ticks| {
      assert ticks[..m] == ticks;
    } else {
      var before, t := ticks[..|ticks| - 1], ticks[|ticks| - 1];
      assert before[..m] == ticks[..m] && ticks == before + [t];
      LogGrows(w, ticks, |before|);
      LogGrows(w, before, m);
      StaysIdle(w, before, m);
      IdleMore(w, before, t, m, LogOf(w, ticks[..m]));
    }
  }

  lemma NoneFails(w: Crypto, ticks: seq<Tick>, m: nat, j: nat, cycle: nat)
    requires j <= |ticks|
    ensures SomeFails(w, ticks[..j], m, cycle) <==> exists i :: m <= i < j && FailsAt(w, ticks[i], cycle)
  {
    if SomeFails(w, ticks[..j], m, cycle) {
      var i :| m <= i < j && FailsAt(w, ticks[..j][i], cycle);
      assert FailsAt(w, ticks[i], cycle);
    }
    forall i | m <= i < j && FailsAt(w, ticks[i], cycle) ensures SomeFails(w, ticks[..j], m, cycle) {
      assert FailsAt(w, ticks[..j][i], cycle);
    }
  }

  /** The first tick from m on at which something is committed. */
  lemma {:induction false} FirstMove(w: Crypto, ticks: seq<Tick>, m: nat, n: nat) returns (j: nat)
    requires m <= n <= |ticks| && !ProgressOf(w, ticks[..m]).stopped && LogOf(w, ticks[..n]) != LogOf(w, ticks[..m])
    ensures Resumes(w, ticks, m, j, |LogOf(w, ticks[..m])|)
    decreases n
  {
    var log, before := LogOf(w, ticks[..m]), ticks[..n - 1];
    if LogOf(w, before) != log {
      j := FirstMove(w, ticks, m, n - 1);
    } else {
      j := n - 1;
      assert before[..m] == ticks[..m] && ticks[..n] == before + [ticks[j]];
      StaysIdle(w, before, m);
      IdleMore(w, before, ticks[j], m, log);
      NoneFails(w, ticks, m, j, |log|);
    }
  }

  /** Once the log has changed it stays changed. */
  lemma StaysMoved(w: Crypto, ticks: seq<Tick>, m: nat, j: nat)
    requires m <= j <= |ticks| && LogOf(w, ticks[..j]) != LogOf(w, ticks[..m])
    ensures LogOf(w, ticks) != LogOf(w, ticks[..m])
  {
    assert ticks[..j][..m] == ticks[..m];
    LogGrows(w, ticks[..j], m);
    LogGrows(w, ticks, j);
  }

  lemma MoveMoves(w: Crypto, ticks: seq<Tick>, m: nat, j: nat)
    requires m <= |ticks| && !ProgressOf(w, ticks[..m]).stopped && Resumes(w, ticks, m, j, |LogOf(w, ticks[..m])|)
    ensures LogOf(w, ticks) != LogOf(w, ticks[..m])
  {
    var log, before := LogOf(w, ticks[..m]), ticks[..j];
    if LogOf(w, before) != log {
      StaysMoved(w, ticks, m, j);
    } else {
      assert before[..m] == ticks[..m];
      StaysIdle(w, before, m);
      IdleMore(w, before, ticks[j], m, log);
      NoneFails(w, ticks, m, j, |log|);
      assert ticks[..j + 1] == before + [ticks[j]];
      StaysMoved(w, ticks, m, j + 1);
    }
  }

  /** In every run and after every tick m: more is committed later exactly when the task still runs and some later
      tick tries the next cycle and commits it, before any tick has panicked over it. */
  lemma GoesOnIff(w: Crypto, ticks: seq<Tick>, m: nat)
    requires m <= |ticks|
    ensures LogOf(w, ticks) != LogOf(w, ticks[..m]) <==>
            !ProgressOf(w, ticks[..m]).stopped && exists j :: Resumes(w, ticks, m, j, |LogOf(w, ticks[..m])|)
  {
    if ProgressOf(w, ticks[..m]).stopped {
      StoppedForGood(w, ticks, m);
    } else {
      if LogOf(w, ticks) != LogOf(w, ticks[..m]) {
        assert ticks[..|ticks|] == ticks;
        var j := FirstMove(w, ticks, m, |ticks|);
      }
      forall j | Resumes(w, ticks, m, j, |LogOf(w, ticks[..m])|) ensures LogOf(w, ticks) != LogOf(w, ticks[..m]) {
        MoveMoves(w, ticks, m, j);
      }
    }
  }

  /** A run commits anything at all exactly when some tick commits cycle 0, before any has panicked over it. Rounds
      count seconds since 1970, so this takes a cell of round 0 that was published then, by the last ranked peer. */
  lemma StartsIff(w: Crypto, ticks: seq<Tick>)
    ensures LogOf(w, ticks) != [] <==> exists j :: Resumes(w, ticks, 0, j, 0)
    ensures (forall j :: 0 <= j < |ticks| && ticks[j].Tick? && ticks[j].ranked != [] ==>
               Key(0, PivotAt(ticks[j]).value) !in ticks[j].seen(0).certified) ==> LogOf(w, ticks) == []
  {
    assert ticks[..0] == [];
    GoesOnIff(w, ticks, 0);
    forall j: nat | Resumes(w, ticks, 0, j, 0)
      ensures ticks[j].ranked != [] && Key(0, PivotAt(ticks[j]).value) in ticks[j].seen(0).certified
    {
      assert Saturate(2 * 0) == 0;
    }
  }

  /** A cycle is never skipped: while one does not commit, no later one does. */
  lemma BlockedAt(w: Crypto, ticks: seq<Tick>, k: u64)
    requires forall i :: 0 <= i < |ticks| ==> !Commits(w, ticks[i], k)
    ensures |LogOf(w, ticks)| <= k
  {
    if |LogOf(w, ticks)| > k {
      var j := EntryFrom(w, ticks, k);
    }
  }

  // ---------- The logs of two nodes ----------

  ghost function AnchorOf(e: Entry): Key {
    Key(Saturate(2 * e.cycle.index), e.cycle.pivot)
  }

  /** An entry names its anchor's cell and that cell's lineage in the table it was decided on, in which a quorum of the
      round after follows the anchor. */
  lemma EntryShape(g: Group, e: Entry, i: nat)
    requires EntryOk(g, e, i) && Faithful(g.crypto, g.play.cells)
    ensures AnchorOf(e) in e.seen.certified && e.cycle.index == i && AnchorOf(e) == Key(2 * i, e.cycle.pivot)
    ensures Followed(g.crypto, e.seen.certified, AnchorOf(e), Quorum.LatticeQuorum(g.size))
    ensures e.cycle.pivotCell == IdAt(g.crypto, e.seen.certified, AnchorOf(e))
    ensures e.cycle.committed == Lineage(g.crypto, e.seen.certified, e.cycle.pivotCell)
    ensures TableOk(g.crypto, g.play.cells, e.seen.certified)
  {
    TableOfInv(g.crypto, g.play, e.seen);
    CommittedIff(g.crypto, e.seen, i, e.cycle.pivot, e.cycle.groupId);
  }

  /** The two nodes were in one group and elected one pivot. Nothing makes them: each tick reads the group and
      the scores anew. */
  ghost predicate SameElection(d: Entry, e: Entry) {
    d.cycle.pivot == e.cycle.pivot && d.cycle.groupId == e.cycle.groupId
  }

  /** They also hold one cell of that pivot, which nothing ensures either. */
  ghost predicate SamePivot(d: Entry, e: Entry) {
    SameElection(d, e) && d.cycle.pivotCell == e.cycle.pivotCell
  }

  ghost predicate HeldBoth(w: Crypto, d: Entry, e: Entry) {
    MutuallyHeld(w, d.seen.certified, e.seen.certified, d.cycle.pivotCell)
  }

  lemma SamePivotIff(g: Group, d: Entry, e: Entry, i: nat)
    requires Faithful(g.crypto, g.play.cells) && EntryOk(g, d, i) && EntryOk(g, e, i)
    ensures
      var t, u, id := d.seen.certified, e.seen.certified, d.cycle.pivotCell;
      d.cycle == e.cycle <==> SamePivot(d, e) && Lineage(g.crypto, t, id) == Lineage(g.crypto, u, id)
  {
    EntryShape(g, d, i);
    EntryShape(g, e, i);
  }

  /** Who holds what the other commits holds the cell of its pivot. */
  lemma HeldGivesPivot(g: Group, d: Entry, e: Entry, i: nat)
    requires Faithful(g.crypto, g.play.cells) && EntryOk(g, d, i) && EntryOk(g, e, i)
    requires SameElection(d, e) && HeldBoth(g.crypto, d, e)
    ensures SamePivot(d, e)
  {
    EntryShape(g, d, i);
    EntryShape(g, e, i);
    var t, u, k := d.seen.certified, e.seen.certified, AnchorOf(d);
    ReachesSelf(g.crypto, t, k);
    assert k in History(g.crypto, t, d.cycle.pivotCell);
    CrossKey(g.crypto, g.play.cells, t, u, k, k);
  }

  /** Two entries for one cycle are the same exactly when group and pivot were the same and each node held the very
      cells the other one committed. */
  lemma EntriesAgree(g: Group, d: Entry, e: Entry, i: nat)
    requires Faithful(g.crypto, g.play.cells) && EntryOk(g, d, i) && EntryOk(g, e, i)
    ensures d.cycle == e.cycle <==> SameElection(d, e) && HeldBoth(g.crypto, d, e)
  {
    SamePivotIff(g, d, e, i);
    EntryShape(g, d, i);
    EntryShape(g, e, i);
    SameLineageIff(g.crypto, g.play.cells, d.seen.certified, e.seen.certified, d.cycle.pivotCell);
    if SameElection(d, e) && HeldBoth(g.crypto, d, e) {
      HeldGivesPivot(g, d, e, i);
    }
  }

  /** Of nodes that miss no parent: exactly when group, pivot and its cell were the same. */
  lemma CompleteEntriesAgree(g: Group, d: Entry, e: Entry, i: nat)
    requires Faithful(g.crypto, g.play.cells) && EntryOk(g, d, i) && EntryOk(g, e, i)
    requires NothingMissing(g.crypto, d.seen.certified) && NothingMissing(g.crypto, e.seen.certified)
    ensures d.cycle == e.cycle <==> SamePivot(d, e)
  {
    EntriesAgree(g, d, e, i);
    if SamePivot(d, e) {
      EntryShape(g, d, i);
      EntryShape(g, e, i);
      CompleteHolds(g.crypto, g.play.cells, d.seen.certified, e.seen.certified, AnchorOf(d));
      CompleteHolds(g.crypto, g.play.cells, e.seen.certified, d.seen.certified, AnchorOf(d));
    }
  }

  function Cycles(log: seq<Entry>): seq<Cycle> {
    seq(|log|, i requires 0 <= i < |log| => log[i].cycle)
  }

  ghost predicate AllComplete(g: Group, log: seq<Entry>) {
    forall i :: 0 <= i < |log| ==> NothingMissing(g.crypto, log[i].seen.certified)
  }

  /** At every cycle both logs have, group and pivot were the same. */
  ghost predicate ElectedAlike(a: seq<Entry>, b: seq<Entry>) {
    forall i :: 0 <= i < |a| && i < |b| ==> SameElection(a[i], b[i])
  }

  /** At every cycle both logs have, group, pivot and its cell were the same. */
  ghost predicate PivotsAlike(a: seq<Entry>, b: seq<Entry>) {
    forall i :: 0 <= i < |a| && i < |b| ==> SamePivot(a[i], b[i])
  }

  /** At every cycle both logs have, each node held the very cells the other one committed there. */
  ghost predicate HeldThroughout(w: Crypto, a: seq<Entry>, b: seq<Entry>) {
    forall i :: 0 <= i < |a| && i < |b| ==> HeldBoth(w, a[i], b[i])
  }

  ghost predicate Comparable<T>(a: seq<T>, b: seq<T>) {
    a <= b || b <= a
  }

  lemma ComparableSame(a: seq<Entry>, b: seq<Entry>)
    ensures Comparable(Cycles(a), Cycles(b)) <==> forall i :: 0 <= i < |a| && i < |b| ==> a[i].cycle == b[i].cycle
  {
    var x, y := Cycles(a), Cycles(b);
    if forall i :: 0 <= i < |a| && i < |b| ==> a[i].cycle == b[i].cycle {
      assert forall i :: 0 <= i < |x| && i < |y| ==> x[i] == y[i];
    }
    if Comparable(x, y) {
      forall i | 0 <= i < |a| && i < |b| ensures a[i].cycle == b[i].cycle {
        assert x[i] == y[i];
      }
    }
  }

  /** One log is a prefix of the other exactly when at all common cycles groups and pivots were the same and each
      node held the very cells the other one committed. */
  lemma LogPairIff(g: Group, a: seq<Entry>, b: seq<Entry>)
    requires Faithful(g.crypto, g.play.cells) && LogOk(g, a) && LogOk(g, b)
    ensures Comparable(Cycles(a), Cycles(b)) <==> ElectedAlike(a, b) && HeldThroughout(g.crypto, a, b)
  {
    ComparableSame(a, b);
    forall i | 0 <= i < |a| && i < |b|
      ensures a[i].cycle == b[i].cycle <==> SameElection(a[i], b[i]) && HeldBoth(g.crypto, a[i], b[i])
    {
      EntriesAgree(g, a[i], b[i], i);
    }
  }

  /** The same for all runs of two nodes. */
  lemma LogsComparableIff(g: Group, ticks: seq<Tick>, others: seq<Tick>)
    requires Faithful(g.crypto, g.play.cells) && AllFollow(g, ticks) && AllFollow(g, others)
    ensures
      var a, b := LogOf(g.crypto, ticks), LogOf(g.crypto, others);
      Comparable(Cycles(a), Cycles(b)) <==> ElectedAlike(a, b) && HeldThroughout(g.crypto, a, b)
  {
    LogShape(g, ticks);
    LogShape(g, others);
    LogPairIff(g, LogOf(g.crypto, ticks), LogOf(g.crypto, others));
  }

  /** All ticks of the run are in the group and rank this peer last. */
  ghost predicate Steady(ticks: seq<Tick>, groupId: Bytes, pivot: Bytes) {
    forall j :: 0 <= j < |ticks| && ticks[j].Tick? ==> ticks[j].groupId == groupId && PivotAt(ticks[j]) == Some(pivot)
  }

  /** Elections are the same while one peer stays ranked last on both nodes. */
  lemma SteadyElections(w: Crypto, ticks: seq<Tick>, others: seq<Tick>, groupId: Bytes, pivot: Bytes)
    requires Steady(ticks, groupId, pivot) && Steady(others, groupId, pivot)
    ensures ElectedAlike(LogOf(w, ticks), LogOf(w, others))
  {
    var a, b := LogOf(w, ticks), LogOf(w, others);
    forall i | 0 <= i < |a| && i < |b| ensures SameElection(a[i], b[i]) {
      var j := EntryFrom(w, ticks, i);
      var k := EntryFrom(w, others, i);
      AddsPivot(w, ticks[j], i, a[i]);
      AddsPivot(w, others[k], i, b[i]);
    }
  }

  // ---------- Groups in which certificates cannot differ ----------

  /** Certificates of one author and round cannot differ between nodes of this group. */
  ghost predicate SafeGroup(g: Group, roster: Roster, faulty: set<Bytes>) {
    Faithful(g.crypto, g.play.cells) && Agreeing(g.crypto, g.play, g.size, roster, faulty)
  }

  lemma TablesAlike(g: Group, roster: Roster, faulty: set<Bytes>, d: Entry, e: Entry, i: nat)
    requires SafeGroup(g, roster, faulty) && EntryOk(g, d, i) && EntryOk(g, e, i)
    ensures Agree(d.seen.certified, e.seen.certified)
  {
    var t, u := d.seen.certified, e.seen.certified;
    forall k | k in t && k in u ensures Same(t[k].cell, u[k].cell) {
      TablesAgree(g.crypto, g.play, g.size, roster, faulty, d.seen, e.seen, k);
    }
  }

  /** At every common cycle each node held some cell for each author and round the other one committed. */
  ghost predicate SlotsHeld(w: Crypto, a: seq<Entry>, b: seq<Entry>) {
    forall i :: 0 <= i < |a| && i < |b| ==>
      && History(w, a[i].seen.certified, a[i].cycle.pivotCell) <= b[i].seen.certified.Keys
      && History(w, b[i].seen.certified, a[i].cycle.pivotCell) <= a[i].seen.certified.Keys
  }

  /** Then some cell for each author and round is enough, for all runs of two nodes. */
  lemma SafeLogsIff(g: Group, roster: Roster, faulty: set<Bytes>, ticks: seq<Tick>, others: seq<Tick>)
    requires SafeGroup(g, roster, faulty) && AllFollow(g, ticks) && AllFollow(g, others)
    ensures
      var a, b := LogOf(g.crypto, ticks), LogOf(g.crypto, others);
      Comparable(Cycles(a), Cycles(b)) <==> ElectedAlike(a, b) && SlotsHeld(g.crypto, a, b)
  {
    var a, b := LogOf(g.crypto, ticks), LogOf(g.crypto, others);
    LogShape(g, ticks);
    LogShape(g, others);
    LogPairIff(g, a, b);
    forall i | 0 <= i < |a| && i < |b|
      ensures HeldBoth(g.crypto, a[i], b[i]) <==>
              && History(g.crypto, a[i].seen.certified, a[i].cycle.pivotCell) <= b[i].seen.certified.Keys
              && History(g.crypto, b[i].seen.certified, a[i].cycle.pivotCell) <= a[i].seen.certified.Keys
    {
      TablesAlike(g, roster, faulty, a[i], b[i], i);
      AgreeingHold(g.crypto, a[i].seen.certified, b[i].seen.certified, a[i].cycle.pivotCell);
    }
  }

  /** And one pivot has one cell. */
  lemma SafePivots(g: Group, roster: Roster, faulty: set<Bytes>, ticks: seq<Tick>, others: seq<Tick>)
    requires SafeGroup(g, roster, faulty) && AllFollow(g, ticks) && AllFollow(g, others)
    ensures
      var a, b := LogOf(g.crypto, ticks), LogOf(g.crypto, others);
      ElectedAlike(a, b) <==> PivotsAlike(a, b)
  {
    var a, b := LogOf(g.crypto, ticks), LogOf(g.crypto, others);
    LogShape(g, ticks);
    LogShape(g, others);
    forall i | 0 <= i < |a| && i < |b| ensures SameElection(a[i], b[i]) <==> SamePivot(a[i], b[i]) {
      TablesAlike(g, roster, faulty, a[i], b[i], i);
      EntryShape(g, a[i], i);
      EntryShape(g, b[i], i);
    }
  }

  // ---------- Nodes that miss no parent, or have dropped old cells ----------

  /** Of nodes that never miss a parent one log is a prefix of the other, for all runs, exactly when groups, pivots
      and the cells of the pivots were the same. */
  lemma LogsPrefixComparable(g: Group, ticks: seq<Tick>, others: seq<Tick>)
    requires Faithful(g.crypto, g.play.cells) && AllFollow(g, ticks) && AllFollow(g, others)
    requires AllComplete(g, LogOf(g.crypto, ticks)) && AllComplete(g, LogOf(g.crypto, others))
    ensures Comparable(Cycles(LogOf(g.crypto, ticks)), Cycles(LogOf(g.crypto, others))) <==>
            PivotsAlike(LogOf(g.crypto, ticks), LogOf(g.crypto, others))
  {
    var a, b := LogOf(g.crypto, ticks), LogOf(g.crypto, others);
    LogShape(g, ticks);
    LogShape(g, others);
    ComparableSame(a, b);
    forall i | 0 <= i < |a| && i < |b| ensures a[i].cycle == b[i].cycle <==> SamePivot(a[i], b[i]) {
      CompleteEntriesAgree(g, a[i], b[i], i);
    }
  }

  /** Entry i was decided on a table that is complete above floor(i). */
  ghost predicate AllWindowed(g: Group, log: seq<Entry>, floor: nat -> nat) {
    forall i :: 0 <= i < |log| ==> Windowed(g.crypto, log[i].seen.certified, floor(i))
  }

  function Higher(a: nat, b: nat): nat {
    if a < b then b else a
  }

  /** The cells behind an entry. */
  ghost function CellsOf(g: Group, e: Entry): map<Key, CellId> {
    CellsBehind(g.crypto, e.seen.certified, e.cycle.pivotCell)
  }

  /** Group, pivot and its cell were the same and the histories coincide below the higher floor. */
  ghost predicate AlikeBelow(g: Group, d: Entry, low: nat, e: Entry, high: nat) {
    SamePivot(d, e) && SameBelow(CellsOf(g, d), CellsOf(g, e), Higher(low, high))
  }

  lemma WindowedPivotFrom(g: Group, d: Entry, low: nat, e: Entry, high: nat, i: nat)
    requires Faithful(g.crypto, g.play.cells) && EntryOk(g, d, i) && EntryOk(g, e, i) && SamePivot(d, e)
    requires Windowed(g.crypto, d.seen.certified, low) && Windowed(g.crypto, e.seen.certified, high)
    ensures SameFrom(CellsOf(g, d), CellsOf(g, e), Higher(low, high))
  {
    EntryShape(g, d, i);
    EntryShape(g, e, i);
    if low <= high {
      WindowedFrom(g.crypto, g.play.cells, d.seen.certified, low, e.seen.certified, high, AnchorOf(d));
    } else {
      WindowedFrom(g.crypto, g.play.cells, e.seen.certified, high, d.seen.certified, low, AnchorOf(d));
    }
  }

  /** Two entries for one cycle, decided on tables with different floors, are the same exactly when this is so. */
  lemma WindowedEntriesIff(g: Group, d: Entry, low: nat, e: Entry, high: nat, i: nat)
    requires Faithful(g.crypto, g.play.cells) && EntryOk(g, d, i) && EntryOk(g, e, i)
    requires Windowed(g.crypto, d.seen.certified, low) && Windowed(g.crypto, e.seen.certified, high)
    ensures d.cycle == e.cycle <==> AlikeBelow(g, d, low, e, high)
    ensures SamePivot(d, e) ==> SameFrom(CellsOf(g, d), CellsOf(g, e), Higher(low, high))
  {
    SamePivotIff(g, d, e, i);
    if SamePivot(d, e) {
      EntryShape(g, d, i);
      EntryShape(g, e, i);
      WindowedPivotFrom(g, d, low, e, high, i);
      SameThroughout(CellsOf(g, d), CellsOf(g, e), Higher(low, high));
      LineageIsCells(g.crypto, g.play.cells, d.seen.certified, e.seen.certified, d.cycle.pivotCell);
    }
  }

  /** For all runs of two nodes, whatever they have collected: one log is a prefix of the other exactly when
      at every common cycle this is so. */
  lemma WindowedLogsIff(g: Group, ticks: seq<Tick>, floor: nat -> nat, others: seq<Tick>, floor': nat -> nat)
    requires Faithful(g.crypto, g.play.cells) && AllFollow(g, ticks) && AllFollow(g, others)
    requires AllWindowed(g, LogOf(g.crypto, ticks), floor) && AllWindowed(g, LogOf(g.crypto, others), floor')
    ensures
      var a, b := LogOf(g.crypto, ticks), LogOf(g.crypto, others);
      Comparable(Cycles(a), Cycles(b)) <==>
      forall i :: 0 <= i < |a| && i < |b| ==> AlikeBelow(g, a[i], floor(i), b[i], floor'(i))
  {
    LogShape(g, ticks);
    LogShape(g, others);
    WindowedPairIff(g, LogOf(g.crypto, ticks), floor, LogOf(g.crypto, others), floor');
  }

  lemma WindowedPairIff(g: Group, a: seq<Entry>, floor: nat -> nat, b: seq<Entry>, floor': nat -> nat)
    requires Faithful(g.crypto, g.play.cells) && LogOk(g, a) && LogOk(g, b)
    requires AllWindowed(g, a, floor) && AllWindowed(g, b, floor')
    ensures Comparable(Cycles(a), Cycles(b)) <==>
            forall i :: 0 <= i < |a| && i < |b| ==> AlikeBelow(g, a[i], floor(i), b[i], floor'(i))
  {
    ComparableSame(a, b);
    forall i | 0 <= i < |a| && i < |b|
      ensures a[i].cycle == b[i].cycle <==> AlikeBelow(g, a[i], floor(i), b[i], floor'(i))
    {
      WindowedEntriesIff(g, a[i], floor(i), b[i], floor'(i), i);
    }
  }

  /** Entry i was decided on a table that holds nothing below floor(i). */
  ghost predicate AllSwept(log: seq<Entry>, floor: nat -> nat) {
    forall i, k :: 0 <= i < |log| && k in log[i].seen.certified ==> k.round >= floor(i)
  }

  ghost predicate AllFrom(a: map<Key, CellId>, round: nat) {
    forall k :: k in a ==> k.round >= round
  }

  lemma SweptBelow(a: map<Key, CellId>, low: nat, b: map<Key, CellId>, high: nat)
    requires AllFrom(a, low) && AllFrom(b, high)
    ensures SameBelow(a, b, Higher(low, high)) <==> AllFrom(a, Higher(low, high)) && AllFrom(b, Higher(low, high))
  {
    if SameBelow(a, b, Higher(low, high)) {
      forall k | k in a ensures k.round >= Higher(low, high) {
        assert k.round < Higher(low, high) ==> k in b;
      }
      forall k | k in b ensures k.round >= Higher(low, high) {
        assert k.round < Higher(low, high) ==> k in a;
      }
    }
  }

  /** Group, pivot and its cell were the same and no committed cell lies below the higher floor. */
  ghost predicate AlikeFrom(g: Group, d: Entry, low: nat, e: Entry, high: nat) {
    SamePivot(d, e) && AllFrom(CellsOf(g, d), Higher(low, high)) && AllFrom(CellsOf(g, e), Higher(low, high))
  }

  /** If tables hold nothing below their floors: exactly when at every common cycle group, pivot and its cell were the
      same and no committed cell lies below the higher floor, that is, between the two. */
  lemma SweptLogsIff(g: Group, ticks: seq<Tick>, floor: nat -> nat, others: seq<Tick>, floor': nat -> nat)
    requires Faithful(g.crypto, g.play.cells) && AllFollow(g, ticks) && AllFollow(g, others)
    requires AllWindowed(g, LogOf(g.crypto, ticks), floor) && AllWindowed(g, LogOf(g.crypto, others), floor')
    requires AllSwept(LogOf(g.crypto, ticks), floor) && AllSwept(LogOf(g.crypto, others), floor')
    ensures
      var a, b := LogOf(g.crypto, ticks), LogOf(g.crypto, others);
      Comparable(Cycles(a), Cycles(b)) <==>
      forall i :: 0 <= i < |a| && i < |b| ==> AlikeFrom(g, a[i], floor(i), b[i], floor'(i))
  {
    var a, b := LogOf(g.crypto, ticks), LogOf(g.crypto, others);
    WindowedLogsIff(g, ticks, floor, others, floor');
    forall i | 0 <= i < |a| && i < |b|
      ensures AlikeBelow(g, a[i], floor(i), b[i], floor'(i)) <==> AlikeFrom(g, a[i], floor(i), b[i], floor'(i))
    {
      SweptBelow(CellsOf(g, a[i]), floor(i), CellsOf(g, b[i]), floor'(i));
    }
  }
}
