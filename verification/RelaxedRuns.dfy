/** The step system with side conditions lifted one by one, so that what each of them is needed for can be
    stated of runs. */
module RelaxedRuns {
  import opened Wrappers
  import opened HotStuffTypes
  import opened SetFacts
  import opened Quorums
  import opened ReplicaLogic
  import opened VoteLog
  import opened ReplicaSystem
  import opened Agreement

  /** What the network or a replica may do beyond the side conditions: list signer positions outside [0, n),
      certify genesis at a view other than 0, forge signatures, or restart without its state. */
  datatype Allowance = Allowance(positions: bool, genesisViews: bool, forgeries: bool, restarts: bool)

  const STRICT := Allowance(false, false, false, false)

  datatype Event = Protocol(step: Step) | Restart(i: nat)

  ghost predicate QcAllowed(w: Allowance, s: Setting, log: Log, qc: QC) {
    && (w.positions || InRange(s.c, qc.signers))
    && (w.forgeries || (qc.agg.Agg? ==> forall p :: p in qc.agg.parts ==> Unforged(s, log, p)))
    && (w.genesisViews || (qc.hash == GENESIS ==> qc.view == 0))
  }

  ghost predicate BlockAllowed(w: Allowance, s: Setting, log: Log, b: Block) {
    b.justify.Some? ==> QcAllowed(w, s, log, b.justify.value)
  }

  ghost predicate VoteAllowed(w: Allowance, s: Setting, log: Log, v: Vote) {
    (w.positions || 0 <= v.voter < s.c.n) && (w.forgeries || Unforged(s, log, v.sig))
  }

  ghost predicate StepAllowed(w: Allowance, s: Setting, log: Log, step: Step) {
    match step
    case Proposal(_, b) => BlockAllowed(w, s, log, b)
    case ImportBlock(_, b) => BlockAllowed(w, s, log, b)
    case DeliverVote(_, v) => VoteAllowed(w, s, log, v)
    case DeliverNewView(_, m) => QcAllowed(w, s, log, m.highQc)
    case _ => true
  }

  ghost predicate EventEnabled(w: Allowance, s: Setting, sys: Sys, e: Event) {
    match e
    case Protocol(step) =>
      if step.ByzantineVote? then step.cast.voter in s.byz else s.Honest(step.i) && StepAllowed(w, s, sys.log, step)
    case Restart(i) => w.restarts && s.Honest(i)
  }

  predicate InBounds(sys: Sys, e: Event) {
    match e
    case Protocol(step) => !step.ByzantineVote? ==> step.i < |sys.replicas|
    case Restart(i) => i < |sys.replicas|
  }

  ghost predicate Sane(sys: Sys) {
    forall i :: 0 <= i < |sys.replicas| ==> sys.replicas[i].committee.Valid()
  }

  function TakeEvent(sys: Sys, e: Event): Sys
    requires InBounds(sys, e) && forall i :: 0 <= i < |sys.replicas| ==> sys.replicas[i].committee.Valid()
  {
    match e
    case Protocol(step) => Take(sys, step)
    case Restart(i) => sys.(replicas := sys.replicas[i := Initial(i, sys.replicas[i].committee)])
  }

  ghost predicate EventTaken(w: Allowance, s: Setting, before: Sys, e: Event, after: Sys) {
    Sane(before) && InBounds(before, e) && EventEnabled(w, s, before, e) && after == TakeEvent(before, e)
  }

  ghost predicate RelaxedRun(w: Allowance, s: Setting, states: seq<Sys>, events: seq<Event>) {
    && |states| == |events| + 1
    && Init(s, states[0])
    && forall k {:trigger events[k]} :: 0 <= k < |events| ==> EventTaken(w, s, states[k], events[k], states[k + 1])
  }

  // --- Nothing allowed: the runs of the protocol itself ---

  function Steps(events: seq<Event>): (r: seq<Step>)
    requires forall k :: 0 <= k < |events| ==> events[k].Protocol?
    ensures |r| == |events| && forall k :: 0 <= k < |r| ==> r[k] == events[k].step
  {
    seq(|events|, k requires 0 <= k < |events| => events[k].step)
  }

  lemma StrictTaken(s: Setting, before: Sys, e: Event, after: Sys)
    requires EventTaken(STRICT, s, before, e, after)
    ensures e.Protocol? && StepTaken(s, before, e.step, after)
  {
  }

  /** A run with nothing lifted is a run of the protocol. */
  lemma StrictIsRun(s: Setting, states: seq<Sys>, events: seq<Event>)
    requires RelaxedRun(STRICT, s, states, events)
    ensures forall k :: 0 <= k < |events| ==> events[k].Protocol?
    ensures Run(s, states, Steps(events))
  {
    forall k | 0 <= k < |events| ensures events[k].Protocol? && StepTaken(s, states[k], events[k].step, states[k + 1]) {
      var e := events[k];
      StrictTaken(s, states[k], e, states[k + 1]);
    }
  }

  // --- Building runs ---

  ghost predicate Reached(w: Allowance, s: Setting, sys: Sys) {
    exists states: seq<Sys>, events: seq<Event> ::
      RelaxedRun(w, s, states, events) && states[|events|] == sys
  }

  /** A reached state of a committee whose replicas sit at their own positions. */
  ghost predicate At(w: Allowance, s: Setting, sys: Sys) {
    && s.c.Valid() && Reached(w, s, sys)
    && |sys.replicas| == s.c.n
    && forall i :: 0 <= i < s.c.n ==> sys.replicas[i].committee == s.c && sys.replicas[i].me == i
  }

  lemma StartReached(w: Allowance, s: Setting) returns (sys: Sys)
    requires s.c.Valid()
    ensures At(w, s, sys) && sys.log == [] && forall i :: 0 <= i < s.c.n ==> sys.replicas[i] == Initial(i, s.c)
  {
    sys := Sys(seq(s.c.n, i => Initial(i, s.c)), []);
    var states: seq<Sys>, events: seq<Event> := [sys], [];
    assert RelaxedRun(w, s, states, events) && states[|events|] == sys;
  }

  lemma RunExtends(w: Allowance, s: Setting, states: seq<Sys>, events: seq<Event>, e: Event, after: Sys)
    requires RelaxedRun(w, s, states, events) && EventTaken(w, s, states[|events|], e, after)
    ensures RelaxedRun(w, s, states + [after], events + [e])
  {
    var states', events' := states + [after], events + [e];
    forall k | 0 <= k < |events'| ensures EventTaken(w, s, states'[k], events'[k], states'[k + 1]) {
      if k < |events| {
        var earlier := events[k];
        assert events'[k] == earlier && states'[k] == states[k] && states'[k + 1] == states[k + 1];
      }
    }
  }

  lemma ReachedNext(w: Allowance, s: Setting, sys: Sys, e: Event, after: Sys)
    requires Reached(w, s, sys) && EventTaken(w, s, sys, e, after)
    ensures Reached(w, s, after)
  {
    var states: seq<Sys>, events: seq<Event> :| RelaxedRun(w, s, states, events) && states[|events|] == sys;
    RunExtends(w, s, states, events, e, after);
    assert (states + [after])[|events + [e]|] == after;
  }

  /** One event at a replica that keeps its place. */
  lemma ReplicaEvent(w: Allowance, s: Setting, sys: Sys, e: Event, i: nat, r: Replica, log: Log) returns (after: Sys)
    requires At(w, s, sys) && i < s.c.n && InBounds(sys, e) && EventEnabled(w, s, sys, e)
    requires r.committee == s.c && r.me == i && TakeEvent(sys, e) == Sys(sys.replicas[i := r], log)
    ensures At(w, s, after) && after == Sys(sys.replicas[i := r], log)
  {
    after := TakeEvent(sys, e);
    ReachedNext(w, s, sys, e, after);
  }

  // --- Votes ---

  /** What entering a block's view and voting for it does to a replica. */
  function VoteOn(r: Replica, b: Block): Replica
    requires r.committee.Valid()
  {
    OnProposal(AdvanceTo(r, b.view), b).0
  }

  ghost predicate CanVote(s: Setting, r: Replica, b: Block)
    requires s.c.Valid()
  {
    r.committee == s.c && WillVote(AdvanceTo(r, b.view), b)
  }

  lemma VoteKeepsPlace(r: Replica, b: Block)
    requires r.committee.Valid()
    ensures VoteOn(r, b).committee == r.committee && VoteOn(r, b).me == r.me
    ensures WillVote(AdvanceTo(r, b.view), b) ==>
      NewCasts(AdvanceTo(r, b.view), b) == [Cast(r.me, b.view, HashOf(b), r.lockedQc)]
  {
  }

  lemma HonestVotes(w: Allowance, s: Setting, sys: Sys, i: nat, b: Block) returns (after: Sys)
    requires At(w, s, sys) && s.Honest(i) && BlockAllowed(w, s, sys.log, b) && CanVote(s, sys.replicas[i], b)
    ensures At(w, s, after) && after.replicas == sys.replicas[i := VoteOn(sys.replicas[i], b)]
    ensures sys.log <= after.log && HasCast(after.log, i, HashOf(b), b.view)
  {
    var r := sys.replicas[i];
    VoteKeepsPlace(r, b);
    var mid := ReplicaEvent(w, s, sys, Protocol(Advance(i, b.view)), i, AdvanceTo(r, b.view), sys.log);
    var log := sys.log + NewCasts(AdvanceTo(r, b.view), b);
    assert mid.replicas[i := VoteOn(r, b)] == sys.replicas[i := VoteOn(r, b)];
    after := ReplicaEvent(w, s, mid, Protocol(Proposal(i, b)), i, VoteOn(r, b), log);
    assert after.log[|sys.log|] == Cast(i, b.view, HashOf(b), r.lockedQc);
  }

  lemma ByzantineVotes(w: Allowance, s: Setting, sys: Sys, i: int, b: Block) returns (after: Sys)
    requires At(w, s, sys) && i in s.byz
    ensures At(w, s, after) && after.replicas == sys.replicas
    ensures sys.log <= after.log && HasCast(after.log, i, HashOf(b), b.view)
  {
    var cast := Cast(i, b.view, HashOf(b), GENESIS_QC);
    after := Sys(sys.replicas, sys.log + [cast]);
    ReachedNext(w, s, sys, Protocol(ByzantineVote(cast)), after);
    assert after.log[|sys.log|] == cast;
  }

  ghost predicate VoterList(s: Setting, voters: seq<int>) {
    NoRepeats(voters) && forall i :: 0 <= i < |voters| ==> 0 <= voters[i] < s.c.n
  }

  ghost predicate AllCast(log: Log, voters: seq<int>, h: Hash, view: int) {
    forall i :: 0 <= i < |voters| ==> HasCast(log, voters[i], h, view)
  }

  lemma AllCastMonotone(log: Log, more: Log, voters: seq<int>, h: Hash, view: int)
    requires log <= more && AllCast(log, voters, h, view)
    ensures AllCast(more, voters, h, view)
  {
    forall i | 0 <= i < |voters| ensures HasCast(more, voters[i], h, view) {
      HasCastMonotone(log, more, voters[i], h, view);
    }
  }

  lemma AllowedMonotone(w: Allowance, s: Setting, log: Log, more: Log, b: Block)
    requires log <= more && BlockAllowed(w, s, log, b)
    ensures BlockAllowed(w, s, more, b)
  {
    if b.justify.Some? && b.justify.value.agg.Agg? && !w.forgeries {
      forall p | p in b.justify.value.agg.parts ensures Unforged(s, more, p) {
        UnforgedMonotone(s, log, more, p);
      }
    }
  }

  /** Who of the honest voters has voted, and that nothing else happened to any replica. */
  ghost predicate Voted(s: Setting, before: Sys, after: Sys, voters: seq<int>, b: Block)
    requires s.c.Valid()
  {
    && |before.replicas| == |after.replicas| == s.c.n
    && (forall i :: 0 <= i < s.c.n ==> before.replicas[i].committee == s.c)
    && (forall i :: 0 <= i < s.c.n && i in voters && i !in s.byz ==> after.replicas[i] == VoteOn(before.replicas[i], b))
    && (forall i :: 0 <= i < s.c.n && !(i in voters && i !in s.byz) ==> after.replicas[i] == before.replicas[i])
  }

  lemma VotedMore(s: Setting, before: Sys, mid: Sys, after: Sys, rest: seq<int>, i: int, b: Block)
    requires s.c.Valid() && Voted(s, before, mid, rest, b) && 0 <= i < s.c.n && i !in rest
    requires if i in s.byz then after.replicas == mid.replicas
             else mid.replicas[i].committee == s.c && after.replicas == mid.replicas[i := VoteOn(mid.replicas[i], b)]
    ensures Voted(s, before, after, rest + [i], b)
  {
    assert forall j :: j in rest + [i] <==> j in rest || j == i;
  }

  lemma OneVotes(w: Allowance, s: Setting, sys: Sys, i: int, b: Block) returns (after: Sys)
    requires At(w, s, sys) && 0 <= i < s.c.n && BlockAllowed(w, s, sys.log, b)
    requires i !in s.byz ==> CanVote(s, sys.replicas[i], b)
    ensures At(w, s, after) && sys.log <= after.log && HasCast(after.log, i, HashOf(b), b.view)
    ensures if i in s.byz then after.replicas == sys.replicas
            else after.replicas == sys.replicas[i := VoteOn(sys.replicas[i], b)]
  {
    if i in s.byz {
      after := ByzantineVotes(w, s, sys, i, b);
    } else {
      after := HonestVotes(w, s, sys, i, b);
    }
  }

  lemma VoterListRest(s: Setting, voters: seq<int>)
    requires VoterList(s, voters) && voters != []
    ensures VoterList(s, voters[..|voters| - 1]) && voters[|voters| - 1] !in voters[..|voters| - 1]
    ensures voters == voters[..|voters| - 1] + [voters[|voters| - 1]]
  {
  }

  /** Everyone on the list votes for b: the honest by the protocol, the Byzantine at will. */
  lemma {:induction false} Round(w: Allowance, s: Setting, sys: Sys, voters: seq<int>, b: Block) returns (after: Sys)
    requires At(w, s, sys) && VoterList(s, voters) && BlockAllowed(w, s, sys.log, b)
    requires forall i :: 0 <= i < |voters| && voters[i] !in s.byz ==> CanVote(s, sys.replicas[voters[i]], b)
    ensures At(w, s, after) && sys.log <= after.log && AllCast(after.log, voters, HashOf(b), b.view)
    ensures Voted(s, sys, after, voters, b)
  {
    if voters == [] {
      after := sys;
    } else {
      VoterListRest(s, voters);
      var rest, i := voters[..|voters| - 1], voters[|voters| - 1];
      var mid := Round(w, s, sys, rest, b);
      AllowedMonotone(w, s, sys.log, mid.log, b);
      assert mid.replicas[i] == sys.replicas[i];
      after := OneVotes(w, s, mid, i, b);
      VotedMore(s, sys, mid, after, rest, i, b);
      AllCastMonotone(mid.log, after.log, rest, HashOf(b), b.view);
    }
  }
}
