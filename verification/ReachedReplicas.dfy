/** What the replicas of a run do with the messages they receive, and the states where it matters: whichever steps
    led there, and however many validators are Byzantine unless a lemma says otherwise. */
module ReachedReplicas {
  import opened Wrappers
  import opened HotStuffTypes
  import opened SetFacts
  import opened Quorums
  import opened ReplicaLogic
  import opened VoteLog
  import opened ReplicaSystem
  import opened Agreement
  import opened BlockSync
  import opened RelaxedRuns
  import opened Branches
  import opened SyncGap
  import opened ReplicaContracts
  import HR = HonestRounds

  // --- What every replica of a run keeps ---

  /** A replica's record of its votes names cast votes only. */
  ghost predicate VotesLogged(log: Log, r: Replica) {
    forall view :: view in r.votedViews ==> HasCast(log, r.me, r.votedViews[view], view)
  }

  ghost predicate Kept(s: Setting, log: Log, r: Replica) {
    r.committee == s.c && Counted(r) && VotesLogged(log, r)
  }

  ghost predicate AllKept(s: Setting, sys: Sys) {
    forall i :: 0 <= i < |sys.replicas| ==> Kept(s, sys.log, sys.replicas[i])
  }

  lemma LoggedMonotone(s: Setting, log: Log, cast: Cast, r: Replica)
    requires Kept(s, log, r)
    ensures Kept(s, log + [cast], r)
  {
    var more := log + [cast];
    forall view | view in r.votedViews ensures HasCast(more, r.me, r.votedViews[view], view) {
      var k :| 0 <= k < |log| && log[k].voter == r.me && log[k].hash == r.votedViews[view] && log[k].view == view;
      assert more[k] == log[k];
    }
  }

  lemma ProposalKeeps(s: Setting, log: Log, r: Replica, b: Block)
    requires s.c.Valid() && Kept(s, log, r)
    ensures Kept(s, log + NewCasts(r, b), OnProposal(r, b).0)
  {
    if WillVote(r, b) {
      var cast := Cast(r.me, b.view, HashOf(b), r.lockedQc);
      LoggedMonotone(s, log, cast, r);
      assert (log + [cast])[|log|] == cast;
      assert HasCast(log + [cast], r.me, HashOf(b), b.view);
    } else {
      assert log + [] == log;
    }
  }

  lemma LocalKeeps(s: Setting, log: Log, r: Replica, step: Step)
    requires s.c.Valid() && Kept(s, log, r) && !step.ByzantineVote? && !step.Proposal?
    ensures Kept(s, log, Local(r, step))
  {
    LocalKeepsVotes(r, step);
    match step
    case DeliverVote(_, v) => VoteKeepsCounted(r, v);
    case DeliverNewView(_, m) => NewViewKeepsCounted(r, m);
    case _ =>
  }

  lemma StepKeeps(s: Setting, sys: Sys, step: Step)
    requires s.c.Valid() && AllKept(s, sys) && (!step.ByzantineVote? ==> step.i < |sys.replicas|)
    ensures AllKept(s, Take(sys, step))
  {
    var after := Take(sys, step);
    match step
    case ByzantineVote(cast) =>
      forall i | 0 <= i < |sys.replicas| ensures Kept(s, after.log, sys.replicas[i]) {
        LoggedMonotone(s, sys.log, cast, sys.replicas[i]);
      }
    case Proposal(i, b) => ProposalStepKeeps(s, sys, i, b);
    case _ => LocalKeeps(s, sys.log, sys.replicas[step.i], step);
  }

  lemma ProposalStepKeeps(s: Setting, sys: Sys, i: nat, b: Block)
    requires s.c.Valid() && AllKept(s, sys) && i < |sys.replicas|
    ensures AllKept(s, Take(sys, Proposal(i, b)))
  {
    var r := sys.replicas[i];
    ProposalKeeps(s, sys.log, r, b);
    forall j | 0 <= j < |sys.replicas| && j != i ensures Kept(s, sys.log + NewCasts(r, b), sys.replicas[j]) {
      if WillVote(r, b) {
        LoggedMonotone(s, sys.log, NewCasts(r, b)[0], sys.replicas[j]);
      } else {
        assert sys.log + [] == sys.log;
      }
    }
  }

  /** In every state of a run, each replica's collections hold genuine signatures of different senders, fewer than a
      quorum each, and its record of votes is what it has cast. */
  lemma {:induction false} RunKeeps(s: Setting, states: seq<Sys>, steps: seq<Step>, k: nat)
    requires s.c.Valid() && Run(s, states, steps) && k < |states|
    ensures AllKept(s, states[k])
  {
    if k > 0 {
      RunKeeps(s, states, steps, k - 1);
      RunStep(s, states, steps, k - 1);
      StepKeeps(s, states[k - 1], steps[k - 1]);
    }
  }

  // --- When a replica votes ---

  /** The conditions for a vote: the block is of the current view, in which the validator has cast no vote for
      another block; it may be stored; and it respects the lock. */
  ghost predicate MayVote(log: Log, r: Replica, b: Block)
    requires r.committee.n > 0
  {
    && b.view == r.currentView
    && (forall g :: HasCast(log, r.me, g, b.view) ==> g == HashOf(b))
    && Admitted(r.committee.n, r.blocks, b)
    && RespectsLock(r.lockedQc, b, b.justify.value)
  }

  lemma NoOtherVote(log: Log, r: Replica, b: Block)
    requires VotedInv(log, r) && VotesLogged(log, r)
    ensures (b.view in r.votedViews ==> r.votedViews[b.view] == HashOf(b))
      <==> forall g :: HasCast(log, r.me, g, b.view) ==> g == HashOf(b)
  {
    forall g | HasCast(log, r.me, g, b.view) ensures b.view in r.votedViews && r.votedViews[b.view] == g {
      var k :| 0 <= k < |log| && log[k].voter == r.me && log[k].hash == g && log[k].view == b.view;
      assert Remembers(r, log[k]);
    }
  }

  /** A replica of a run votes if and only if the conditions hold; it then stores the block, takes in its certificate
      and remembers the vote.  Otherwise nothing changes. */
  lemma VotesIff(s: Setting, states: seq<Sys>, steps: seq<Step>, k: nat, i: int, b: Block)
    requires s.c.Valid() && Run(s, states, steps) && k < |states| && s.Honest(i)
    ensures |states[k].replicas| == s.c.n && states[k].replicas[i].committee == s.c
    ensures var r := states[k].replicas[i];
      var (after, vote) := OnProposal(r, b);
      && (vote.Some? <==> MayVote(states[k].log, r, b))
      && if vote.Some? then
           && vote.value == Vote(HashOf(b), b.view, i, Sig(i, VoteMessage(b.view, HashOf(b))))
           && Applied(Storing(r, b).(votedViews := r.votedViews[b.view := HashOf(b)]), after, b.justify.value)
         else after == r
  {
    RunRemembered(s, states, steps, k);
    RunKeeps(s, states, steps, k);
    RunImportable(s, states, steps, k);
    var r := states[k].replicas[i];
    assert Kept(s, states[k].log, r);
    NoOtherVote(states[k].log, r, b);
    ProposalExactly(r, b);
  }

  /** A leader accepts its own proposal exactly when it leads its view, has not voted for another block in it, and
      has the block of its highest certificate. */
  lemma OwnProposalIff(s: Setting, states: seq<Sys>, steps: seq<Step>, k: nat, i: int, payload: Payload)
    requires s.Valid() && Run(s, states, steps) && k < |states| && s.Honest(i)
    ensures |states[k].replicas| == s.c.n && states[k].replicas[i].committee == s.c
    ensures var r := states[k].replicas[i];
      var b := Propose(r, payload);
      && b.payload == payload
      && (OnProposal(r, b).1.Some? <==>
           && i == r.currentView % s.c.n && r.highQc.hash in r.blocks
           && forall g :: HasCast(states[k].log, i, g, r.currentView) ==> g == HashOf(b))
  {
    RunInv(s, states, steps, k);
    var r := states[k].replicas[i];
    var b := Propose(r, payload);
    VotesIff(s, states, steps, k, i, b);
    VerifiesIff(s.c, r.highQc);
    ParentRespected(r.lockedQc, b, r.highQc);
  }

  lemma ParentRespected(lock: QC, b: Block, justify: QC)
    requires b.parent == lock.hash
    ensures RespectsLock(lock, b, justify)
  {
    var p, line := Path(b.parent), Path(HashOf(b));
    assert line == p + [HashOf(b)] && p[|p| - 1] == lock.hash;
    var from := if |line| <= 100_002 then 0 else |line| - 100_002;
    assert line[from..][|p| - 1 - from] == lock.hash;
  }

  // --- Votes and NewView messages ---

  /** What a replica of a run does with a vote. */
  lemma VoteInRun(s: Setting, states: seq<Sys>, steps: seq<Step>, k: nat, i: int, v: Vote)
    requires s.c.Valid() && Run(s, states, steps) && k < |states| && s.Honest(i)
    ensures |states[k].replicas| == s.c.n && states[k].replicas[i].committee == s.c
    ensures var r := states[k].replicas[i]; VoteTaken(r, v, OnVote(r, v).0, OnVote(r, v).1)
  {
    RunRemembered(s, states, steps, k);
    RunKeeps(s, states, steps, k);
    assert Kept(s, states[k].log, states[k].replicas[i]);
    VoteExactly(states[k].replicas[i], v);
  }

  /** What a replica of a run does with a NewView message.  When it answers true it is left with certificates at least
      as high as every usable one that the quorum offered, each its own old one or one of those. */
  lemma NewViewInRun(s: Setting, states: seq<Sys>, steps: seq<Step>, k: nat, i: int, m: NewViewMsg)
    returns (bucket: seq<NewViewMsg>)
    requires s.c.Valid() && Run(s, states, steps) && k < |states| && s.Honest(i)
    ensures |states[k].replicas| == s.c.n && states[k].replicas[i].committee == s.c
    ensures var r := states[k].replicas[i];
      Latest(r, m, bucket) && Answered(r, m, bucket, OnNewView(r, m).0, OnNewView(r, m).1)
    ensures SignedNewView(s.c.n, m) ==>
      OneEach(bucket) && m in bucket && forall x :: x in bucket ==> x.view == m.view && SignedNewView(s.c.n, x)
    ensures var r, after := states[k].replicas[i], OnNewView(states[k].replicas[i], m).0;
      OnNewView(r, m).1 ==>
        && m.view !in after.pendingNewViews
        && (forall x :: x in bucket && Usable(s.c.n, x.highQc) ==>
             after.highQc.view >= x.highQc.view && after.lockedQc.view >= x.highQc.view)
        && (after.highQc == r.highQc || exists x :: x in bucket && Usable(s.c.n, x.highQc) && after.highQc == x.highQc)
        && (after.lockedQc == r.lockedQc
            || exists x :: x in bucket && Usable(s.c.n, x.highQc) && after.lockedQc == x.highQc)
  {
    RunRemembered(s, states, steps, k);
    RunKeeps(s, states, steps, k);
    var r := states[k].replicas[i];
    assert Kept(s, states[k].log, r);
    bucket := NewViewExactly(r, m);
    if SignedNewView(s.c.n, m) {
      LatestGenuine(r, m, bucket);
    }
    if OnNewView(r, m).1 {
      BestTaken(r, m, bucket, OnNewView(r, m).0);
    }
  }

  lemma BestTaken(r: Replica, m: NewViewMsg, bucket: seq<NewViewMsg>, after: Replica)
    requires r.committee.n > 0 && Answered(r, m, bucket, after, true)
    ensures m.view !in after.pendingNewViews
    ensures forall x :: x in bucket && Usable(r.committee.n, x.highQc) ==>
      after.highQc.view >= x.highQc.view && after.lockedQc.view >= x.highQc.view
    ensures after.highQc == r.highQc
      || exists x :: x in bucket && Usable(r.committee.n, x.highQc) && after.highQc == x.highQc
    ensures after.lockedQc == r.lockedQc
      || exists x :: x in bucket && Usable(r.committee.n, x.highQc) && after.lockedQc == x.highQc
  {
    var n, heard := r.committee.n, r.(pendingNewViews := r.pendingNewViews - {m.view});
    var i :| BestOffer(n, bucket, i) && Applied(heard, after, bucket[i].highQc);
    assert bucket[i] in bucket;
    forall x | x in bucket && Usable(n, x.highQc) ensures x.highQc.view <= bucket[i].highQc.view {
      var j :| 0 <= j < |bucket| && bucket[j] == x;
    }
  }

  /** A view change loses nothing an honest replica knows: a replica that answers true to its message is left with
      certificates at least as high as its highest. */
  lemma HighestIsHeard(s: Setting, states: seq<Sys>, steps: seq<Step>, k: nat, sender: int, i: int)
    requires s.Valid() && Run(s, states, steps) && k < |states| && s.Honest(sender) && s.Honest(i)
    ensures |states[k].replicas| == s.c.n && states[k].replicas[i].committee == s.c
    ensures var m := MakeNewView(states[k].replicas[sender]);
      var (after, answer) := OnNewView(states[k].replicas[i], m);
      && m.view == states[k].replicas[sender].currentView
      && (answer ==>
            && after.highQc.view >= states[k].replicas[sender].highQc.view
            && after.lockedQc.view >= states[k].replicas[sender].highQc.view)
  {
    RunInv(s, states, steps, k);
    var m := MakeNewView(states[k].replicas[sender]);
    VerifiesIff(s.c, m.highQc);
    var bucket := NewViewInRun(s, states, steps, k, i, m);
    assert SignedNewView(s.c.n, m);
  }

  // --- A replica that is locked on a block it lacks ---

  /** A replica locked on this very proposal, whose certificate is no newer than the lock, lacks the block, stores it
      and votes. */
  ghost predicate VotesForItsLock(r: Replica, b: Block)
    requires r.committee.Valid()
  {
    && r.lockedQc.hash == HashOf(b) && HashOf(b) !in r.blocks && !IsAncestor(r.lockedQc.hash, b.parent)
    && b.justify.Some? && b.justify.value.view <= r.lockedQc.view
    && OnProposal(r, b).1.Some? && HashOf(b) in OnProposal(r, b).0.blocks
  }

  lemma LockedBlockVoted(r: Replica, b: Block)
    requires r.committee.Valid() && Importable(r.committee, r.blocks) && Admitted(r.committee.n, r.blocks, b)
    requires r.lockedQc.hash == HashOf(b) && HashOf(b) !in r.blocks && b.justify.value.view <= r.lockedQc.view
    requires b.view == r.currentView && (b.view in r.votedViews ==> r.votedViews[b.view] == HashOf(b))
    ensures VotesForItsLock(r, b)
  {
    ParentNotSelf(b);
    LastRespected(r.lockedQc, b, b.justify.value);
    ProposalExactly(r, b);
  }

  lemma LastRespected(lock: QC, b: Block, justify: QC)
    requires lock.hash == HashOf(b)
    ensures RespectsLock(lock, b, justify)
  {
    var line := Path(HashOf(b));
    var from := if |line| <= 100_002 then 0 else |line| - 100_002;
    assert line[from..][|line| - 1 - from] == HashOf(b);
  }

  /** It happens in every committee without any Byzantine validator: the last replica forms the certificate of the
      first proposal before the proposal reaches it. */
  lemma LockBeforeBlock(c: Committee) returns (states: seq<Sys>, steps: seq<Step>, b: Block)
    requires c.Valid()
    ensures Run(Setting(c, {}), states, steps) && |states| == |steps| + 1
    ensures |states[|steps|].replicas| == c.n && states[|steps|].replicas[c.n - 1].committee == c
    ensures VotesForItsLock(states[|steps|].replicas[c.n - 1], b)
  {
    var s := Setting(c, {});
    var sys;
    sys, b := LockedReached(s);
    var events: seq<Event>;
    states, events :| RelaxedRun(STRICT, s, states, events) && states[|events|] == sys;
    StrictIsRun(s, states, events);
    steps := Steps(events);
  }

  lemma LockedReached(s: Setting) returns (sys: Sys, b: Block)
    requires s.c.Valid() && s.byz == {}
    ensures Reached(STRICT, s, sys) && |sys.replicas| == s.c.n && sys.replicas[s.c.n - 1].committee == s.c
    ensures VotesForItsLock(sys.replicas[s.c.n - 1], b)
  {
    var tip;
    sys, tip := LastCollected(s);
    b := tip.block;
    LastLocked(s.c, sys.replicas[s.c.n - 1], tip);
  }

  lemma LastLocked(c: Committee, r: Replica, tip: Hash)
    requires c.Valid() && tip.HashOf? && WellFormed(c, tip.block, 1, GENESIS) && FreshButLocked(c, r, tip)
    ensures r.committee == c && VotesForItsLock(r, tip.block)
  {
    FirstAdmitted(c, r, tip.block);
    LockedBlockVoted(r, tip.block);
  }

  lemma FirstAdmitted(c: Committee, r: Replica, b: Block)
    requires c.Valid() && r.committee == c && r.blocks == map[GENESIS := GENESIS_BLOCK] && WellFormed(c, b, 1, GENESIS)
    ensures Admitted(c.n, r.blocks, b) && Importable(c, r.blocks) && HashOf(b) !in r.blocks
  {
    AdmittedIff(r, b);
  }
}
