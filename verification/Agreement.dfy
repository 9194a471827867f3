/** Safety over whole runs of the committee. */
module Agreement {
  import opened Wrappers
  import opened HotStuffTypes
  import opened SetFacts
  import opened Quorums
  import opened ReplicaLogic
  import opened VoteLog
  import opened ReplicaSystem

  ghost predicate StepTaken(s: Setting, before: Sys, step: Step, after: Sys) {
    && (forall i :: 0 <= i < |before.replicas| ==> before.replicas[i].committee.Valid())
    && (!step.ByzantineVote? ==> step.i < |before.replicas|)
    && Enabled(s, before, step)
    && after == Take(before, step)
  }

  /** A run: the initial state, and one enabled step between each state and the next. */
  ghost predicate Run(s: Setting, states: seq<Sys>, steps: seq<Step>) {
    && |states| == |steps| + 1
    && Init(s, states[0])
    && forall k {:trigger steps[k]} :: 0 <= k < |steps| ==> StepTaken(s, states[k], steps[k], states[k + 1])
  }

  lemma RunStep(s: Setting, states: seq<Sys>, steps: seq<Step>, k: nat)
    requires Run(s, states, steps) && k < |steps|
    ensures |states| == |steps| + 1 && StepTaken(s, states[k], steps[k], states[k + 1])
  {
    var step := steps[k];
  }

  lemma StepTakenInv(s: Setting, before: Sys, step: Step, after: Sys)
    requires s.Valid() && SysInv(s, before) && StepTaken(s, before, step, after)
    ensures SysInv(s, after) && Grows(s, before, after)
  {
    StepInv(s, before, step);
  }

  lemma {:induction false} RunInv(s: Setting, states: seq<Sys>, steps: seq<Step>, k: nat)
    requires s.Valid() && Run(s, states, steps) && k < |states|
    ensures SysInv(s, states[k])
  {
    if k == 0 {
      InitInv(s, states[0]);
    } else {
      var j := k - 1;
      RunInv(s, states, steps, j);
      RunStep(s, states, steps, j);
      StepTakenInv(s, states[j], steps[j], states[k]);
    }
  }

  lemma OneStepGrows(s: Setting, states: seq<Sys>, steps: seq<Step>, k: nat)
    requires s.Valid() && Run(s, states, steps) && k < |steps|
    ensures Grows(s, states[k], states[k + 1])
  {
    RunInv(s, states, steps, k);
    RunStep(s, states, steps, k);
    StepTakenInv(s, states[k], steps[k], states[k + 1]);
  }

  lemma GrowsTrans(s: Setting, a: Sys, b: Sys, c: Sys)
    requires Grows(s, a, b) && Grows(s, b, c)
    ensures Grows(s, a, c)
  {
  }

  lemma RunSize(s: Setting, states: seq<Sys>, steps: seq<Step>, k: nat)
    requires s.Valid() && Run(s, states, steps) && k < |states|
    ensures |states[k].replicas| == s.c.n
  {
    RunInv(s, states, steps, k);
  }

  /** Votes are never withdrawn and commits never undone. */
  lemma {:induction false} RunGrows(s: Setting, states: seq<Sys>, steps: seq<Step>, j: nat, k: nat)
    requires s.Valid() && Run(s, states, steps) && j <= k < |states|
    ensures Grows(s, states[j], states[k])
    decreases k - j
  {
    if j < k {
      RunGrows(s, states, steps, j, k - 1);
      OneStepGrows(s, states, steps, k - 1);
      GrowsTrans(s, states[j], states[k - 1], states[k]);
    } else {
      RunSize(s, states, steps, j);
      assert states[j].log <= states[k].log;
    }
  }

  lemma ListsAgree(s: Setting, log: Log, a: seq<Hash>, b: seq<Hash>)
    requires s.Valid() && LogInv(s, log) && CommittedInv(s, log, a) && CommittedInv(s, log, b)
    ensures a <= b || b <= a
  {
    TwoChainsAgree(s, log, Head(a), Head(b));
    TwoChainsAgree(s, log, Head(b), Head(a));
  }

  lemma CommittedMonotone(s: Setting, log: Log, more: Log, a: seq<Hash>)
    requires s.c.Valid() && log <= more && CommittedInv(s, log, a)
    ensures CommittedInv(s, more, a)
  {
    TwoChainMonotone(s, log, more, Head(a));
  }

  /** Agreement: whatever was proposed, voted, gossiped, imported or timed out, the committed lists of any
      two honest replicas, at any two moments of a run, are prefixes of one another. */
  lemma CommittedListsAgree(s: Setting, states: seq<Sys>, steps: seq<Step>, j: nat, a: int, k: nat, b: int)
    requires s.Valid() && Run(s, states, steps) && j < |states| && k < |states|
    requires s.Honest(a) && s.Honest(b)
    ensures |states[j].replicas| == |states[k].replicas| == s.c.n
    ensures var x, y := states[j].replicas[a].committed, states[k].replicas[b].committed; x <= y || y <= x
  {
    var last := if j <= k then k else j;
    RunInv(s, states, steps, j);
    RunInv(s, states, steps, k);
    RunGrows(s, states, steps, j, last);
    RunGrows(s, states, steps, k, last);
    CommittedMonotone(s, states[j].log, states[last].log, states[j].replicas[a].committed);
    CommittedMonotone(s, states[k].log, states[last].log, states[k].replicas[b].committed);
    ListsAgree(s, states[last].log, states[j].replicas[a].committed, states[k].replicas[b].committed);
  }

  /** The shape of a committed list: from genesis, each block the parent of the next, views rising. */
  ghost predicate ChainFromGenesis(list: seq<Hash>) {
    && |list| > 0
    && list[0] == GENESIS
    && (forall k :: 0 <= k < |list| ==> list[k].HashOf?)
    && (forall k :: 0 < k < |list| ==> list[k].block.parent == list[k - 1])
    && (forall i, k :: 0 <= i < k < |list| ==> list[i].block.view < list[k].block.view)
  }

  lemma {:induction false} PathIsChain(s: Setting, log: Log, h: Hash, view: int)
    requires s.Valid() && LogInv(s, log) && Justified(s, log, h, view)
    ensures |Path(h)| >= 2 && ChainFromGenesis(Path(h)[1..])
    decreases h
  {
    AncestorsJustified(s, log, h, view);
    JustifiedShape(s, log, h, view);
    if h != GENESIS {
      CertifiedShape(s, log, h, view);
      var parent := h.block.parent;
      PathIsChain(s, log, parent, JustifyView(h));
      assert Path(h)[1..] == Path(parent)[1..] + [h];
      var list := Path(h)[1..];
      forall i, k | 0 <= i < k < |list| ensures list[i].block.view < list[k].block.view {
        if k == |list| - 1 {
          assert Path(h)[i + 1].block.view < view;
        }
      }
    }
  }

  /** Every honest committed list is a chain from genesis; in particular nothing is listed twice. */
  lemma CommittedListShape(s: Setting, states: seq<Sys>, steps: seq<Step>, k: nat, a: int)
    requires s.Valid() && Run(s, states, steps) && k < |states| && s.Honest(a)
    ensures |states[k].replicas| == s.c.n
    ensures var list := states[k].replicas[a].committed;
      && ChainFromGenesis(list)
      && forall i, j :: 0 <= i < j < |list| ==> list[i] != list[j]
  {
    RunInv(s, states, steps, k);
    var r := states[k].replicas[a];
    TwoChainJustified(s, states[k].log, Head(r.committed));
    PathIsChain(s, states[k].log, Head(r.committed), Head(r.committed).block.view);
  }

  function ViewOf(h: Hash): int {
    if h.HashOf? then h.block.view else 0
  }

  /** What an honest replica has committed is the beginning of the history of every block certified at the
      view of its last committed block or later, at that moment or at any time after. */
  lemma CommitIsIrrevocable(s: Setting, states: seq<Sys>, steps: seq<Step>, j: nat, a: int, k: nat, h: Hash, view: int)
    requires s.Valid() && Run(s, states, steps) && j <= k < |states| && s.Honest(a)
    requires |states[j].replicas| == s.c.n && states[j].replicas[a].committed != []
    requires Justified(s, states[k].log, h, view) && view >= ViewOf(Head(states[j].replicas[a].committed))
    ensures states[j].replicas[a].committed <= Path(h)[1..]
  {
    RunInv(s, states, steps, j);
    RunInv(s, states, steps, k);
    RunGrows(s, states, steps, j, k);
    var log, list := states[k].log, states[j].replicas[a].committed;
    CommittedMonotone(s, states[j].log, log, list);
    TwoChainJustified(s, log, Head(list));
    HeadBelow(s, log, Head(list), h, view);
    AncestorPrefix(Head(list), h);
  }

  lemma HeadBelow(s: Setting, log: Log, d: Hash, h: Hash, view: int)
    requires s.Valid() && LogInv(s, log) && TwoChain(s, log, d) && Justified(s, log, h, view)
    requires d.HashOf? && view >= d.block.view
    ensures IsAncestor(d, h)
  {
    if d == GENESIS {
      AncestorsJustified(s, log, h, view);
    } else {
      var child: Block :| Supports(s, log, d, child);
      Irrevocable(s, log, d, child, h, view);
    }
  }

  /** In every reachable state a certified hash is a block of the certified view whose parent is certified
      at a strictly smaller view, and no other block is certified at that view. */
  lemma CertificationFacts(s: Setting, states: seq<Sys>, steps: seq<Step>, k: nat, h: Hash, view: int, other: Hash)
    requires s.Valid() && Run(s, states, steps) && k < |states|
    requires Certified(s, states[k].log, h, view)
    ensures h.HashOf? && h.block.view == view
    ensures h.block.justify.Some? && h.block.justify.value.hash == h.block.parent
    ensures h.block.justify.value.view < view
    ensures Justified(s, states[k].log, h.block.parent, h.block.justify.value.view)
    ensures Certified(s, states[k].log, other, view) ==> other == h
  {
    RunInv(s, states, steps, k);
    CertifiedShape(s, states[k].log, h, view);
    if Certified(s, states[k].log, other, view) {
      UniquePerView(s, states[k].log, h, other, view);
    }
  }

  /** The lock and the highest certificate of an honest replica never differ. */
  lemma HonestReplicaFacts(s: Setting, states: seq<Sys>, steps: seq<Step>, k: nat, a: int)
    requires s.Valid() && Run(s, states, steps) && k < |states| && s.Honest(a)
    ensures |states[k].replicas| == s.c.n
    ensures states[k].replicas[a].lockedQc == states[k].replicas[a].highQc
  {
    RunInv(s, states, steps, k);
  }

  // --- Without any bound on the number of Byzantine validators ---

  ghost predicate VotesRemembered(s: Setting, sys: Sys) {
    && |sys.replicas| == s.c.n
    && (forall i :: 0 <= i < s.c.n ==> sys.replicas[i].committee == s.c && sys.replicas[i].me == i)
    && forall i :: s.Honest(i) ==> VotedInv(sys.log, sys.replicas[i])
  }

  lemma OtherVoted(log: Log, cast: Cast, r: Replica)
    requires VotedInv(log, r) && cast.voter != r.me
    ensures VotedInv(log + [cast], r)
  {
    var more := log + [cast];
    forall k | 0 <= k < |more| && more[k].voter == r.me ensures Remembers(r, more[k]) {
      assert more[k] == log[k];
    }
  }

  ghost predicate KeepsVotes(r: Replica, after: Replica) {
    && after.me == r.me && after.committee == r.committee && after.votedViews == r.votedViews
    && after.currentView >= r.currentView && after.lockedQc.view >= r.lockedQc.view
  }

  lemma ApplyQcKeepsVotes(r: Replica, qc: QC)
    ensures KeepsVotes(r, ApplyQc(r, qc))
  {
  }

  lemma OnVoteKeepsVotes(r: Replica, v: Vote)
    requires r.committee.Valid()
    ensures KeepsVotes(r, OnVote(r, v).0)
  {
    var key := (v.hash, v.view);
    var bucket := BucketFor(r.pendingVotes, key)[v.voter := v.sig];
    ApplyQcKeepsVotes(r.(pendingVotes := r.pendingVotes - {key}), CertificateFrom(key, bucket));
  }

  lemma LocalKeepsVotes(r: Replica, step: Step)
    requires r.committee.Valid() && !step.ByzantineVote? && !step.Proposal?
    ensures KeepsVotes(r, Local(r, step))
  {
    if step.DeliverVote? {
      OnVoteKeepsVotes(r, step.vote);
    }
  }

  lemma ProposalRemembered(s: Setting, sys: Sys, i: nat, b: Block)
    requires s.c.Valid() && VotesRemembered(s, sys) && s.Honest(i)
    ensures VotesRemembered(s, Take(sys, Proposal(i, b)))
  {
    var r := sys.replicas[i];
    if WillVote(r, b) {
      var cast := Cast(r.me, b.view, HashOf(b), r.lockedQc);
      VoteRemembered(sys.log, r, b);
      forall j | s.Honest(j) && j != i ensures VotedInv(sys.log + [cast], sys.replicas[j]) {
        OtherVoted(sys.log, cast, sys.replicas[j]);
      }
    } else {
      assert sys.log + [] == sys.log;
    }
  }

  lemma StepRemembered(s: Setting, sys: Sys, step: Step)
    requires s.c.Valid() && VotesRemembered(s, sys) && Enabled(s, sys, step)
    ensures VotesRemembered(s, Take(sys, step))
  {
    match step
    case ByzantineVote(cast) =>
      forall i | s.Honest(i) ensures VotedInv(sys.log + [cast], sys.replicas[i]) {
        OtherVoted(sys.log, cast, sys.replicas[i]);
      }
    case Proposal(i, b) => ProposalRemembered(s, sys, i, b);
    case _ =>
      var r := sys.replicas[step.i];
      LocalKeepsVotes(r, step);
      VotedKept(sys.log, r, Local(r, step));
  }

  lemma {:induction false} RunRemembered(s: Setting, states: seq<Sys>, steps: seq<Step>, k: nat)
    requires s.c.Valid() && Run(s, states, steps) && k < |states|
    ensures VotesRemembered(s, states[k])
  {
    if k > 0 {
      RunRemembered(s, states, steps, k - 1);
      RunStep(s, states, steps, k - 1);
      StepRemembered(s, states[k - 1], steps[k - 1]);
    }
  }

  /** No honest validator ever votes for two blocks in one view, however many others are Byzantine. */
  lemma HonestVotesOnce(s: Setting, states: seq<Sys>, steps: seq<Step>, k: nat, i: int, g: Hash, h: Hash, view: int)
    requires s.c.Valid() && Run(s, states, steps) && k < |states| && s.Honest(i)
    requires HasCast(states[k].log, i, g, view) && HasCast(states[k].log, i, h, view)
    ensures g == h
  {
    RunRemembered(s, states, steps, k);
    var log, r := states[k].log, states[k].replicas[i];
    var a :| 0 <= a < |log| && log[a].voter == i && log[a].hash == g && log[a].view == view;
    var b :| 0 <= b < |log| && log[b].voter == i && log[b].hash == h && log[b].view == view;
    assert Remembers(r, log[a]) && Remembers(r, log[b]);
  }

  /** The network model loses nothing: whatever an honest replica sends can be delivered, and its messages
      pass the checks of the receiver. */
  lemma HonestMessagesDeliverable(s: Setting, states: seq<Sys>, steps: seq<Step>, k: nat, a: int, payload: Payload, b: Block)
    requires s.Valid() && Run(s, states, steps) && k < |states| && s.Honest(a)
    requires BlockDeliverable(s, states[k].log, b)
    ensures |states[k].replicas| == s.c.n
    ensures var r, log := states[k].replicas[a], states[k].log;
      && r.committee == s.c && r.me == a
      && BlockDeliverable(s, log, Propose(r, payload)) && JustifyHolds(s.c, Propose(r, payload))
      && QcDeliverable(s, log, MakeNewView(r).highQc) && NewViewVerifies(MakeNewView(r), s.c)
      && (WillVote(r, b) ==>
            && VoteDeliverable(s, log + NewCasts(r, b), VoteFor(r, b))
            && VoteVerifies(VoteFor(r, b), s.c))
  {
    RunInv(s, states, steps, k);
    var r, log := states[k].replicas[a], states[k].log;
    if WillVote(r, b) {
      var more := log + NewCasts(r, b);
      assert more[|log|] == Cast(a, b.view, HashOf(b), r.lockedQc);
      assert HasCast(more, a, HashOf(b), b.view);
    }
  }

  // --- Why genesis certificates must carry view 0 ---

  /** Genesis certificates are not verified.  A block with such a certificate that a replica votes for
      leaves the replica with a justified lock exactly when the certificate's view is not above the lock's. */
  lemma GenesisCertificateView(s: Setting, log: Log, r: Replica, b: Block)
    requires s.Valid() && LogInv(s, log) && ReplicaInv(s, log, r) && WillVote(r, b) && b.parent == GENESIS
    ensures var lock := OnProposal(r, b).0.lockedQc;
      Justified(s, log, lock.hash, lock.view) <==> b.justify.value.view <= r.lockedQc.view
  {
    BackedJustified(s, log, r.lockedQc);
    JustifiedShape(s, log, r.lockedQc.hash, r.lockedQc.view);
    var lock := OnProposal(r, b).0.lockedQc;
    if b.justify.value.view > r.lockedQc.view && Justified(s, log, lock.hash, lock.view) {
      JustifiedShape(s, log, lock.hash, lock.view);
      assert false;
    }
  }

  /** Such a certificate: a first proposal that moves the lock to view 9 although nobody has voted. */
  lemma GenesisCertificateAtPositiveView(s: Setting)
    requires s.Valid() && s.Honest(0)
    ensures var r := Initial(0, s.c);
      var b := Block(1, GENESIS, NoPayload, Some(s.c.LeaderForView(1)), Some(QC(GENESIS, 9, [], NoSig)));
      && WillVote(r, b) && OnProposal(r, b).0.lockedQc.view == 9
      && !Justified(s, [], GENESIS, 9)
  {
    assert Voters([], GENESIS, 9) == {};
  }
}
