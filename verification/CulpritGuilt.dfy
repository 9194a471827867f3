/** What evidence of conflicting commits proves about the validators it names: when it convicts each of them,
    when it cannot, and for which committees it names enough of them. */
module CulpritGuilt {
  import opened Wrappers
  import opened HotStuffTypes
  import opened SetFacts
  import opened Quorums
  import opened ReplicaLogic
  import opened VoteLog
  import opened ReplicaSystem
  import opened Agreement
  import opened Accountability
  import opened RelaxedRuns
  import opened Branches
  import opened AgreementConditions
  import HR = HonestRounds

  /** Evidence that verifies and contains no forged signature. */
  ghost predicate Genuine(s: Setting, log: Log, e: ConflictEvidence)
    requires s.c.Valid()
  {
    ConflictVerifies(e, s.c) && WitnessDeliverable(s, log, e.witnessA) && WitnessDeliverable(s, log, e.witnessB)
  }

  // --- The two signatures of a culprit ---

  /** The vote that a signer of a certificate gave. */
  function SignatureOf(qc: QC, i: int): Vote {
    Vote(qc.hash, qc.view, i, Sig(i, VoteMessage(qc.view, qc.hash)))
  }

  lemma SignerGave(c: Committee, qc: QC, i: int)
    requires c.Valid() && Verifies(qc, c) && InRange(c, qc.signers) && i in qc.signers
    ensures qc.agg.Agg? && SignatureOf(qc, i).sig in qc.agg.parts && VoteVerifies(SignatureOf(qc, i), c)
  {
    PartsAre(c, qc.signers, VoteMessage(qc.view, qc.hash));
    InRangeValidators(c, qc.signers);
  }

  /** What a culprit signed in the two certificates of the committed blocks is an equivocation exactly when the
      two blocks have the same view, which anyone can read off the evidence. */
  lemma SignaturesConflictIffSameView(c: Committee, e: ConflictEvidence, i: int)
    requires c.Valid() && ConflictVerifies(e, c) && i in Culprits(e)
    requires InRange(c, e.witnessA.qc0.signers) && InRange(c, e.witnessB.qc0.signers)
    ensures SignatureOf(e.witnessA.qc0, i).sig in e.witnessA.qc0.agg.parts
    ensures SignatureOf(e.witnessB.qc0, i).sig in e.witnessB.qc0.agg.parts
    ensures Conflicting(c, SignatureOf(e.witnessA.qc0, i), SignatureOf(e.witnessB.qc0, i))
      <==> e.witnessA.block0.view == e.witnessB.block0.view
  {
    SignerGave(c, e.witnessA.qc0, i);
    SignerGave(c, e.witnessB.qc0, i);
  }

  /** So a monitor that is shown those two signatures catches the culprit exactly then. */
  lemma CaughtIffSameView(c: Committee, e: ConflictEvidence, i: int)
    requires c.Valid() && ConflictVerifies(e, c) && i in Culprits(e)
    requires InRange(c, e.witnessA.qc0.signers) && InRange(c, e.witnessB.qc0.signers)
    ensures i in ObserveAll(c, [SignatureOf(e.witnessA.qc0, i), SignatureOf(e.witnessB.qc0, i)]).evidence
      <==> e.witnessA.block0.view == e.witnessB.block0.view
  {
    var a, b := SignatureOf(e.witnessA.qc0, i), SignatureOf(e.witnessB.qc0, i);
    SignaturesConflictIffSameView(c, e, i);
    MonitorExact(c, [a, b]);
    if Conflicting(c, a, b) {
      assert a in [a, b] && b in [a, b];
    }
  }

  // --- When evidence proves guilt ---

  /** In every run, with any number of Byzantine validators, genuine evidence about committed blocks of these two
      views names Byzantine validators only. */
  ghost predicate ProvesGuilt(c: Committee, va: int, vb: int)
    requires c.Valid()
  {
    forall byz: set<int>, states: seq<Sys>, steps: seq<Step>, k, e: ConflictEvidence, i ::
      (&& Run(Setting(c, byz), states, steps) && 0 <= k < |states| && Genuine(Setting(c, byz), states[k].log, e)
       && e.witnessA.block0.view == va && e.witnessB.block0.view == vb && i in Culprits(e)) ==>
        i in byz
  }

  lemma SameViewGuilty(s: Setting, states: seq<Sys>, steps: seq<Step>, k: nat, e: ConflictEvidence, i: int)
    requires s.c.Valid() && Run(s, states, steps) && k < |states| && Genuine(s, states[k].log, e)
    requires e.witnessA.block0.view == e.witnessB.block0.view && i in Culprits(e)
    ensures i in s.byz
  {
    var qa, qb, log := e.witnessA.qc0, e.witnessB.qc0, states[k].log;
    SignerGave(s.c, qa, i);
    SignerGave(s.c, qb, i);
    assert Unforged(s, log, SignatureOf(qa, i).sig) && Unforged(s, log, SignatureOf(qb, i).sig);
    assert 0 <= i < s.c.n;
    if s.Honest(i) {
      HonestVotesOnce(s, states, steps, k, i, qa.hash, qb.hash, qa.view);
    }
  }

  // --- Two three-block forks from genesis ---

  datatype Fork = Fork(name: nat, view: int, first: seq<int>, later: seq<int>)

  predicate SignersHold(c: Committee, signers: seq<int>)
    requires c.Valid()
  {
    |signers| >= c.QuorumSize() && NoRepeats(signers) && InRange(c, signers)
  }

  predicate ForkHolds(c: Committee, fk: Fork) {
    c.Valid() && fk.view >= 1 && SignersHold(c, fk.first) && SignersHold(c, fk.later)
  }

  function Bottom(c: Committee, fk: Fork): Block
    requires c.Valid()
  {
    BlockOn(c, fk.view, Command(fk.name), GENESIS_QC)
  }

  function Middle(c: Committee, fk: Fork): Block
    requires c.Valid()
  {
    BlockOn(c, fk.view + 1, NoPayload, CertFor(c, fk.first, HashOf(Bottom(c, fk)), fk.view))
  }

  function Top(c: Committee, fk: Fork): Block
    requires c.Valid()
  {
    BlockOn(c, fk.view + 2, NoPayload, CertFor(c, fk.later, HashOf(Middle(c, fk)), fk.view + 1))
  }

  function ForkWitness(c: Committee, fk: Fork): ThreeChainWitness
    requires c.Valid()
  {
    ThreeChainWitness(CertFor(c, fk.first, HashOf(Bottom(c, fk)), fk.view), Bottom(c, fk),
                      CertFor(c, fk.later, HashOf(Middle(c, fk)), fk.view + 1), Middle(c, fk),
                      CertFor(c, fk.later, HashOf(Top(c, fk)), fk.view + 2), Top(c, fk))
  }

  function ForkEvidence(c: Committee, fa: Fork, fb: Fork): ConflictEvidence
    requires c.Valid()
  {
    ConflictEvidence(ForkWitness(c, fa), [GENESIS_BLOCK, Bottom(c, fa)], ForkWitness(c, fb), [GENESIS_BLOCK, Bottom(c, fb)])
  }

  lemma CertHolds(c: Committee, signers: seq<int>, h: Hash, view: int)
    requires c.Valid() && SignersHold(c, signers)
    ensures Verifies(CertFor(c, signers, h, view), c)
    ensures CertFor(c, signers, h, view).hash == h && CertFor(c, signers, h, view).view == view
    ensures CertFor(c, signers, h, view).signers == signers
  {
    RangePlaced(c, signers);
    CertVerifies(c, signers, h, view);
  }

  lemma WitnessHolds(c: Committee, fk: Fork)
    requires ForkHolds(c, fk)
    ensures WitnessVerifies(ForkWitness(c, fk), c)
  {
    CertHolds(c, fk.first, HashOf(Bottom(c, fk)), fk.view);
    CertHolds(c, fk.later, HashOf(Middle(c, fk)), fk.view + 1);
    CertHolds(c, fk.later, HashOf(Top(c, fk)), fk.view + 2);
  }

  lemma ForkEvidenceVerifies(c: Committee, fa: Fork, fb: Fork)
    requires ForkHolds(c, fa) && ForkHolds(c, fb) && fa.name != fb.name
    ensures ConflictVerifies(ForkEvidence(c, fa, fb), c)
    ensures Culprits(ForkEvidence(c, fa, fb)) == (set i | i in fa.first) * (set i | i in fb.first)
  {
    WitnessHolds(c, fa);
    WitnessHolds(c, fb);
    CertHolds(c, fa.first, HashOf(Bottom(c, fa)), fa.view);
    CertHolds(c, fb.first, HashOf(Bottom(c, fb)), fb.view);
    assert Bottom(c, fa).payload != Bottom(c, fb).payload;
    assert Bottom(c, fa) !in [GENESIS_BLOCK, Bottom(c, fb)] && Bottom(c, fb) !in [GENESIS_BLOCK, Bottom(c, fa)];
  }

  // --- How many culprits there are ---

  ghost predicate NamesEnough(c: Committee)
    requires c.Valid()
  {
    forall e: ConflictEvidence ::
      ConflictVerifies(e, c) && InRange(c, e.witnessA.qc0.signers) && InRange(c, e.witnessB.qc0.signers) ==>
        |Culprits(e)| > c.F()
  }

  lemma MembersHold(c: Committee, members: set<int>)
    requires c.Valid() && members <= Indices(c.n) && |members| >= c.QuorumSize()
    ensures SignersHold(c, Sorted(members)) && (set i | i in Sorted(members)) == members
  {
    SortedList(Setting(c, {}), members);
  }

  /** Evidence always names more than f validators if and only if n = 3f+1. */
  lemma NamesEnoughIffExactSize(c: Committee)
    requires c.Valid()
    ensures NamesEnough(c) <==> ExactSize(c)
  {
    if ExactSize(c) {
      forall e: ConflictEvidence |
        ConflictVerifies(e, c) && InRange(c, e.witnessA.qc0.signers) && InRange(c, e.witnessB.qc0.signers)
        ensures |Culprits(e)| > c.F()
      {
        CulpritsExceedBound(c, e);
      }
    } else {
      var e := FewCulprits(c);
    }
  }

  lemma FewCulprits(c: Committee) returns (e: ConflictEvidence)
    requires c.Valid() && !ExactSize(c)
    ensures ConflictVerifies(e, c) && InRange(c, e.witnessA.qc0.signers) && InRange(c, e.witnessB.qc0.signers)
    ensures |Culprits(e)| <= c.F()
  {
    var a, b := BarelyOverlapping(c);
    MembersHold(c, a);
    MembersHold(c, b);
    var fa, fb := Fork(0, 1, Sorted(a), Sorted(a)), Fork(1, 1, Sorted(b), Sorted(b));
    ForkEvidenceVerifies(c, fa, fb);
    CertHolds(c, fa.first, HashOf(Bottom(c, fa)), fa.view);
    CertHolds(c, fb.first, HashOf(Bottom(c, fb)), fb.view);
    e := ForkEvidence(c, fa, fb);
  }

  // --- Driving a run along a fork ---

  /** A replica that is still locked on genesis and has not voted at this view or later. */
  ghost predicate AtGenesis(c: Committee, r: Replica, view: int) {
    && r.committee == c && GENESIS in r.blocks && r.lockedQc == GENESIS_QC && r.highQc == GENESIS_QC
    && r.currentView <= view && (forall v :: v in r.votedViews ==> v < view)
    && (forall key :: key in r.pendingVotes ==> key.1 < view)
  }

  lemma Proposable(c: Committee, view: int, payload: Payload, justify: QC)
    requires c.Valid() && (justify.hash == GENESIS || Verifies(justify, c))
    ensures RightfulProposer(c, BlockOn(c, view, payload, justify)) && JustifyHolds(c, BlockOn(c, view, payload, justify))
  {
    assert 0 <= c.LeaderForView(view) < c.n;
  }

  lemma BottomVote(c: Committee, r: Replica, fk: Fork)
    requires ForkHolds(c, fk) && AtGenesis(c, r, fk.view)
    ensures WillVote(AdvanceTo(r, fk.view), Bottom(c, fk))
    ensures AtGenesis(c, VoteOn(r, Bottom(c, fk)), fk.view + 1)
    ensures HR.ReplicaReady(c, VoteOn(r, Bottom(c, fk)), fk.view + 1, HashOf(Bottom(c, fk)))
  {
    var b, ready := Bottom(c, fk), AdvanceTo(r, fk.view);
    Proposable(c, fk.view, Command(fk.name), GENESIS_QC);
    assert WalkFinds(ready.blocks, GENESIS, GENESIS, MAX_STEPS);
    assert Path(NO_PARENT) == [NO_PARENT];
    assert Path(GENESIS) == [NO_PARENT, GENESIS];
    assert Path(HashOf(b)) == Path(GENESIS) + [HashOf(b)];
  }

  lemma NextVote(c: Committee, r: Replica, v: int, tip: Hash, b: Block)
    requires c.Valid() && r.committee == c && HR.ReplicaReady(c, r, v, tip) && tip.HashOf? && b.parent == tip
    requires b.view == v && b.justify.Some? && b.justify.value.view == v - 1
    requires RightfulProposer(c, b) && JustifyHolds(c, b)
    ensures CanVote(Setting(c, {}), r, b) && HR.ReplicaReady(c, VoteOn(r, b), v + 1, HashOf(b))
    ensures VoteOn(r, b).committee == c
  {
    HR.EveryoneVotes(c, r, v, tip, b);
    HR.ReadyAfterVote(c, r, v, tip, b);
    VoteKeepsPlace(r, b);
  }

  lemma MiddleVote(c: Committee, r: Replica, fk: Fork)
    requires ForkHolds(c, fk) && r.committee == c && HR.ReplicaReady(c, r, fk.view + 1, HashOf(Bottom(c, fk)))
    ensures CanVote(Setting(c, {}), r, Middle(c, fk)) && VoteOn(r, Middle(c, fk)).committee == c
    ensures HR.ReplicaReady(c, VoteOn(r, Middle(c, fk)), fk.view + 2, HashOf(Middle(c, fk)))
  {
    var cert := CertFor(c, fk.first, HashOf(Bottom(c, fk)), fk.view);
    CertHolds(c, fk.first, HashOf(Bottom(c, fk)), fk.view);
    Proposable(c, fk.view + 1, NoPayload, cert);
    NextVote(c, r, fk.view + 1, HashOf(Bottom(c, fk)), Middle(c, fk));
  }

  lemma TopVote(c: Committee, r: Replica, fk: Fork)
    requires ForkHolds(c, fk) && r.committee == c && HR.ReplicaReady(c, r, fk.view + 2, HashOf(Middle(c, fk)))
    ensures CanVote(Setting(c, {}), r, Top(c, fk))
  {
    var cert := CertFor(c, fk.later, HashOf(Middle(c, fk)), fk.view + 1);
    CertHolds(c, fk.later, HashOf(Middle(c, fk)), fk.view + 1);
    Proposable(c, fk.view + 2, NoPayload, cert);
    NextVote(c, r, fk.view + 2, HashOf(Middle(c, fk)), Top(c, fk));
  }

  lemma SignersVote(s: Setting, signers: seq<int>)
    requires s.c.Valid() && SignersHold(s.c, signers)
    ensures VoterList(s, signers) && forall k :: k in Validators(s.c, signers) ==> k in signers
  {
    RangePlaced(s.c, signers);
  }

  /** Once its signers have voted, a certificate can be sent. */
  lemma CertSendable(s: Setting, log: Log, signers: seq<int>, h: Hash, view: int)
    requires s.c.Valid() && SignersHold(s.c, signers) && AllCast(log, signers, h, view) && h != GENESIS
    ensures QcDeliverable(s, log, CertFor(s.c, signers, h, view))
  {
    SignersVote(s, signers);
    CertAllowed(STRICT, s, log, signers, signers, h, view);
  }

  /** Which honest replicas are ready for the next block after some of them have voted. */
  ghost predicate LaterReady(s: Setting, sys: Sys, voters: seq<int>, v: int, tip: Hash)
    requires s.c.Valid() && |sys.replicas| == s.c.n
  {
    forall i :: 0 <= i < s.c.n && i in voters && i !in s.byz ==>
      sys.replicas[i].committee == s.c && HR.ReplicaReady(s.c, sys.replicas[i], v, tip)
  }

  lemma BottomRound(s: Setting, sys: Sys, fk: Fork) returns (after: Sys)
    requires At(STRICT, s, sys) && ForkHolds(s.c, fk)
    requires forall i :: 0 <= i < s.c.n && i in fk.first && i !in s.byz ==> AtGenesis(s.c, sys.replicas[i], fk.view)
    requires forall i :: i in fk.later && i !in s.byz ==> i in fk.first
    ensures At(STRICT, s, after) && sys.log <= after.log && Voted(s, sys, after, fk.first, Bottom(s.c, fk))
    ensures AllCast(after.log, fk.first, HashOf(Bottom(s.c, fk)), fk.view)
    ensures LaterReady(s, after, fk.later, fk.view + 1, HashOf(Bottom(s.c, fk)))
  {
    SignersVote(s, fk.first);
    var b := Bottom(s.c, fk);
    forall i | 0 <= i < |fk.first| && fk.first[i] !in s.byz ensures CanVote(s, sys.replicas[fk.first[i]], b) {
      BottomVote(s.c, sys.replicas[fk.first[i]], fk);
    }
    after := Round(STRICT, s, sys, fk.first, b);
    forall i | 0 <= i < s.c.n && i in fk.later && i !in s.byz
      ensures after.replicas[i].committee == s.c && HR.ReplicaReady(s.c, after.replicas[i], fk.view + 1, HashOf(b))
    {
      BottomVote(s.c, sys.replicas[i], fk);
    }
  }

  lemma MiddleRound(s: Setting, sys: Sys, fk: Fork) returns (after: Sys)
    requires At(STRICT, s, sys) && ForkHolds(s.c, fk)
    requires LaterReady(s, sys, fk.later, fk.view + 1, HashOf(Bottom(s.c, fk)))
    requires AllCast(sys.log, fk.first, HashOf(Bottom(s.c, fk)), fk.view)
    ensures At(STRICT, s, after) && sys.log <= after.log && Voted(s, sys, after, fk.later, Middle(s.c, fk))
    ensures AllCast(after.log, fk.later, HashOf(Middle(s.c, fk)), fk.view + 1)
    ensures LaterReady(s, after, fk.later, fk.view + 2, HashOf(Middle(s.c, fk)))
  {
    SignersVote(s, fk.later);
    var b := Middle(s.c, fk);
    CertSendable(s, sys.log, fk.first, HashOf(Bottom(s.c, fk)), fk.view);
    forall i | 0 <= i < |fk.later| && fk.later[i] !in s.byz ensures CanVote(s, sys.replicas[fk.later[i]], b) {
      MiddleVote(s.c, sys.replicas[fk.later[i]], fk);
    }
    after := Round(STRICT, s, sys, fk.later, b);
    forall i | 0 <= i < s.c.n && i in fk.later && i !in s.byz
      ensures after.replicas[i].committee == s.c && HR.ReplicaReady(s.c, after.replicas[i], fk.view + 2, HashOf(b))
    {
      MiddleVote(s.c, sys.replicas[i], fk);
    }
  }

  lemma TopRound(s: Setting, sys: Sys, fk: Fork) returns (after: Sys)
    requires At(STRICT, s, sys) && ForkHolds(s.c, fk)
    requires LaterReady(s, sys, fk.later, fk.view + 2, HashOf(Middle(s.c, fk)))
    requires AllCast(sys.log, fk.later, HashOf(Middle(s.c, fk)), fk.view + 1)
    ensures At(STRICT, s, after) && sys.log <= after.log && Voted(s, sys, after, fk.later, Top(s.c, fk))
    ensures AllCast(after.log, fk.later, HashOf(Top(s.c, fk)), fk.view + 2)
  {
    SignersVote(s, fk.later);
    CertSendable(s, sys.log, fk.later, HashOf(Middle(s.c, fk)), fk.view + 1);
    forall i | 0 <= i < |fk.later| && fk.later[i] !in s.byz
      ensures CanVote(s, sys.replicas[fk.later[i]], Top(s.c, fk))
    {
      TopVote(s.c, sys.replicas[fk.later[i]], fk);
    }
    after := Round(STRICT, s, sys, fk.later, Top(s.c, fk));
  }

  /** A whole fork: afterwards its witness can be shown to anyone, validators outside it are untouched, and those
      that signed only its first block are still locked on genesis. */
  lemma DriveFork(s: Setting, sys: Sys, fk: Fork) returns (after: Sys)
    requires At(STRICT, s, sys) && ForkHolds(s.c, fk)
    requires forall i :: 0 <= i < s.c.n && i in fk.first && i !in s.byz ==> AtGenesis(s.c, sys.replicas[i], fk.view)
    requires forall i :: i in fk.later && i !in s.byz ==> i in fk.first
    ensures At(STRICT, s, after) && sys.log <= after.log
    ensures WitnessDeliverable(s, after.log, ForkWitness(s.c, fk))
    ensures forall i :: 0 <= i < s.c.n && i in fk.first && i !in fk.later && i !in s.byz ==>
      AtGenesis(s.c, after.replicas[i], fk.view + 1)
  {
    var one := BottomRound(s, sys, fk);
    var two := MiddleRound(s, one, fk);
    after := TopRound(s, two, fk);
    OnlyFirst(s, sys, one, two, after, fk);
    AllCastMonotone(one.log, after.log, fk.first, HashOf(Bottom(s.c, fk)), fk.view);
    AllCastMonotone(two.log, after.log, fk.later, HashOf(Middle(s.c, fk)), fk.view + 1);
    WitnessSendable(s, after.log, fk);
  }

  lemma OnlyFirst(s: Setting, sys: Sys, one: Sys, two: Sys, after: Sys, fk: Fork)
    requires ForkHolds(s.c, fk) && Voted(s, sys, one, fk.first, Bottom(s.c, fk))
    requires Voted(s, one, two, fk.later, Middle(s.c, fk)) && Voted(s, two, after, fk.later, Top(s.c, fk))
    requires forall i :: 0 <= i < s.c.n && i in fk.first && i !in s.byz ==> AtGenesis(s.c, sys.replicas[i], fk.view)
    ensures forall i :: 0 <= i < s.c.n && i in fk.first && i !in fk.later && i !in s.byz ==>
      AtGenesis(s.c, after.replicas[i], fk.view + 1)
  {
    forall i | 0 <= i < s.c.n && i in fk.first && i !in fk.later && i !in s.byz
      ensures AtGenesis(s.c, after.replicas[i], fk.view + 1)
    {
      BottomVote(s.c, sys.replicas[i], fk);
      assert after.replicas[i] == two.replicas[i] == one.replicas[i];
    }
  }

  lemma WitnessSendable(s: Setting, log: Log, fk: Fork)
    requires ForkHolds(s.c, fk) && AllCast(log, fk.first, HashOf(Bottom(s.c, fk)), fk.view)
    requires AllCast(log, fk.later, HashOf(Middle(s.c, fk)), fk.view + 1)
    requires AllCast(log, fk.later, HashOf(Top(s.c, fk)), fk.view + 2)
    ensures WitnessDeliverable(s, log, ForkWitness(s.c, fk))
  {
    CertSendable(s, log, fk.first, HashOf(Bottom(s.c, fk)), fk.view);
    CertSendable(s, log, fk.later, HashOf(Middle(s.c, fk)), fk.view + 1);
    CertSendable(s, log, fk.later, HashOf(Top(s.c, fk)), fk.view + 2);
  }

  lemma WitnessMonotone(s: Setting, log: Log, more: Log, w: ThreeChainWitness)
    requires log <= more && WitnessDeliverable(s, log, w)
    ensures WitnessDeliverable(s, more, w)
  {
    QcDeliverableMonotone(s, log, more, w.qc0);
    QcDeliverableMonotone(s, log, more, w.qc1);
    QcDeliverableMonotone(s, log, more, w.qc2);
  }

  /** Two forks, the earlier one first; those who sign only the earlier bottom block sign the whole later fork. */
  lemma TwoForks(s: Setting, fa: Fork, fb: Fork) returns (sys: Sys)
    requires ForkHolds(s.c, fa) && ForkHolds(s.c, fb) && fa.view < fb.view && fa.name != fb.name
    requires forall i :: i in fa.later && i !in s.byz ==> i in fa.first
    requires forall i :: i in fb.later && i !in s.byz ==> i in fb.first
    requires forall i :: i in fb.first && i !in s.byz ==> i in fa.first && i !in fa.later
    ensures Reached(STRICT, s, sys)
    ensures Genuine(s, sys.log, ForkEvidence(s.c, fa, fb)) && Genuine(s, sys.log, ForkEvidence(s.c, fb, fa))
  {
    var start := StartReached(STRICT, s);
    var mid := DriveFork(s, start, fa);
    sys := DriveFork(s, mid, fb);
    WitnessMonotone(s, mid.log, sys.log, ForkWitness(s.c, fa));
    ForkEvidenceVerifies(s.c, fa, fb);
    ForkEvidenceVerifies(s.c, fb, fa);
  }

  // --- The theorem ---

  /** f+1 Byzantine validators (of 3f+1) and two groups of honest ones: the first group signs the bottom block of
      the earlier fork and the whole later fork, the second the rest of the earlier fork. */
  lemma BlamelessNamed(c: Committee, va: int, vb: int) returns (byz: set<int>, sys: Sys, e: ConflictEvidence)
    requires c.Valid() && va >= 1 && vb >= 1 && va != vb
    ensures Reached(STRICT, Setting(c, byz), sys) && Genuine(Setting(c, byz), sys.log, e)
    ensures byz == Interval(2 * c.F(), c.n)
    ensures e.witnessA.block0.view == va && e.witnessB.block0.view == vb && 0 in Culprits(e) && 0 !in byz
  {
    var low, high := if va < vb then va else vb, if va < vb then vb else va;
    var fa, fb;
    byz, fa, fb := Groups(c, low, high);
    sys := TwoForks(Setting(c, byz), fa, fb);
    ForkEvidenceVerifies(c, fa, fb);
    ForkEvidenceVerifies(c, fb, fa);
    e := if va < vb then ForkEvidence(c, fa, fb) else ForkEvidence(c, fb, fa);
  }

  lemma Groups(c: Committee, low: int, high: int) returns (byz: set<int>, fa: Fork, fb: Fork)
    requires c.Valid() && 1 <= low < high
    ensures byz == Interval(2 * c.F(), c.n) && 0 !in byz && 0 in fa.first && 0 in fb.first
    ensures ForkHolds(c, fa) && ForkHolds(c, fb) && fa.view == low && fb.view == high && fa.name != fb.name
    ensures forall i :: i in fa.later && i !in byz ==> i in fa.first
    ensures forall i :: i in fb.later && i !in byz ==> i in fb.first
    ensures forall i :: i in fb.first && i !in byz ==> i in fa.first && i !in fa.later
  {
    var f := c.F();
    byz := Interval(2 * f, c.n);
    var all, second, first := Interval(0, c.n), Interval(f, c.n), Interval(0, f) + byz;
    GroupSizes(c.n, f);
    MembersHold(c, all);
    MembersHold(c, second);
    MembersHold(c, first);
    fa, fb := Fork(0, low, Sorted(all), Sorted(second)), Fork(1, high, Sorted(first), Sorted(first));
  }

  lemma GroupSizes(n: nat, f: nat)
    requires 1 <= f && 3 * f + 1 <= n
    ensures |Interval(0, n)| >= 2 * f + 1 && |Interval(f, n)| >= 2 * f + 1
    ensures |Interval(0, f) + Interval(2 * f, n)| >= 2 * f + 1
    ensures Interval(0, f) + Interval(2 * f, n) <= Indices(n) && Interval(f, n) <= Indices(n)
  {
    IntervalSize(0, n);
    IntervalSize(f, n);
    IntervalSize(0, f);
    IntervalSize(2 * f, n);
    assert Interval(0, f) * Interval(2 * f, n) == {};
  }

  /** Evidence about two committed blocks proves the guilt of everyone it names if and only if the blocks have the
      same view: then the two signatures are an equivocation, and for every other pair of views there is a run in
      which the evidence names an honest validator, which by HonestVotesOnce never equivocates. */
  lemma ProvesGuiltIffSameView(c: Committee, va: int, vb: int)
    requires c.Valid() && va >= 1 && vb >= 1
    ensures ProvesGuilt(c, va, vb) <==> va == vb
  {
    if va == vb {
      forall byz: set<int>, states: seq<Sys>, steps: seq<Step>, k, e: ConflictEvidence, i |
        Run(Setting(c, byz), states, steps) && 0 <= k < |states| && Genuine(Setting(c, byz), states[k].log, e)
        && e.witnessA.block0.view == va && e.witnessB.block0.view == vb && i in Culprits(e)
        ensures i in byz
      {
        SameViewGuilty(Setting(c, byz), states, steps, k, e, i);
      }
    } else {
      var byz, sys, e := BlamelessNamed(c, va, vb);
      NoProof(c, va, vb, byz, sys, e, 0);
    }
  }

  lemma NoProof(c: Committee, va: int, vb: int, byz: set<int>, sys: Sys, e: ConflictEvidence, i: int)
    requires c.Valid() && Reached(STRICT, Setting(c, byz), sys) && Genuine(Setting(c, byz), sys.log, e)
    requires e.witnessA.block0.view == va && e.witnessB.block0.view == vb && i in Culprits(e) && i !in byz
    ensures !ProvesGuilt(c, va, vb)
  {
    var s := Setting(c, byz);
    var states: seq<Sys>, events: seq<Event> :| RelaxedRun(STRICT, s, states, events) && states[|events|] == sys;
    StrictIsRun(s, states, events);
    var k := |events|;
    assert Genuine(s, states[k].log, e);
  }
}
