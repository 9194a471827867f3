/** The committee as a step system: honest replicas run `ReplicaLogic` on whatever the network delivers,
    Byzantine validators vote at will under their own index.  Agreement over every run. */
module ReplicaSystem {
  import opened Wrappers
  import opened HotStuffTypes
  import opened SetFacts
  import opened Quorums
  import opened ReplicaLogic
  import opened VoteLog

  datatype Sys = Sys(replicas: seq<Replica>, log: Log)

  datatype Step =
    | Proposal(i: nat, block: Block)
    | DeliverVote(i: nat, vote: Vote)
    | DeliverNewView(i: nat, msg: NewViewMsg)
    | ImportBlock(i: nat, block: Block)
    | Advance(i: nat, view: int)
    | Timeout(i: nat, timedOut: bool)
    | ByzantineVote(cast: Cast)

  // --- What the network can deliver ---

  /** Signatures cannot be forged: a committee member's signature on a vote exists only if it was cast. */
  ghost predicate Unforged(s: Setting, log: Log, sig: Sig) {
    sig.Sig? && sig.msg.VoteMessage? && 0 <= sig.key < s.c.n ==> HasCast(log, sig.key, sig.msg.hash, sig.msg.view)
  }

  /** The side conditions on a certificate: unforged parts, positions in [0, n), and genesis only at view 0. */
  ghost predicate QcDeliverable(s: Setting, log: Log, qc: QC) {
    && InRange(s.c, qc.signers)
    && (qc.agg.Agg? ==> forall p :: p in qc.agg.parts ==> Unforged(s, log, p))
    && (qc.hash == GENESIS ==> qc.view == 0)
  }

  ghost predicate BlockDeliverable(s: Setting, log: Log, b: Block) {
    b.justify.Some? ==> QcDeliverable(s, log, b.justify.value)
  }

  ghost predicate VoteDeliverable(s: Setting, log: Log, v: Vote) {
    0 <= v.voter < s.c.n && Unforged(s, log, v.sig)
  }

  // --- Runs ---

  ghost predicate Init(s: Setting, sys: Sys)
  {
    && |sys.replicas| == s.c.n
    && (forall i :: 0 <= i < s.c.n ==> sys.replicas[i] == Initial(i, s.c))
    && sys.log == []
  }

  ghost predicate Deliverable(s: Setting, log: Log, step: Step) {
    match step
    case Proposal(_, b) => BlockDeliverable(s, log, b)
    case ImportBlock(_, b) => BlockDeliverable(s, log, b)
    case DeliverVote(_, v) => VoteDeliverable(s, log, v)
    case DeliverNewView(_, m) => QcDeliverable(s, log, m.highQc)
    case _ => true
  }

  ghost predicate Enabled(s: Setting, sys: Sys, step: Step) {
    if step.ByzantineVote? then step.cast.voter in s.byz
    else s.Honest(step.i) && Deliverable(s, sys.log, step)
  }

  /** The vote a proposal step adds to the log. */
  function NewCasts(r: Replica, b: Block): Log
    requires r.committee.Valid()
  {
    if OnProposal(r, b).1.Some? then [Cast(r.me, b.view, HashOf(b), r.lockedQc)] else []
  }

  /** What a step other than a proposal does to the replica it reaches. */
  function Local(r: Replica, step: Step): Replica
    requires r.committee.Valid() && !step.ByzantineVote? && !step.Proposal?
  {
    match step
    case ImportBlock(_, b) => Import(r, b).0
    case DeliverVote(_, v) => OnVote(r, v).0
    case DeliverNewView(_, m) => OnNewView(r, m).0
    case Advance(_, view) => AdvanceTo(r, view)
    case Timeout(_, timedOut) => MaybeAdvance(r, timedOut)
  }

  function Take(sys: Sys, step: Step): Sys
    requires forall i :: 0 <= i < |sys.replicas| ==> sys.replicas[i].committee.Valid()
    requires !step.ByzantineVote? ==> step.i < |sys.replicas|
  {
    match step
    case ByzantineVote(cast) => sys.(log := sys.log + [cast])
    case Proposal(i, b) =>
      var r := sys.replicas[i];
      Sys(sys.replicas[i := OnProposal(r, b).0], sys.log + NewCasts(r, b))
    case _ => sys.(replicas := sys.replicas[step.i := Local(sys.replicas[step.i], step)])
  }

  // --- The invariant ---

  /** A certificate a replica may act on. */
  ghost predicate Backed(s: Setting, log: Log, qc: QC)
    requires s.c.Valid()
  {
    QcDeliverable(s, log, qc) && (qc.hash == GENESIS || Verifies(qc, s.c))
  }

  /** Every stored block other than genesis has its parent stored and certified. */
  ghost predicate StoreInv(s: Setting, log: Log, blocks: BlockStore)
    requires s.c.Valid()
  {
    && GENESIS in blocks
    && forall h :: h in blocks && h != GENESIS ==> StoredWell(s, log, blocks, h)
  }

  ghost predicate StoredWell(s: Setting, log: Log, blocks: BlockStore, h: Hash)
    requires s.c.Valid()
  {
    && h.HashOf?
    && h.block.parent in blocks
    && h.block.justify.Some?
    && h.block.justify.value.hash == h.block.parent
    && Justified(s, log, h.block.parent, JustifyView(h))
  }

  /** The committed list is the whole history of its last entry, from genesis on. */
  ghost predicate CommittedInv(s: Setting, log: Log, committed: seq<Hash>)
    requires s.c.Valid()
  {
    && |committed| > 0
    && TwoChain(s, log, Head(committed))
    && committed == Path(Head(committed))[1..]
  }

  function Head(committed: seq<Hash>): Hash
    requires |committed| > 0
  {
    committed[|committed| - 1]
  }

  ghost predicate CoreInv(s: Setting, log: Log, r: Replica)
    requires s.c.Valid()
  {
    && r.committee == s.c
    && StoreInv(s, log, r.blocks)
    && Backed(s, log, r.highQc)
    && Backed(s, log, r.lockedQc)
    && r.highQc == r.lockedQc
    && CommittedInv(s, log, r.committed)
  }

  /** What a replica remembers of its own votes. */
  ghost predicate VotedInv(log: Log, r: Replica) {
    && r.currentView >= 1
    && forall k :: 0 <= k < |log| && log[k].voter == r.me ==> Remembers(r, log[k])
  }

  ghost predicate Remembers(r: Replica, cast: Cast) {
    && cast.view <= r.currentView
    && cast.view in r.votedViews
    && r.votedViews[cast.view] == cast.hash
    && JustifyView(cast.hash) <= r.lockedQc.view
  }

  ghost predicate BucketInv(s: Setting, log: Log, key: (Hash, int), bucket: map<int, Sig>) {
    forall i :: i in bucket ==>
      0 <= i < s.c.n && bucket[i] == Sig(i, VoteMessage(key.1, key.0)) && Unforged(s, log, bucket[i])
  }

  ghost predicate PendingInv(s: Setting, log: Log, r: Replica) {
    && (forall key :: key in r.pendingVotes ==> BucketInv(s, log, key, r.pendingVotes[key]))
    && (forall view :: view in r.pendingNewViews ==> NewViewsInv(s, log, r.pendingNewViews[view]))
  }

  ghost predicate NewViewsInv(s: Setting, log: Log, bucket: seq<NewViewMsg>) {
    forall i :: 0 <= i < |bucket| ==> QcDeliverable(s, log, bucket[i].highQc)
  }

  ghost predicate ReplicaInv(s: Setting, log: Log, r: Replica)
    requires s.c.Valid()
  {
    CoreInv(s, log, r) && VotedInv(log, r) && PendingInv(s, log, r)
  }

  ghost predicate SysInv(s: Setting, sys: Sys)
    requires s.c.Valid()
  {
    && |sys.replicas| == s.c.n
    && (forall i :: 0 <= i < s.c.n ==> sys.replicas[i].committee == s.c && sys.replicas[i].me == i)
    && LogInv(s, sys.log)
    && forall i :: s.Honest(i) ==> ReplicaInv(s, sys.log, sys.replicas[i])
  }

  // --- Certificates ---

  /** A quorum of signatures that verify and are not forged is a quorum of votes. */
  lemma VerifiedIsCertified(s: Setting, log: Log, qc: QC)
    requires s.Valid() && Verifies(qc, s.c) && InRange(s.c, qc.signers)
    requires forall p :: p in qc.agg.parts ==> Unforged(s, log, p)
    ensures Certified(s, log, qc.hash, qc.view)
  {
    InRangeSignersAreQuorum(qc, s.c);
    var msg := VoteMessage(qc.view, qc.hash);
    PartsAre(s.c, qc.signers, msg);
    VotersAre(log, qc.hash, qc.view);
    forall k | k in Validators(s.c, qc.signers) ensures k in Voters(log, qc.hash, qc.view) {
      assert Sig(k, msg) in qc.agg.parts;
      assert Unforged(s, log, Sig(k, msg));
    }
    SubsetSize(Validators(s.c, qc.signers), Voters(log, qc.hash, qc.view));
  }

  lemma BackedJustified(s: Setting, log: Log, qc: QC)
    requires s.Valid() && LogInv(s, log) && Backed(s, log, qc)
    ensures Justified(s, log, qc.hash, qc.view)
  {
    if qc.hash != GENESIS {
      VerifiedIsCertified(s, log, qc);
    }
  }

  lemma {:induction false} PartsOfBucket(c: Committee, bucket: map<int, Sig>, signers: seq<int>, msg: Message)
    requires forall i :: 0 <= i < |signers| ==> signers[i] in bucket
    requires forall i :: i in bucket ==> 0 <= i < c.n && bucket[i] == Sig(i, msg)
    ensures ExpectedParts(c, signers, msg) == Some(SigsAt(bucket, signers))
    ensures forall p :: p in SigsAt(bucket, signers) ==> exists i :: i in bucket && bucket[i] == p
  {
    if signers != [] {
      PartsOfBucket(c, bucket, signers[1..], msg);
      assert signers[0] in bucket;
    }
  }

  lemma FormedQcVerifies(c: Committee, key: (Hash, int), bucket: map<int, Sig>)
    requires c.Valid() && |bucket| >= c.QuorumSize()
    requires forall i :: i in bucket ==> 0 <= i < c.n && bucket[i] == Sig(i, VoteMessage(key.1, key.0))
    ensures var qc := CertificateFrom(key, bucket);
      && Verifies(qc, c) && InRange(c, qc.signers)
      && forall p :: p in qc.agg.parts ==> exists i :: i in bucket && bucket[i] == p
  {
    var signers := Sorted(bucket.Keys);
    assert |bucket.Keys| == |bucket|;
    forall i | 0 <= i < |signers| ensures signers[i] in bucket {
      assert signers[i] in bucket.Keys;
    }
    PartsOfBucket(c, bucket, signers, VoteMessage(key.1, key.0));
  }

  /** A certificate formed from collected votes verifies, and is backed. */
  lemma FormedQcBacked(s: Setting, log: Log, key: (Hash, int), bucket: map<int, Sig>)
    requires s.Valid() && LogInv(s, log) && BucketInv(s, log, key, bucket) && |bucket| >= s.c.QuorumSize()
    ensures Backed(s, log, CertificateFrom(key, bucket))
  {
    var qc := CertificateFrom(key, bucket);
    FormedQcVerifies(s.c, key, bucket);
    forall p | p in qc.agg.parts ensures Unforged(s, log, p) {
      var i :| i in bucket && bucket[i] == p;
    }
    VerifiedIsCertified(s, log, qc);
    JustifiedShape(s, log, qc.hash, qc.view);
  }

  // --- The commit rule ---

  /** A three-chain in a sound store is a two-chain of certified blocks. */
  lemma CommitTargetTwoChain(s: Setting, log: Log, blocks: BlockStore, qc: QC)
    requires s.Valid() && LogInv(s, log) && StoreInv(s, log, blocks) && CommitTarget(blocks, qc).Some?
    ensures CommitTarget(blocks, qc).value in blocks
    ensures TwoChain(s, log, CommitTarget(blocks, qc).value)
  {
    var h2 := qc.hash;
    assert StoredWell(s, log, blocks, h2);
    var h1 := h2.block.justify.value.hash;
    assert StoredWell(s, log, blocks, h1);
    JustifiedShape(s, log, h1, JustifyView(h2));
    assert Supports(s, log, CommitTarget(blocks, qc).value, h1.block);
  }

  ghost predicate ParentClosed(blocks: BlockStore) {
    forall h :: h in blocks && h != GENESIS ==> h.HashOf? && h.block.parent in blocks
  }

  /** The walk back from h collects exactly the part of h's history after the head d. */
  lemma {:induction false} WalkIsSuffix(blocks: BlockStore, committed: seq<Hash>, d: Hash, h: Hash)
    requires ParentClosed(blocks) && GENESIS in committed && committed == Path(d)[1..]
    requires h in blocks && h !in committed && Path(d) <= Path(h)
    ensures Uncommitted(blocks, committed, h) == Path(h)[|Path(d)|..]
    decreases h
  {
    assert h == HashOf(blocks[h]);
    var parent := h.block.parent;
    NotTheHead(d, h, committed);
    AppendedSuffix(Path(d), Path(parent), h);
    if parent in committed {
      PrefixEnds(d, parent, committed);
    } else {
      WalkIsSuffix(blocks, committed, d, parent);
    }
  }

  lemma AppendedSuffix<T>(start: seq<T>, list: seq<T>, x: T)
    requires start <= list + [x] && |start| <= |list|
    ensures start <= list && (list + [x])[|start|..] == list[|start|..] + [x]
  {
    assert forall i :: 0 <= i < |start| ==> start[i] == (list + [x])[i] == list[i];
  }

  lemma NotTheHead(d: Hash, h: Hash, committed: seq<Hash>)
    requires committed == Path(d)[1..] && |committed| > 0 && h !in committed && Path(d) <= Path(h)
    ensures |Path(d)| < |Path(h)|
  {
    assert committed[|committed| - 1] == d;
  }

  /** A listed hash whose history begins with that of the head is the head. */
  lemma PrefixEnds(d: Hash, parent: Hash, committed: seq<Hash>)
    requires committed == Path(d)[1..] && parent in committed && Path(d) <= Path(parent)
    ensures Path(parent) == Path(d)
  {
    var k :| 0 <= k < |committed| && committed[k] == parent;
    assert Path(d)[k + 1] == parent;
    AncestorPrefix(parent, d);
  }

  lemma UncommittedIsSuffix(s: Setting, log: Log, blocks: BlockStore, committed: seq<Hash>, h: Hash)
    requires s.Valid() && LogInv(s, log) && StoreInv(s, log, blocks) && CommittedInv(s, log, committed)
    requires h in blocks && h !in committed && Path(Head(committed)) <= Path(h)
    ensures Uncommitted(blocks, committed, h) == Path(h)[|Path(Head(committed))|..]
  {
    var d := Head(committed);
    TwoChainJustified(s, log, d);
    AncestorsJustified(s, log, d, d.block.view);
    assert committed[0] == GENESIS;
    assert forall g :: g in blocks && g != GENESIS ==> StoredWell(s, log, blocks, g);
    WalkIsSuffix(blocks, committed, d, h);
  }

  lemma HeadHistoryListed(s: Setting, log: Log, committed: seq<Hash>, h: Hash)
    requires s.Valid() && LogInv(s, log) && CommittedInv(s, log, committed)
    requires h.HashOf? && IsAncestor(h, Head(committed))
    ensures h in committed
  {
    var d := Head(committed);
    TwoChainJustified(s, log, d);
    AncestorsJustified(s, log, d, d.block.view);
    var k :| 0 <= k < |Path(d)| && Path(d)[k] == h;
    assert committed[k - 1] == h;
  }

  /** A committed block that is not yet listed lies above the listed head. */
  lemma TargetAboveHead(s: Setting, log: Log, committed: seq<Hash>, h: Hash)
    requires s.Valid() && LogInv(s, log) && CommittedInv(s, log, committed)
    requires TwoChain(s, log, h) && h !in committed
    ensures Path(Head(committed)) <= Path(h)
  {
    var d := Head(committed);
    TwoChainsAgree(s, log, d, h);
    TwoChainsAgree(s, log, h, d);
    if IsAncestor(h, d) {
      HeadHistoryListed(s, log, committed, h);
      assert false;
    }
    if Path(h) <= Path(d) {
      PrefixAncestor(h, d);
      assert false;
    }
  }

  lemma ListedSuffix(s: Setting, log: Log, blocks: BlockStore, committed: seq<Hash>, h: Hash)
    requires s.Valid() && LogInv(s, log) && StoreInv(s, log, blocks) && CommittedInv(s, log, committed)
    requires TwoChain(s, log, h) && h in blocks && h !in committed
    ensures committed + Uncommitted(blocks, committed, h) == Path(h)[1..]
  {
    TargetAboveHead(s, log, committed, h);
    UncommittedIsSuffix(s, log, blocks, committed, h);
    SuffixJoins(Path(Head(committed)), Path(h));
  }

  lemma SuffixJoins<T>(a: seq<T>, b: seq<T>)
    requires 0 < |a| && a <= b
    ensures a[1..] + b[|a|..] == b[1..]
  {
  }

  lemma AfterCommitInv(s: Setting, log: Log, blocks: BlockStore, committed: seq<Hash>, qc: QC)
    requires s.Valid() && LogInv(s, log) && StoreInv(s, log, blocks) && CommittedInv(s, log, committed)
    ensures CommittedInv(s, log, AfterCommit(blocks, committed, qc))
    ensures committed <= AfterCommit(blocks, committed, qc)
  {
    var target := CommitTarget(blocks, qc);
    if target.Some? && target.value !in committed {
      CommitTargetTwoChain(s, log, blocks, qc);
      ListedSuffix(s, log, blocks, committed, target.value);
      ListIsCommitted(s, log, target.value);
    }
  }

  lemma ListIsCommitted(s: Setting, log: Log, h: Hash)
    requires s.Valid() && LogInv(s, log) && TwoChain(s, log, h)
    ensures |Path(h)| >= 2 && CommittedInv(s, log, Path(h)[1..])
  {
    TwoChainJustified(s, log, h);
    AncestorsJustified(s, log, h, h.block.view);
  }

  lemma ApplyQcInv(s: Setting, log: Log, r: Replica, qc: QC)
    requires s.Valid() && LogInv(s, log) && CoreInv(s, log, r) && Backed(s, log, qc)
    ensures CoreInv(s, log, ApplyQc(r, qc))
    ensures ApplyQc(r, qc).lockedQc.view >= r.lockedQc.view
    ensures ApplyQc(r, qc).lockedQc.view >= qc.view
    ensures r.committed <= ApplyQc(r, qc).committed
  {
    AfterCommitInv(s, log, r.blocks, r.committed, qc);
  }

  // --- Growing the log ---

  lemma HasCastMonotone(log: Log, more: Log, i: int, h: Hash, view: int)
    requires log <= more && HasCast(log, i, h, view)
    ensures HasCast(more, i, h, view)
  {
    var k :| 0 <= k < |log| && log[k].voter == i && log[k].hash == h && log[k].view == view;
    assert more[k] == log[k];
  }

  lemma UnforgedMonotone(s: Setting, log: Log, more: Log, sig: Sig)
    requires log <= more && Unforged(s, log, sig)
    ensures Unforged(s, more, sig)
  {
    if sig.Sig? && sig.msg.VoteMessage? && 0 <= sig.key < s.c.n {
      HasCastMonotone(log, more, sig.key, sig.msg.hash, sig.msg.view);
    }
  }

  lemma QcDeliverableMonotone(s: Setting, log: Log, more: Log, qc: QC)
    requires log <= more && QcDeliverable(s, log, qc)
    ensures QcDeliverable(s, more, qc)
  {
    if qc.agg.Agg? {
      forall p | p in qc.agg.parts ensures Unforged(s, more, p) {
        UnforgedMonotone(s, log, more, p);
      }
    }
  }

  lemma JustifiedMonotone(s: Setting, log: Log, more: Log, h: Hash, view: int)
    requires s.c.Valid() && log <= more && Justified(s, log, h, view)
    ensures Justified(s, more, h, view)
  {
    if Certified(s, log, h, view) {
      CertifiedMonotone(s, log, more, h, view);
    }
  }

  lemma CoreMonotone(s: Setting, log: Log, more: Log, r: Replica)
    requires s.c.Valid() && log <= more && CoreInv(s, log, r)
    ensures CoreInv(s, more, r)
  {
    forall h | h in r.blocks && h != GENESIS ensures StoredWell(s, more, r.blocks, h) {
      assert StoredWell(s, log, r.blocks, h);
      JustifiedMonotone(s, log, more, h.block.parent, JustifyView(h));
    }
    QcDeliverableMonotone(s, log, more, r.highQc);
    TwoChainMonotone(s, log, more, Head(r.committed));
  }

  lemma PendingMonotone(s: Setting, log: Log, more: Log, r: Replica)
    requires log <= more && PendingInv(s, log, r)
    ensures PendingInv(s, more, r)
  {
    forall key | key in r.pendingVotes ensures BucketInv(s, more, key, r.pendingVotes[key]) {
      var bucket := r.pendingVotes[key];
      assert BucketInv(s, log, key, bucket);
      forall i | i in bucket ensures Unforged(s, more, bucket[i]) {
        UnforgedMonotone(s, log, more, bucket[i]);
      }
    }
    forall view | view in r.pendingNewViews ensures NewViewsInv(s, more, r.pendingNewViews[view]) {
      var bucket := r.pendingNewViews[view];
      assert NewViewsInv(s, log, bucket);
      forall i | 0 <= i < |bucket| ensures QcDeliverable(s, more, bucket[i].highQc) {
        QcDeliverableMonotone(s, log, more, bucket[i].highQc);
      }
    }
  }

  /** Another validator's vote does not disturb a replica. */
  lemma OtherCast(s: Setting, log: Log, cast: Cast, r: Replica)
    requires s.c.Valid() && ReplicaInv(s, log, r) && cast.voter != r.me
    ensures ReplicaInv(s, log + [cast], r)
  {
    CoreMonotone(s, log, log + [cast], r);
    PendingMonotone(s, log, log + [cast], r);
  }

  lemma LogExtends(s: Setting, log: Log, cast: Cast)
    requires s.c.Valid() && LogInv(s, log) && 0 <= cast.voter < s.c.n
    requires s.Honest(cast.voter) ==> HonestCast(s, log + [cast], |log|)
    ensures LogInv(s, log + [cast])
  {
    var more := log + [cast];
    forall k | 0 <= k < |more| && s.Honest(more[k].voter) ensures HonestCast(s, more, k) {
      if k < |log| {
        assert more[..k] == log[..k];
        assert HonestCast(s, log, k);
      }
    }
  }

  // --- Each step keeps the invariant ---

  /** The bounded walk only reports true ancestors. */
  lemma {:induction false} WalkSound(blocks: BlockStore, h: Hash, a: Hash, steps: nat)
    requires WalkFinds(blocks, h, a, steps)
    ensures IsAncestor(a, h)
  {
    if h != a {
      assert h == HashOf(blocks[h]);
      WalkSound(blocks, blocks[h].parent, a, steps - 1);
      assert Path(h) == Path(h.block.parent) + [h];
    }
  }

  /** An honest vote meets every condition the safety argument relies on. */
  lemma HonestVoteRecorded(s: Setting, log: Log, r: Replica, b: Block)
    requires s.Valid() && LogInv(s, log) && ReplicaInv(s, log, r) && BlockDeliverable(s, log, b) && WillVote(r, b)
    ensures HonestCast(s, log + [Cast(r.me, b.view, HashOf(b), r.lockedQc)], |log|)
  {
    var cast := Cast(r.me, b.view, HashOf(b), r.lockedQc);
    var more := log + [cast];
    assert more[..|log|] == log;
    BackedJustified(s, log, b.justify.value);
    BackedJustified(s, log, r.lockedQc);
    assert SafeAgainst(cast.lock, cast.hash) by {
      if WalkFinds(r.blocks, b.parent, r.lockedQc.hash, MAX_STEPS) {
        WalkSound(r.blocks, b.parent, r.lockedQc.hash, MAX_STEPS);
      }
    }
    assert forall m :: 0 <= m < |log| && log[m].voter == r.me ==> Remembers(r, log[m]);
  }

  lemma StoreBlockInv(s: Setting, log: Log, r: Replica, b: Block)
    requires s.Valid() && LogInv(s, log) && CoreInv(s, log, r) && BlockDeliverable(s, log, b)
    requires b.parent in r.blocks && JustifyHolds(s.c, b)
    ensures CoreInv(s, log, r.(blocks := r.blocks[HashOf(b) := b]))
    ensures Backed(s, log, b.justify.value)
  {
    BackedJustified(s, log, b.justify.value);
    var blocks: BlockStore := r.blocks[HashOf(b) := b];
    forall h | h in blocks && h != GENESIS ensures StoredWell(s, log, blocks, h) {
      if h in r.blocks {
        assert StoredWell(s, log, r.blocks, h);
      }
    }
  }

  lemma CoreIgnoresVotes(s: Setting, log: Log, r: Replica, voted: map<int, Hash>)
    requires s.c.Valid() && CoreInv(s, log, r)
    ensures CoreInv(s, log, r.(votedViews := voted))
  {
  }

  lemma ProposalCore(s: Setting, log: Log, more: Log, r: Replica, b: Block)
    requires s.Valid() && log <= more && LogInv(s, more) && ReplicaInv(s, log, r) && BlockDeliverable(s, log, b)
    requires WillVote(r, b)
    ensures CoreInv(s, more, OnProposal(r, b).0)
    ensures r.committed <= OnProposal(r, b).0.committed
  {
    CoreMonotone(s, log, more, r);
    QcDeliverableMonotone(s, log, more, b.justify.value);
    StoreBlockInv(s, more, r, b);
    var stored := r.(blocks := r.blocks[HashOf(b) := b]);
    ApplyQcInv(s, more, stored, b.justify.value);
    CoreIgnoresVotes(s, more, ApplyQc(stored, b.justify.value), r.votedViews[b.view := HashOf(b)]);
  }

  lemma ProposalPending(s: Setting, log: Log, more: Log, r: Replica, b: Block)
    requires log <= more && PendingInv(s, log, r) && r.committee.Valid() && WillVote(r, b)
    ensures PendingInv(s, more, OnProposal(r, b).0)
    ensures OnProposal(r, b).0.lockedQc.view >= r.lockedQc.view
    ensures OnProposal(r, b).0.lockedQc.view >= b.justify.value.view
  {
    PendingMonotone(s, log, more, r);
    assert OnProposal(r, b).0.pendingVotes == r.pendingVotes && OnProposal(r, b).0.pendingNewViews == r.pendingNewViews;
  }

  lemma ProposalInv(s: Setting, log: Log, r: Replica, b: Block)
    requires s.Valid() && LogInv(s, log) && ReplicaInv(s, log, r) && BlockDeliverable(s, log, b)
    requires s.Honest(r.me)
    ensures LogInv(s, log + NewCasts(r, b))
    ensures ReplicaInv(s, log + NewCasts(r, b), OnProposal(r, b).0)
    ensures r.committed <= OnProposal(r, b).0.committed
  {
    if WillVote(r, b) {
      var cast := Cast(r.me, b.view, HashOf(b), r.lockedQc);
      var more := log + [cast];
      HonestVoteRecorded(s, log, r, b);
      LogExtends(s, log, cast);
      ProposalCore(s, log, more, r, b);
      ProposalPending(s, log, more, r, b);
      VoteRemembered(log, r, b);
    } else {
      assert log + [] == log;
    }
  }

  lemma VoteRemembered(log: Log, r: Replica, b: Block)
    requires r.committee.Valid() && VotedInv(log, r) && WillVote(r, b)
    ensures VotedInv(log + [Cast(r.me, b.view, HashOf(b), r.lockedQc)], OnProposal(r, b).0)
  {
    var more, after := log + [Cast(r.me, b.view, HashOf(b), r.lockedQc)], OnProposal(r, b).0;
    forall k | 0 <= k < |more| && more[k].voter == r.me ensures Remembers(after, more[k]) {
      if k < |log| {
        assert Remembers(r, log[k]);
      }
    }
  }

  /** A step that keeps the views and only raises the lock keeps what the replica remembers. */
  lemma VotedKept(log: Log, r: Replica, after: Replica)
    requires VotedInv(log, r) && after.me == r.me && after.votedViews == r.votedViews
    requires after.currentView >= r.currentView && after.lockedQc.view >= r.lockedQc.view
    ensures VotedInv(log, after)
  {
    forall k | 0 <= k < |log| && log[k].voter == r.me ensures Remembers(after, log[k]) {
      assert Remembers(r, log[k]);
    }
  }

  lemma ImportInv(s: Setting, log: Log, r: Replica, b: Block)
    requires s.Valid() && LogInv(s, log) && ReplicaInv(s, log, r) && BlockDeliverable(s, log, b)
    ensures ReplicaInv(s, log, Import(r, b).0)
    ensures r.committed <= Import(r, b).0.committed
  {
    if HashOf(b) !in r.blocks && WillImport(r, b) {
      StoreBlockInv(s, log, r, b);
      ApplyQcInv(s, log, r.(blocks := r.blocks[HashOf(b) := b]), b.justify.value);
      VotedKept(log, r, Import(r, b).0);
    }
  }

  lemma VoteInv(s: Setting, log: Log, r: Replica, v: Vote)
    requires s.Valid() && LogInv(s, log) && ReplicaInv(s, log, r) && VoteDeliverable(s, log, v)
    ensures ReplicaInv(s, log, OnVote(r, v).0)
    ensures r.committed <= OnVote(r, v).0.committed
  {
    if VoteVerifies(v, s.c) {
      var key := (v.hash, v.view);
      var bucket := BucketFor(r.pendingVotes, key)[v.voter := v.sig];
      assert key in r.pendingVotes ==> BucketInv(s, log, key, r.pendingVotes[key]);
      assert BucketInv(s, log, key, bucket);
      if |bucket| < s.c.QuorumSize() {
        assert PendingInv(s, log, OnVote(r, v).0);
      } else {
        FormedQcBacked(s, log, key, bucket);
        ApplyQcInv(s, log, r.(pendingVotes := r.pendingVotes - {key}), CertificateFrom(key, bucket));
        VotedKept(log, r, OnVote(r, v).0);
      }
    }
  }

  lemma NewViewInv(s: Setting, log: Log, r: Replica, m: NewViewMsg)
    requires s.Valid() && LogInv(s, log) && ReplicaInv(s, log, r) && QcDeliverable(s, log, m.highQc)
    ensures ReplicaInv(s, log, OnNewView(r, m).0)
    ensures r.committed <= OnNewView(r, m).0.committed
  {
    if NewViewVerifies(m, s.c) {
      var earlier := if m.view in r.pendingNewViews then r.pendingNewViews[m.view] else [];
      var bucket := PutBySender(earlier, m);
      assert NewViewsInv(s, log, earlier);
      forall i | 0 <= i < |bucket| ensures QcDeliverable(s, log, bucket[i].highQc) {
        assert bucket[i] in bucket;
      }
      if |bucket| < s.c.QuorumSize() {
        assert NewViewsInv(s, log, bucket);
      } else {
        var cleared := r.(pendingNewViews := r.pendingNewViews - {m.view});
        var qcs := UsableQcs(s.c, bucket);
        if qcs != [] {
          assert BestQc(qcs) in qcs;
          assert Backed(s, log, BestQc(qcs));
          ApplyQcInv(s, log, cleared, BestQc(qcs));
          VotedKept(log, r, OnNewView(r, m).0);
        }
      }
    }
  }

  lemma InitInv(s: Setting, sys: Sys)
    requires s.Valid() && Init(s, sys)
    ensures SysInv(s, sys)
  {
    assert Path(NO_PARENT) == [NO_PARENT];
    assert Path(GENESIS) == [NO_PARENT, GENESIS];
    assert [NO_PARENT, GENESIS][1..] == [GENESIS];
  }

  /** Votes are never withdrawn and commits never undone. */
  ghost predicate Grows(s: Setting, before: Sys, after: Sys) {
    && |before.replicas| == |after.replicas| == s.c.n
    && before.log <= after.log
    && forall i :: s.Honest(i) ==> before.replicas[i].committed <= after.replicas[i].committed
  }

  /** Replacing one replica by one that keeps the invariant. */
  lemma ReplaceReplica(s: Setting, sys: Sys, i: int, after: Replica)
    requires s.Valid() && SysInv(s, sys) && s.Honest(i)
    requires after.me == i && ReplicaInv(s, sys.log, after) && sys.replicas[i].committed <= after.committed
    ensures SysInv(s, sys.(replicas := sys.replicas[i := after]))
    ensures Grows(s, sys, sys.(replicas := sys.replicas[i := after]))
  {
  }

  lemma ProposalStepInv(s: Setting, sys: Sys, i: nat, b: Block)
    requires s.Valid() && SysInv(s, sys) && s.Honest(i) && BlockDeliverable(s, sys.log, b)
    ensures SysInv(s, Take(sys, Proposal(i, b)))
    ensures Grows(s, sys, Take(sys, Proposal(i, b)))
  {
    var r := sys.replicas[i];
    var more := sys.log + NewCasts(r, b);
    ProposalInv(s, sys.log, r, b);
    OthersKept(s, sys, i, b);
  }

  /** The replicas that do not receive the proposal keep the invariant as the log grows. */
  lemma OthersKept(s: Setting, sys: Sys, i: nat, b: Block)
    requires s.Valid() && SysInv(s, sys) && s.Honest(i) && BlockDeliverable(s, sys.log, b)
    ensures forall j :: s.Honest(j) && j != i ==> ReplicaInv(s, sys.log + NewCasts(sys.replicas[i], b), sys.replicas[j])
  {
    var r := sys.replicas[i];
    var more := sys.log + NewCasts(r, b);
    forall j | s.Honest(j) && j != i ensures ReplicaInv(s, more, sys.replicas[j]) {
      if WillVote(r, b) {
        OtherCast(s, sys.log, NewCasts(r, b)[0], sys.replicas[j]);
      } else {
        assert sys.log + [] == sys.log;
      }
    }
  }

  lemma ByzantineStepInv(s: Setting, sys: Sys, cast: Cast)
    requires s.Valid() && SysInv(s, sys) && cast.voter in s.byz
    ensures SysInv(s, Take(sys, ByzantineVote(cast)))
    ensures Grows(s, sys, Take(sys, ByzantineVote(cast)))
  {
    LogExtends(s, sys.log, cast);
    forall i | s.Honest(i) ensures ReplicaInv(s, sys.log + [cast], sys.replicas[i]) {
      OtherCast(s, sys.log, cast, sys.replicas[i]);
    }
  }

  lemma ViewInv(s: Setting, log: Log, r: Replica, view: int)
    requires s.c.Valid() && ReplicaInv(s, log, r) && view >= r.currentView
    ensures ReplicaInv(s, log, r.(currentView := view))
  {
    VotedKept(log, r, r.(currentView := view));
  }

  lemma ApplyQcGrows(r: Replica, qc: QC)
    ensures ApplyQc(r, qc).me == r.me && r.committed <= ApplyQc(r, qc).committed
  {
  }

  lemma VoteGrows(r: Replica, v: Vote)
    requires r.committee.Valid()
    ensures OnVote(r, v).0.me == r.me && r.committed <= OnVote(r, v).0.committed
  {
    var key := (v.hash, v.view);
    var bucket := BucketFor(r.pendingVotes, key)[v.voter := v.sig];
    ApplyQcGrows(r.(pendingVotes := r.pendingVotes - {key}), CertificateFrom(key, bucket));
  }

  lemma LocalGrows(r: Replica, step: Step)
    requires r.committee.Valid() && !step.ByzantineVote? && !step.Proposal?
    ensures Local(r, step).me == r.me && r.committed <= Local(r, step).committed
  {
    if step.DeliverVote? {
      VoteGrows(r, step.vote);
    }
  }

  lemma LocalInv(s: Setting, log: Log, r: Replica, step: Step)
    requires s.Valid() && LogInv(s, log) && ReplicaInv(s, log, r)
    requires !step.ByzantineVote? && !step.Proposal? && Deliverable(s, log, step)
    ensures ReplicaInv(s, log, Local(r, step))
  {
    match step
    case ImportBlock(_, b) => ImportInv(s, log, r, b);
    case DeliverVote(_, v) => VoteInv(s, log, r, v);
    case DeliverNewView(_, m) => NewViewInv(s, log, r, m);
    case Advance(_, view) => ViewInv(s, log, r, if view > r.currentView then view else r.currentView);
    case Timeout(_, timedOut) => ViewInv(s, log, r, if timedOut then r.currentView + 1 else r.currentView);
  }

  /** Every step keeps the invariant; the log and every honest committed list only grow. */
  lemma StepInv(s: Setting, sys: Sys, step: Step)
    requires s.Valid() && SysInv(s, sys) && Enabled(s, sys, step)
    ensures SysInv(s, Take(sys, step))
    ensures Grows(s, sys, Take(sys, step))
  {
    match step
    case ByzantineVote(cast) => ByzantineStepInv(s, sys, cast);
    case Proposal(i, b) => ProposalStepInv(s, sys, i, b);
    case _ =>
      LocalInv(s, sys.log, sys.replicas[step.i], step);
      LocalGrows(sys.replicas[step.i], step);
      ReplaceReplica(s, sys, step.i, Local(sys.replicas[step.i], step));
  }
}
