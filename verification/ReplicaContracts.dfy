/** What each event does to a replica, said in the protocol's own terms: signatures, quorums, linked blocks and
    views.  The statements do not name the functions that compute the answers. */
module ReplicaContracts {
  import opened Wrappers
  import opened HotStuffTypes
  import opened SetFacts
  import opened ReplicaLogic
  import opened BlockSync

  // --- Signatures and certificates ---

  /** A position of a list of n entries; a negative one counts from the end. */
  predicate IsPosition(n: nat, i: int) {
    0 <= i + n && i < n
  }

  /** The signature on the message is that of the validator at list position i. */
  predicate SignedBy(n: nat, i: int, sig: Sig, msg: Message) {
    IsPosition(n, i) && sig == Sig(if i < 0 then i + n else i, msg)
  }

  /** The places in a list of positions whose validator's signature on the message is x. */
  ghost function Places(n: nat, positions: seq<int>, msg: Message, x: Sig): set<int> {
    set k | 0 <= k < |positions| && SignedBy(n, positions[k], x, msg)
  }

  /** At least 2f+1 different positions of the list, and the sum of exactly their signatures. */
  ghost predicate CertificateHolds(n: nat, qc: QC)
    requires n > 0
  {
    && |qc.signers| >= 2 * ((n - 1) / 3) + 1
    && (forall i :: 0 <= i < |qc.signers| ==> IsPosition(n, qc.signers[i]))
    && (forall i, j :: 0 <= i < j < |qc.signers| ==> qc.signers[i] != qc.signers[j])
    && qc.agg.Agg?
    && forall x :: qc.agg.parts[x] == |Places(n, qc.signers, VoteMessage(qc.view, qc.hash), x)|
  }

  ghost predicate Usable(n: nat, qc: QC)
    requires n > 0
  {
    qc.hash == GENESIS || CertificateHolds(n, qc)
  }

  ghost function PlusOne(s: set<int>): (r: set<int>)
    ensures forall k :: k in r <==> k - 1 in s
  {
    set k | k in s :: k + 1
  }

  lemma {:induction false} PlusOneSize(s: set<int>)
    ensures |PlusOne(s)| == |s|
  {
    if s != {} {
      var x := Pick(s);
      PlusOneSize(s - {x});
      assert PlusOne(s) == PlusOne(s - {x}) + {x + 1};
    }
  }

  lemma PlacesShift(n: nat, positions: seq<int>, msg: Message, x: Sig)
    requires positions != []
    ensures forall k: int {:trigger k in Places(n, positions, msg, x)} ::
      k in PlusOne(Places(n, positions[1..], msg, x)) <==> k > 0 && k in Places(n, positions, msg, x)
  {
    var rest := positions[1..];
    forall k: int
      ensures k in PlusOne(Places(n, rest, msg, x)) <==> k > 0 && k in Places(n, positions, msg, x) {
      assert k in PlusOne(Places(n, rest, msg, x)) <==> k - 1 in Places(n, rest, msg, x);
      if 0 < k < |positions| {
        assert rest[k - 1] == positions[k];
      }
    }
  }

  lemma PlacesStep(n: nat, positions: seq<int>, msg: Message, x: Sig)
    requires positions != []
    ensures |Places(n, positions, msg, x)|
      == (if SignedBy(n, positions[0], x, msg) then 1 else 0) + |Places(n, positions[1..], msg, x)|
  {
    var later := PlusOne(Places(n, positions[1..], msg, x));
    PlusOneSize(Places(n, positions[1..], msg, x));
    PlacesShift(n, positions, msg, x);
    if SignedBy(n, positions[0], x, msg) {
      assert Places(n, positions, msg, x) == {0} + later;
    } else {
      assert Places(n, positions, msg, x) == later;
    }
  }

  lemma {:induction false} PartsCount(c: Committee, positions: seq<int>, msg: Message)
    ensures ExpectedParts(c, positions, msg).Some?
      <==> forall i :: 0 <= i < |positions| ==> IsPosition(c.n, positions[i])
    ensures ExpectedParts(c, positions, msg).Some? ==>
      forall x :: ExpectedParts(c, positions, msg).value[x] == |Places(c.n, positions, msg, x)|
  {
    if positions != [] {
      PartsCount(c, positions[1..], msg);
      FirstAndRest(c.n, positions);
      if ExpectedParts(c, positions, msg).Some? {
        forall x ensures ExpectedParts(c, positions, msg).value[x] == |Places(c.n, positions, msg, x)| {
          PlacesStep(c.n, positions, msg, x);
        }
      }
    }
  }

  lemma FirstAndRest(n: nat, positions: seq<int>)
    requires positions != []
    ensures (forall i :: 0 <= i < |positions| ==> IsPosition(n, positions[i])) <==>
      IsPosition(n, positions[0]) && forall i :: 0 <= i < |positions[1..]| ==> IsPosition(n, positions[1..][i])
  {
    assert positions == [positions[0]] + positions[1..];
  }

  /** Verification checks exactly that the certificate holds. */
  lemma VerifiesIff(c: Committee, qc: QC)
    requires c.Valid()
    ensures Verifies(qc, c) <==> CertificateHolds(c.n, qc)
  {
    PartsCount(c, qc.signers, VoteMessage(qc.view, qc.hash));
    if CertificateHolds(c.n, qc) {
      assert qc.agg.parts == ExpectedParts(c, qc.signers, VoteMessage(qc.view, qc.hash)).value;
    }
  }

  // --- What a certificate does: highest certificate, lock and commits ---

  /** The certificate is for the last of three linked blocks of consecutive views, the first of which is h0. */
  ghost predicate ThreeChain(blocks: map<Hash, Block>, qc: QC, h1: Hash, h0: Hash) {
    && qc.hash in blocks && h1 in blocks && h0 in blocks
    && blocks[qc.hash].justify.Some? && blocks[qc.hash].justify.value.hash == h1
    && blocks[h1].justify.Some? && blocks[h1].justify.value.hash == h0
    && blocks[h1].view == blocks[h0].view + 1
    && blocks[qc.hash].view == blocks[h1].view + 1
    && qc.view == blocks[qc.hash].view
  }

  ghost predicate Finalizes(blocks: map<Hash, Block>, committed: seq<Hash>, qc: QC, h0: Hash) {
    h0 !in committed && exists h1 :: ThreeChain(blocks, qc, h1, h0)
  }

  /** `after` lists, behind `before`, the linked blocks from above the last one listed, or stored, up to the tip. */
  ghost predicate ListedUpTo(blocks: map<Hash, Block>, before: seq<Hash>, after: seq<Hash>, tip: Hash) {
    && before < after && after[|after| - 1] == tip
    && (forall k :: |before| <= k < |after| ==> after[k] in blocks && after[k] !in before)
    && (forall k :: |before| < k < |after| ==> blocks[after[k]].parent == after[k - 1])
    && (blocks[after[|before|]].parent in before || blocks[after[|before|]].parent !in blocks)
  }

  ghost predicate CommitRule(blocks: map<Hash, Block>, before: seq<Hash>, after: seq<Hash>, qc: QC) {
    && (forall h0 :: Finalizes(blocks, before, qc, h0) ==> ListedUpTo(blocks, before, after, h0))
    && ((forall h0 :: !Finalizes(blocks, before, qc, h0)) ==> after == before)
  }

  /** A certificate of a higher view becomes the highest one, and the lock; it commits by the three-chain rule. */
  ghost predicate Applied(r: Replica, after: Replica, qc: QC) {
    && after == r.(highQc := after.highQc, lockedQc := after.lockedQc, committed := after.committed)
    && after.highQc == (if qc.view > r.highQc.view then qc else r.highQc)
    && after.lockedQc == (if qc.view > r.lockedQc.view then qc else r.lockedQc)
    && CommitRule(r.blocks, r.committed, after.committed, qc)
  }

  lemma {:induction false} UncommittedLists(blocks: BlockStore, committed: seq<Hash>, h: Hash)
    requires h in blocks && h !in committed
    ensures ListedUpTo(blocks, committed, committed + Uncommitted(blocks, committed, h), h)
    decreases h
  {
    assert h == HashOf(blocks[h]);
    var parent := blocks[h].parent;
    if parent in blocks && parent !in committed {
      UncommittedLists(blocks, committed, parent);
      ListOneMore(blocks, committed, committed + Uncommitted(blocks, committed, parent), parent, h);
      assert committed + Uncommitted(blocks, committed, h) == committed + Uncommitted(blocks, committed, parent) + [h];
    } else {
      assert Uncommitted(blocks, committed, h) == [h];
    }
  }

  lemma ListOneMore(blocks: map<Hash, Block>, before: seq<Hash>, mid: seq<Hash>, tip: Hash, h: Hash)
    requires ListedUpTo(blocks, before, mid, tip) && h in blocks && h !in before && blocks[h].parent == tip
    ensures ListedUpTo(blocks, before, mid + [h], h)
  {
  }

  lemma TargetIff(blocks: BlockStore, qc: QC, h0: Hash)
    ensures CommitTarget(blocks, qc) == Some(h0) <==> exists h1 :: ThreeChain(blocks, qc, h1, h0)
  {
    if CommitTarget(blocks, qc) == Some(h0) {
      assert ThreeChain(blocks, qc, blocks[qc.hash].justify.value.hash, h0);
    }
  }

  lemma AfterCommitRule(blocks: BlockStore, committed: seq<Hash>, qc: QC)
    ensures CommitRule(blocks, committed, AfterCommit(blocks, committed, qc), qc)
  {
    forall h0
      ensures Finalizes(blocks, committed, qc, h0) <==> CommitTarget(blocks, qc) == Some(h0) && h0 !in committed {
      TargetIff(blocks, qc, h0);
    }
    var target := CommitTarget(blocks, qc);
    if target.Some? && target.value !in committed {
      assert Finalizes(blocks, committed, qc, target.value);
      UncommittedLists(blocks, committed, target.value);
    }
  }

  lemma ApplyQcApplied(r: Replica, qc: QC)
    ensures Applied(r, ApplyQc(r, qc), qc)
  {
    AfterCommitRule(r.blocks, r.committed, qc);
  }

  // --- Proposals and imports ---

  /** What a block must be to be stored: its parent is stored, the leader of its view proposed it, and it carries a
      certificate for its parent. */
  ghost predicate Admitted(n: nat, blocks: map<Hash, Block>, b: Block)
    requires n > 0
  {
    && b.parent in blocks
    && b.proposer == Some(b.view % n)
    && b.justify.Some? && b.justify.value.hash == b.parent && Usable(n, b.justify.value)
  }

  /** The block is the locked one or lies above it, at most 100_001 blocks up; or its certificate is newer. */
  ghost predicate RespectsLock(lock: QC, b: Block, justify: QC) {
    var line := Path(HashOf(b));
    lock.hash in line[if |line| <= 100_002 then 0 else |line| - 100_002..] || justify.view > lock.view
  }

  /** The replica with this block stored. */
  function Storing(r: Replica, b: Block): Replica {
    r.(blocks := r.blocks[HashOf(b) := b])
  }

  lemma AdmittedIff(r: Replica, b: Block)
    requires r.committee.Valid()
    ensures WillImport(r, b) <==> Admitted(r.committee.n, r.blocks, b)
  {
    assert 0 <= b.view % r.committee.n < r.committee.n;
    if b.justify.Some? {
      VerifiesIff(r.committee, b.justify.value);
    }
  }

  lemma RespectsIff(r: Replica, b: Block, justify: QC)
    requires r.committee.Valid() && Importable(r.committee, r.blocks) && b.parent in r.blocks
    ensures SafeToVote(r, b, justify) <==> RespectsLock(r.lockedQc, b, justify)
  {
    var p, line := Path(b.parent), Path(HashOf(b));
    WalkExact(r.committee, r.blocks, b.parent, r.lockedQc.hash, MAX_STEPS);
    LastJoins(p, HashOf(b), r.lockedQc.hash);
    assert line == p + [HashOf(b)];
  }

  lemma LastJoins(p: seq<Hash>, last: Hash, x: Hash)
    requires |p| > 0
    ensures var line := p + [last];
      x in line[if |line| <= 100_002 then 0 else |line| - 100_002..]
      <==> x == last || x in p[if |p| - 1 <= MAX_STEPS then 0 else |p| - 1 - MAX_STEPS..]
  {
    var from := if |p| - 1 <= MAX_STEPS then 0 else |p| - 1 - MAX_STEPS;
    assert (p + [last])[from..] == p[from..] + [last];
  }

  /** A replica votes for a proposal of its current view that it has not voted against, that may be stored and that
      respects its lock; it then stores the block, takes in its certificate and remembers the vote. */
  lemma ProposalExactly(r: Replica, b: Block)
    requires r.committee.Valid() && Importable(r.committee, r.blocks)
    ensures var (after, vote) := OnProposal(r, b);
      if (&& b.view == r.currentView && (b.view in r.votedViews ==> r.votedViews[b.view] == HashOf(b))
          && Admitted(r.committee.n, r.blocks, b) && RespectsLock(r.lockedQc, b, b.justify.value))
      then
        && vote == Some(Vote(HashOf(b), b.view, r.me, Sig(r.me, VoteMessage(b.view, HashOf(b)))))
        && Applied(Storing(r, b).(votedViews := r.votedViews[b.view := HashOf(b)]), after, b.justify.value)
      else vote == None && after == r
  {
    AdmittedIff(r, b);
    if b.justify.Some? && b.parent in r.blocks {
      RespectsIff(r, b, b.justify.value);
    }
    if WillVote(r, b) {
      ApplyQcApplied(Storing(r, b), b.justify.value);
    }
  }

  lemma ImportExactly(r: Replica, b: Block)
    requires r.committee.Valid()
    ensures var (after, imported) := Import(r, b);
      && (imported <==> HashOf(b) in r.blocks || Admitted(r.committee.n, r.blocks, b))
      && if HashOf(b) in r.blocks || !imported then after == r else Applied(Storing(r, b), after, b.justify.value)
  {
    AdmittedIff(r, b);
    if WillImport(r, b) {
      ApplyQcApplied(Storing(r, b), b.justify.value);
    }
  }

  // --- Votes ---

  /** The signatures collected for one block and view: each its voter's own, and fewer than a quorum. */
  ghost predicate Collecting(n: nat, key: (Hash, int), bucket: map<int, Sig>)
    requires n > 0
  {
    && |bucket| < 2 * ((n - 1) / 3) + 1
    && forall i :: i in bucket ==> SignedBy(n, i, bucket[i], VoteMessage(key.1, key.0))
  }

  ghost predicate VotesCounted(r: Replica) {
    r.committee.n > 0 && forall key :: key in r.pendingVotes ==> Collecting(r.committee.n, key, r.pendingVotes[key])
  }

  /** The votes for the vote's block and view once it has arrived, one per voter. */
  function LatestVotes(r: Replica, v: Vote): map<int, Sig> {
    (if (v.hash, v.view) in r.pendingVotes then r.pendingVotes[(v.hash, v.view)] else map[])[v.voter := v.sig]
  }

  /** The certificate names exactly the voters, in increasing order. */
  ghost predicate NamesVoters(votes: map<int, Sig>, v: Vote, qc: QC) {
    && qc.hash == v.hash && qc.view == v.view
    && (forall i, j :: 0 <= i < j < |qc.signers| ==> qc.signers[i] < qc.signers[j])
    && forall i :: i in qc.signers <==> i in votes
  }

  lemma {:induction false} SigsAreParts(c: Committee, bucket: map<int, Sig>, signers: seq<int>, msg: Message)
    requires forall i :: 0 <= i < |signers| ==> signers[i] in bucket
    requires forall i :: i in bucket ==> SignedBy(c.n, i, bucket[i], msg)
    ensures ExpectedParts(c, signers, msg) == Some(SigsAt(bucket, signers))
  {
    if signers != [] {
      SigsAreParts(c, bucket, signers[1..], msg);
    }
  }

  lemma FormedHolds(c: Committee, key: (Hash, int), bucket: map<int, Sig>)
    requires c.Valid() && |bucket| >= c.QuorumSize()
    requires forall i :: i in bucket ==> SignedBy(c.n, i, bucket[i], VoteMessage(key.1, key.0))
    ensures CertificateHolds(c.n, CertificateFrom(key, bucket))
  {
    var signers := Sorted(bucket.Keys);
    assert |bucket.Keys| == |bucket|;
    forall i | 0 <= i < |signers| ensures signers[i] in bucket {
      assert signers[i] in bucket.Keys;
    }
    SigsAreParts(c, bucket, signers, VoteMessage(key.1, key.0));
    VerifiesIff(c, CertificateFrom(key, bucket));
  }

  lemma LatestVotesSigned(r: Replica, v: Vote)
    requires VotesCounted(r) && SignedBy(r.committee.n, v.voter, v.sig, VoteMessage(v.view, v.hash))
    ensures forall i :: i in LatestVotes(r, v) ==>
      SignedBy(r.committee.n, i, LatestVotes(r, v)[i], VoteMessage(v.view, v.hash))
  {
    var key := (v.hash, v.view);
    if key in r.pendingVotes {
      assert Collecting(r.committee.n, key, r.pendingVotes[key]);
    }
  }

  /** A replica counts genuine votes only, one per voter; the vote that completes a quorum makes it form, take in and
      return the certificate of the voters, and start over. */
  ghost predicate VoteTaken(r: Replica, v: Vote, after: Replica, formed: Option<QC>)
    requires r.committee.n > 0
  {
    var n, votes := r.committee.n, LatestVotes(r, v);
    if !SignedBy(n, v.voter, v.sig, VoteMessage(v.view, v.hash)) then after == r && formed == None
    else if |votes| < 2 * ((n - 1) / 3) + 1 then
      after == r.(pendingVotes := r.pendingVotes[(v.hash, v.view) := votes]) && formed == None
    else
      && formed.Some? && NamesVoters(votes, v, formed.value) && CertificateHolds(n, formed.value)
      && Applied(r.(pendingVotes := r.pendingVotes - {(v.hash, v.view)}), after, formed.value)
  }

  lemma VoteExactly(r: Replica, v: Vote)
    requires r.committee.Valid() && VotesCounted(r)
    ensures VoteTaken(r, v, OnVote(r, v).0, OnVote(r, v).1)
  {
    var key, votes := (v.hash, v.view), LatestVotes(r, v);
    if !SignedBy(r.committee.n, v.voter, v.sig, VoteMessage(v.view, v.hash)) {
      assert OnVote(r, v) == (r, None);
    } else if |votes| < r.committee.QuorumSize() {
      VoteAdds(r, v, votes);
    } else {
      VoteCompletes(r, v, votes);
      QuorumVoted(r, v, votes, OnVote(r, v).0);
    }
  }

  lemma VoteAdds(r: Replica, v: Vote, votes: map<int, Sig>)
    requires r.committee.Valid() && votes == LatestVotes(r, v) && |votes| < r.committee.QuorumSize()
    requires SignedBy(r.committee.n, v.voter, v.sig, VoteMessage(v.view, v.hash))
    ensures OnVote(r, v) == (r.(pendingVotes := r.pendingVotes[(v.hash, v.view) := votes]), None)
    ensures VoteTaken(r, v, OnVote(r, v).0, OnVote(r, v).1)
  {
    assert VoteVerifies(v, r.committee);
    assert votes == BucketFor(r.pendingVotes, (v.hash, v.view))[v.voter := v.sig];
  }

  lemma VoteCompletes(r: Replica, v: Vote, votes: map<int, Sig>)
    requires r.committee.Valid() && votes == LatestVotes(r, v) && |votes| >= r.committee.QuorumSize()
    requires SignedBy(r.committee.n, v.voter, v.sig, VoteMessage(v.view, v.hash))
    ensures var qc := CertificateFrom((v.hash, v.view), votes);
      OnVote(r, v) == (ApplyQc(r.(pendingVotes := r.pendingVotes - {(v.hash, v.view)}), qc), Some(qc))
  {
    assert VoteVerifies(v, r.committee);
    assert votes == BucketFor(r.pendingVotes, (v.hash, v.view))[v.voter := v.sig];
  }

  lemma QuorumVoted(r: Replica, v: Vote, votes: map<int, Sig>, after: Replica)
    requires r.committee.Valid() && VotesCounted(r) && votes == LatestVotes(r, v) && |votes| >= r.committee.QuorumSize()
    requires SignedBy(r.committee.n, v.voter, v.sig, VoteMessage(v.view, v.hash))
    requires after
      == ApplyQc(r.(pendingVotes := r.pendingVotes - {(v.hash, v.view)}), CertificateFrom((v.hash, v.view), votes))
    ensures VoteTaken(r, v, after, Some(CertificateFrom((v.hash, v.view), votes)))
  {
    ApplyQcApplied(r.(pendingVotes := r.pendingVotes - {(v.hash, v.view)}), CertificateFrom((v.hash, v.view), votes));
    FormedNames(votes, v);
    LatestVotesSigned(r, v);
    FormedHolds(r.committee, (v.hash, v.view), votes);
  }

  lemma FormedNames(votes: map<int, Sig>, v: Vote)
    ensures NamesVoters(votes, v, CertificateFrom((v.hash, v.view), votes))
  {
    assert forall i :: i in votes.Keys <==> i in votes;
  }

  // --- NewView messages ---

  ghost predicate SignedNewView(n: nat, m: NewViewMsg) {
    SignedBy(n, m.sender, m.sig, NewViewMessage(m.view, m.highQc.hash, m.highQc.view))
  }

  function Senders(bucket: seq<NewViewMsg>): set<int> {
    set m | m in bucket :: m.sender
  }

  ghost predicate OneEach(bucket: seq<NewViewMsg>) {
    forall i, j :: 0 <= i < j < |bucket| ==> bucket[i].sender != bucket[j].sender
  }

  /** Genuine messages for one view from different senders, fewer than a quorum. */
  ghost predicate Hearing(n: nat, view: int, bucket: seq<NewViewMsg>)
    requires n > 0
  {
    && |bucket| < 2 * ((n - 1) / 3) + 1 && OneEach(bucket)
    && forall m :: m in bucket ==> m.view == view && SignedNewView(n, m)
  }

  ghost predicate NewViewsCounted(r: Replica) {
    && r.committee.n > 0
    && forall view :: view in r.pendingNewViews ==> Hearing(r.committee.n, view, r.pendingNewViews[view])
  }

  /** The messages for m's view once m has arrived: the latest of each sender, in the order they were first heard. */
  ghost predicate Latest(r: Replica, m: NewViewMsg, bucket: seq<NewViewMsg>) {
    var earlier := if m.view in r.pendingNewViews then r.pendingNewViews[m.view] else [];
    || (m.sender !in Senders(earlier) && bucket == earlier + [m])
    || exists i :: 0 <= i < |earlier| && earlier[i].sender == m.sender && bucket == earlier[i := m]
  }

  /** The i-th message carries the first of the usable certificates with the highest view. */
  ghost predicate BestOffer(n: nat, bucket: seq<NewViewMsg>, i: int)
    requires n > 0
  {
    && 0 <= i < |bucket| && Usable(n, bucket[i].highQc)
    && forall j :: 0 <= j < |bucket| && Usable(n, bucket[j].highQc) ==>
         bucket[j].highQc.view <= bucket[i].highQc.view && (j < i ==> bucket[j].highQc.view < bucket[i].highQc.view)
  }

  /** The replica answers true exactly when the message completes a quorum of senders, at least one of whom offers a
      usable certificate; it then takes in the best of them, and starts over. */
  ghost predicate Answered(r: Replica, m: NewViewMsg, bucket: seq<NewViewMsg>, after: Replica, answer: bool)
    requires r.committee.n > 0
  {
    var n := r.committee.n;
    var heard := r.(pendingNewViews := r.pendingNewViews - {m.view});
    if !SignedNewView(n, m) then after == r && !answer
    else if |Senders(bucket)| < 2 * ((n - 1) / 3) + 1 then
      after == r.(pendingNewViews := r.pendingNewViews[m.view := bucket]) && !answer
    else
      && (answer <==> exists x :: x in bucket && Usable(n, x.highQc))
      && (!answer ==> after == heard)
      && (answer ==> exists i :: BestOffer(n, bucket, i) && Applied(heard, after, bucket[i].highQc))
  }

  lemma {:induction false} PutIsLatest(bucket: seq<NewViewMsg>, m: NewViewMsg)
    ensures var put := PutBySender(bucket, m);
      || (m.sender !in Senders(bucket) && put == bucket + [m])
      || exists i :: 0 <= i < |bucket| && bucket[i].sender == m.sender && put == bucket[i := m]
  {
    if bucket != [] {
      var rest := bucket[1..];
      if bucket[0].sender == m.sender {
        assert PutBySender(bucket, m) == bucket[0 := m];
      } else {
        PutIsLatest(rest, m);
        if m.sender !in Senders(rest) && PutBySender(rest, m) == rest + [m] {
          assert forall x :: x in bucket ==> x == bucket[0] || x in rest;
          assert PutBySender(bucket, m) == bucket + [m];
        } else {
          var i :| 0 <= i < |rest| && rest[i].sender == m.sender && PutBySender(rest, m) == rest[i := m];
          assert PutBySender(bucket, m) == bucket[i + 1 := m];
        }
      }
    }
  }

  lemma {:induction false} OneEachSize(bucket: seq<NewViewMsg>)
    requires OneEach(bucket)
    ensures |Senders(bucket)| == |bucket|
  {
    if bucket != [] {
      var rest, last := bucket[..|bucket| - 1], bucket[|bucket| - 1];
      OneEachSize(rest);
      assert bucket == rest + [last];
      assert Senders(bucket) == Senders(rest) + {last.sender};
    }
  }

  lemma {:induction false} BestIsFirst(c: Committee, bucket: seq<NewViewMsg>) returns (i: int)
    requires c.Valid() && UsableQcs(c, bucket) != []
    ensures BestOffer(c.n, bucket, i) && bucket[i].highQc == BestQc(UsableQcs(c, bucket))
  {
    var rest := bucket[1..];
    assert forall j :: 0 < j < |bucket| ==> bucket[j] == rest[j - 1];
    VerifiesIff(c, bucket[0].highQc);
    if UsableQcs(c, rest) == [] {
      forall j | 0 < j < |bucket| ensures !Usable(c.n, bucket[j].highQc) {
        VerifiesIff(c, bucket[j].highQc);
        assert rest[j - 1].highQc !in UsableQcs(c, rest);
      }
      i := 0;
    } else {
      var k := BestIsFirst(c, rest);
      i := if Usable(c.n, bucket[0].highQc) && bucket[0].highQc.view >= rest[k].highQc.view then 0 else k + 1;
      FirstOfMore(c.n, bucket, rest, k, i);
    }
  }

  lemma FirstOfMore(n: nat, bucket: seq<NewViewMsg>, rest: seq<NewViewMsg>, k: int, i: int)
    requires n > 0 && bucket != [] && rest == bucket[1..] && BestOffer(n, rest, k)
    requires i == if Usable(n, bucket[0].highQc) && bucket[0].highQc.view >= rest[k].highQc.view then 0 else k + 1
    ensures BestOffer(n, bucket, i)
  {
    forall j | 0 <= j < |bucket| && Usable(n, bucket[j].highQc)
      ensures bucket[j].highQc.view <= bucket[i].highQc.view
      ensures j < i ==> bucket[j].highQc.view < bucket[i].highQc.view
    {
      if j > 0 {
        assert rest[j - 1] == bucket[j];
      }
    }
  }

  /** The messages after this one: still one genuine message per sender. */
  lemma LatestGenuine(r: Replica, m: NewViewMsg, bucket: seq<NewViewMsg>)
    requires NewViewsCounted(r) && SignedNewView(r.committee.n, m) && Latest(r, m, bucket)
    ensures OneEach(bucket) && |Senders(bucket)| == |bucket| && m in bucket
    ensures forall x :: x in bucket ==> x.view == m.view && SignedNewView(r.committee.n, x)
  {
    var earlier := if m.view in r.pendingNewViews then r.pendingNewViews[m.view] else [];
    assert m.view in r.pendingNewViews ==> Hearing(r.committee.n, m.view, earlier);
    if m.sender !in Senders(earlier) && bucket == earlier + [m] {
      assert forall i :: 0 <= i < |earlier| ==> earlier[i] in earlier;
    } else {
      var i :| 0 <= i < |earlier| && earlier[i].sender == m.sender && bucket == earlier[i := m];
      assert bucket[i] == m;
      assert forall x :: x in bucket ==> x == m || x in earlier;
    }
    OneEachSize(bucket);
  }

  lemma NewViewExactly(r: Replica, m: NewViewMsg) returns (bucket: seq<NewViewMsg>)
    requires r.committee.Valid() && NewViewsCounted(r)
    ensures Latest(r, m, bucket)
    ensures Answered(r, m, bucket, OnNewView(r, m).0, OnNewView(r, m).1)
  {
    var earlier := if m.view in r.pendingNewViews then r.pendingNewViews[m.view] else [];
    bucket := PutBySender(earlier, m);
    PutIsLatest(earlier, m);
    if !SignedNewView(r.committee.n, m) {
      assert OnNewView(r, m) == (r, false);
    } else {
      LatestGenuine(r, m, bucket);
      NewViewAnswered(r, m, earlier, bucket, OnNewView(r, m).0);
    }
  }

  lemma NewViewAnswered(r: Replica, m: NewViewMsg, earlier: seq<NewViewMsg>, bucket: seq<NewViewMsg>, after: Replica)
    requires r.committee.Valid() && SignedNewView(r.committee.n, m) && bucket == PutBySender(earlier, m)
    requires earlier == if m.view in r.pendingNewViews then r.pendingNewViews[m.view] else []
    requires |Senders(bucket)| == |bucket| && after == OnNewView(r, m).0
    ensures Answered(r, m, bucket, after, OnNewView(r, m).1)
  {
    NewViewCases(r, m, earlier, bucket);
    if |bucket| < r.committee.QuorumSize() {
      FewHeard(r, m, bucket, after);
    } else {
      QuorumHeard(r, m, bucket, after);
    }
  }

  lemma NewViewCases(r: Replica, m: NewViewMsg, earlier: seq<NewViewMsg>, bucket: seq<NewViewMsg>)
    requires r.committee.Valid() && SignedNewView(r.committee.n, m) && bucket == PutBySender(earlier, m)
    requires earlier == if m.view in r.pendingNewViews then r.pendingNewViews[m.view] else []
    ensures var heard := r.(pendingNewViews := r.pendingNewViews - {m.view});
      var qcs := UsableQcs(r.committee, bucket);
      OnNewView(r, m) ==
        if |bucket| < r.committee.QuorumSize() then (r.(pendingNewViews := r.pendingNewViews[m.view := bucket]), false)
        else if qcs == [] then (heard, false) else (ApplyQc(heard, BestQc(qcs)), true)
  {
    assert NewViewVerifies(m, r.committee);
  }

  lemma FewHeard(r: Replica, m: NewViewMsg, bucket: seq<NewViewMsg>, after: Replica)
    requires r.committee.Valid() && SignedNewView(r.committee.n, m) && |Senders(bucket)| < r.committee.QuorumSize()
    requires after == r.(pendingNewViews := r.pendingNewViews[m.view := bucket])
    ensures Answered(r, m, bucket, after, false)
  {
  }

  lemma QuorumHeard(r: Replica, m: NewViewMsg, bucket: seq<NewViewMsg>, after: Replica)
    requires r.committee.Valid() && SignedNewView(r.committee.n, m) && |Senders(bucket)| >= r.committee.QuorumSize()
    requires var heard := r.(pendingNewViews := r.pendingNewViews - {m.view});
      var qcs := UsableQcs(r.committee, bucket);
      after == if qcs == [] then heard else ApplyQc(heard, BestQc(qcs))
    ensures Answered(r, m, bucket, after, UsableQcs(r.committee, bucket) != [])
  {
    var n, qcs := r.committee.n, UsableQcs(r.committee, bucket);
    if qcs != [] {
      var heard := r.(pendingNewViews := r.pendingNewViews - {m.view});
      var i := BestIsFirst(r.committee, bucket);
      ApplyQcApplied(heard, BestQc(qcs));
      assert bucket[i] in bucket && Usable(n, bucket[i].highQc);
      assert BestOffer(n, bucket, i) && Applied(heard, after, bucket[i].highQc);
    } else {
      forall x | x in bucket ensures !Usable(n, x.highQc) {
        VerifiesIff(r.committee, x.highQc);
        var j :| 0 <= j < |bucket| && bucket[j] == x;
        assert bucket[j].highQc !in qcs;
      }
    }
  }

  // --- Views ---

  /** A view is entered by a jump ahead or by a timeout, and in no other way. */
  lemma ViewMoves(r: Replica, view: int, timedOut: bool)
    ensures AdvanceTo(r, view) == r.(currentView := if view <= r.currentView then r.currentView else view)
    ensures MaybeAdvance(r, timedOut) == r.(currentView := r.currentView + if timedOut then 1 else 0)
  {
  }

  // --- The collections stay what they are meant to be ---

  ghost predicate Counted(r: Replica) {
    VotesCounted(r) && NewViewsCounted(r)
  }

  lemma VoteKeepsCounted(r: Replica, v: Vote)
    requires r.committee.Valid() && Counted(r)
    ensures Counted(OnVote(r, v).0) && OnVote(r, v).0.committee == r.committee
  {
    VoteExactly(r, v);
    var after := OnVote(r, v).0;
    if SignedBy(r.committee.n, v.voter, v.sig, VoteMessage(v.view, v.hash)) {
      LatestVotesSigned(r, v);
      forall key | key in after.pendingVotes ensures Collecting(r.committee.n, key, after.pendingVotes[key]) {
        assert key != (v.hash, v.view) ==> Collecting(r.committee.n, key, r.pendingVotes[key]);
      }
    }
  }

  lemma NewViewKeepsCounted(r: Replica, m: NewViewMsg)
    requires r.committee.Valid() && Counted(r)
    ensures Counted(OnNewView(r, m).0) && OnNewView(r, m).0.committee == r.committee
  {
    var bucket := NewViewExactly(r, m);
    var after := OnNewView(r, m).0;
    if SignedNewView(r.committee.n, m) {
      LatestGenuine(r, m, bucket);
      forall view | view in after.pendingNewViews ensures Hearing(r.committee.n, view, after.pendingNewViews[view]) {
        assert view != m.view ==> Hearing(r.committee.n, view, r.pendingNewViews[view]);
      }
    }
  }
}
