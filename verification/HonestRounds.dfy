/** Views run by an all-honest committee: the leader proposes, everyone votes, the next leader collects. */
module HonestRounds {
  import opened Wrappers
  import opened HotStuffTypes
  import opened SetFacts
  import opened Quorums
  import opened ReplicaLogic
  import RS = ReplicaSystem

  ghost predicate Committed(rs: seq<Replica>, h: Hash) {
    forall i :: 0 <= i < |rs| ==> h in rs[i].committed
  }

  ghost predicate Members(c: Committee, rs: seq<Replica>) {
    && c.Valid()
    && |rs| == c.n
    && forall i :: 0 <= i < c.n ==> rs[i].committee == c && rs[i].me == i
  }

  // --- One view, replica by replica ---

  function Advanced(rs: seq<Replica>, v: int): seq<Replica> {
    seq(|rs|, i requires 0 <= i < |rs| => AdvanceTo(rs[i], v))
  }

  function Voted(rs: seq<Replica>, b: Block): seq<Replica>
    requires forall i :: 0 <= i < |rs| ==> rs[i].committee.Valid()
  {
    seq(|rs|, i requires 0 <= i < |rs| => OnProposal(rs[i], b).0)
  }

  /** What the replicas answer to a proposal, in order. */
  function Answers(rs: seq<Replica>, b: Block): seq<Option<Vote>>
    requires forall i :: 0 <= i < |rs| ==> rs[i].committee.Valid()
  {
    seq(|rs|, i requires 0 <= i < |rs| => OnProposal(rs[i], b).1)
  }

  /** The votes among the answers. */
  function Present(answers: seq<Option<Vote>>): seq<Vote> {
    if answers == [] then []
    else
      var last := answers[|answers| - 1];
      Present(answers[..|answers| - 1]) + if last.Some? then [last.value] else []
  }

  function Collect(r: Replica, votes: seq<Vote>): (after: Replica)
    requires r.committee.Valid()
    ensures after.committee == r.committee
  {
    if votes == [] then r else OnVote(Collect(r, votes[..|votes| - 1]), votes[|votes| - 1]).0
  }

  function ProposedBlock(c: Committee, rs: seq<Replica>, v: int, payload: Payload): Block
    requires c.Valid() && |rs| == c.n
  {
    Propose(Advanced(rs, v)[c.LeaderForView(v)], payload)
  }

  function AfterView(c: Committee, rs: seq<Replica>, v: int, payload: Payload): seq<Replica>
    requires Members(c, rs)
  {
    var ready := Advanced(rs, v);
    var b := ProposedBlock(c, rs, v, payload);
    var voted := Voted(ready, b);
    var next := c.LeaderForView(v + 1);
    voted[next := Collect(voted[next], Present(Answers(ready, b)))]
  }

  // --- The state between two views ---

  /** tip is the last of an unbroken chain of blocks, one per view up to `view`, each certified by the next. */
  ghost predicate OnePerView(tip: Hash, view: int) {
    if view <= 0 then tip == GENESIS && view == 0
    else
      && tip.HashOf? && tip.block.view == view
      && tip.block.justify.Some?
      && tip.block.justify.value.hash == tip.block.parent
      && tip.block.justify.value.view == view - 1
      && OnePerView(tip.block.parent, view - 1)
  }

  ghost predicate HasHistory(r: Replica, tip: Hash) {
    forall h :: h in Path(tip) && h != NO_PARENT ==> h in r.blocks
  }

  /** A certificate for the tip that every replica accepts. */
  ghost predicate TipCertificate(c: Committee, qc: QC, tip: Hash, view: int)
    requires c.Valid()
  {
    qc.hash == tip && qc.view == view && (tip == GENESIS || Verifies(qc, c))
  }

  ghost predicate ReplicaReady(c: Committee, r: Replica, v: int, tip: Hash)
    requires c.Valid()
  {
    && HasHistory(r, tip)
    && r.currentView <= v
    && (forall view :: view in r.votedViews ==> view < v)
    && (forall key :: key in r.pendingVotes ==> key.1 < v)
    && r.lockedQc.view <= v - 1 && r.highQc.view <= v - 1
    && (r.lockedQc.view == v - 1 ==> r.lockedQc.hash == tip)
  }

  /** The committee is ready for view v on top of tip, whose certificate the leader of v holds. */
  ghost predicate Ready(c: Committee, rs: seq<Replica>, v: int, tip: Hash) {
    && Members(c, rs)
    && v >= 1
    && OnePerView(tip, v - 1)
    && (forall i :: 0 <= i < c.n ==> ReplicaReady(c, rs[i], v, tip))
    && TipCertificate(c, rs[c.LeaderForView(v)].highQc, tip, v - 1)
  }

  function Initials(c: Committee): seq<Replica> {
    seq(c.n, i => Initial(i, c))
  }

  lemma InitialReady(c: Committee)
    requires c.Valid()
    ensures Ready(c, Initials(c), 1, GENESIS)
  {
    assert Path(NO_PARENT) == [NO_PARENT];
    assert Path(GENESIS) == [NO_PARENT, GENESIS];
  }

  // --- Everyone votes ---

  lemma LeaderBlock(c: Committee, rs: seq<Replica>, v: int, tip: Hash, payload: Payload)
    requires Ready(c, rs, v, tip)
    ensures var b := ProposedBlock(c, rs, v, payload);
      && b.view == v && b.parent == tip && b.justify.Some?
      && TipCertificate(c, b.justify.value, tip, v - 1)
      && RightfulProposer(c, b) && JustifyHolds(c, b)
      && OnePerView(HashOf(b), v)
  {
    assert 0 <= c.LeaderForView(v) < c.n;
  }

  lemma EveryoneVotes(c: Committee, r: Replica, v: int, tip: Hash, b: Block)
    requires c.Valid() && r.committee == c && ReplicaReady(c, r, v, tip) && tip != NO_PARENT
    requires b.view == v && b.parent == tip && b.justify.Some? && b.justify.value.view == v - 1
    requires RightfulProposer(c, b) && JustifyHolds(c, b)
    ensures WillVote(AdvanceTo(r, v), b)
  {
    var ready := AdvanceTo(r, v);
    assert tip in Path(tip);
    assert tip in ready.blocks;
    assert ready.currentView == v;
    if ready.lockedQc.view == v - 1 {
      assert WalkFinds(ready.blocks, tip, tip, MAX_STEPS);
    }
  }

  /** After voting a replica is ready for the next view. */
  lemma ReadyAfterVote(c: Committee, r: Replica, v: int, tip: Hash, b: Block)
    requires c.Valid() && r.committee == c && ReplicaReady(c, r, v, tip)
    requires b.view == v && b.parent == tip && b.justify.Some? && b.justify.value.view == v - 1
    requires WillVote(AdvanceTo(r, v), b)
    ensures ReplicaReady(c, OnProposal(AdvanceTo(r, v), b).0, v + 1, HashOf(b))
    ensures OnProposal(AdvanceTo(r, v), b).0.currentView == v
  {
    assert Path(HashOf(b)) == Path(tip) + [HashOf(b)];
  }

  lemma {:induction false} AllPresent(answers: seq<Option<Vote>>)
    requires forall i :: 0 <= i < |answers| ==> answers[i].Some?
    ensures |Present(answers)| == |answers|
    ensures forall i :: 0 <= i < |answers| ==> Present(answers)[i] == answers[i].value
  {
    if answers != [] {
      AllPresent(answers[..|answers| - 1]);
    }
  }

  // --- The next leader certifies ---

  ghost predicate Collecting(c: Committee, r: Replica, key: (Hash, int), k: nat, before: Replica)
    requires c.Valid()
  {
    var bucket := BucketFor(r.pendingVotes, key);
    && r.committee == c && r.blocks == before.blocks && r.votedViews == before.votedViews
    && r.currentView == before.currentView && r.me == before.me
    && |bucket| < c.QuorumSize()
    && (forall i :: i in bucket ==> 0 <= i < k && i < c.n && bucket[i] == Sig(i, VoteMessage(key.1, key.0)))
    && (forall other :: other in r.pendingVotes ==> other == key || other in before.pendingVotes)
    && before.committed <= r.committed
    && ((|bucket| == k && r.lockedQc == before.lockedQc && r.highQc == before.highQc) || Certified(c, r, key))
  }

  ghost predicate Certified(c: Committee, r: Replica, key: (Hash, int))
    requires c.Valid()
  {
    && Verifies(r.highQc, c) && r.highQc.hash == key.0 && r.highQc.view == key.1
    && r.lockedQc.hash == key.0 && r.lockedQc.view == key.1
  }

  lemma CollectFew(c: Committee, r: Replica, key: (Hash, int), k: nat, before: Replica, v: Vote)
    requires c.Valid() && Collecting(c, r, key, k, before) && k < c.n
    requires v == Vote(key.0, key.1, k, Sig(k, VoteMessage(key.1, key.0)))
    requires |BucketFor(r.pendingVotes, key)| + 1 < c.QuorumSize()
    ensures Collecting(c, OnVote(r, v).0, key, k + 1, before)
  {
    assert VoteVerifies(v, c);
    var bucket := BucketFor(r.pendingVotes, key)[k := v.sig];
    assert |bucket| == |BucketFor(r.pendingVotes, key)| + 1;
    assert OnVote(r, v).0 == r.(pendingVotes := r.pendingVotes[key := bucket]);
  }

  lemma CollectQuorum(c: Committee, r: Replica, key: (Hash, int), k: nat, before: Replica, v: Vote)
    requires c.Valid() && Collecting(c, r, key, k, before) && k < c.n
    requires before.lockedQc.view < key.1 && before.highQc.view < key.1
    requires v == Vote(key.0, key.1, k, Sig(k, VoteMessage(key.1, key.0)))
    requires |BucketFor(r.pendingVotes, key)| + 1 >= c.QuorumSize()
    ensures Collecting(c, OnVote(r, v).0, key, k + 1, before)
  {
    assert VoteVerifies(v, c);
    var bucket := BucketFor(r.pendingVotes, key)[k := v.sig];
    assert |bucket| == |BucketFor(r.pendingVotes, key)| + 1;
    RS.FormedQcVerifies(c, key, bucket);
    AppliedCertificate(c, r, key, CertificateFrom(key, bucket), k + 1, before);
    assert OnVote(r, v).0 == ApplyQc(r.(pendingVotes := r.pendingVotes - {key}), CertificateFrom(key, bucket));
  }

  lemma AppliedCertificate(c: Committee, r: Replica, key: (Hash, int), qc: QC, k: nat, before: Replica)
    requires c.Valid() && k > 0 && Collecting(c, r, key, k - 1, before)
    requires Verifies(qc, c) && qc.hash == key.0 && qc.view == key.1
    requires before.lockedQc.view < key.1 && before.highQc.view < key.1
    ensures Collecting(c, ApplyQc(r.(pendingVotes := r.pendingVotes - {key}), qc), key, k, before)
  {
    var cleared := r.(pendingVotes := r.pendingVotes - {key});
    var after := ApplyQc(cleared, qc);
    RS.ApplyQcGrows(cleared, qc);
    assert BucketFor(after.pendingVotes, key) == map[];
    assert Certified(c, after, key);
  }

  lemma CollectOne(c: Committee, r: Replica, key: (Hash, int), k: nat, before: Replica, v: Vote)
    requires c.Valid() && Collecting(c, r, key, k, before) && k < c.n
    requires before.lockedQc.view < key.1 && before.highQc.view < key.1
    requires v == Vote(key.0, key.1, k, Sig(k, VoteMessage(key.1, key.0)))
    ensures Collecting(c, OnVote(r, v).0, key, k + 1, before)
  {
    if |BucketFor(r.pendingVotes, key)| + 1 < c.QuorumSize() {
      CollectFew(c, r, key, k, before, v);
    } else {
      CollectQuorum(c, r, key, k, before, v);
    }
  }

  lemma {:induction false} CollectAll(c: Committee, r: Replica, key: (Hash, int), votes: seq<Vote>)
    requires c.Valid() && r.committee == c && |votes| <= c.n
    requires r.lockedQc.view < key.1 && r.highQc.view < key.1 && key !in r.pendingVotes
    requires forall i :: 0 <= i < |votes| ==> votes[i] == Vote(key.0, key.1, i, Sig(i, VoteMessage(key.1, key.0)))
    ensures Collecting(c, Collect(r, votes), key, |votes|, r)
  {
    if votes != [] {
      var k := |votes| - 1;
      CollectAll(c, r, key, votes[..k]);
      CollectOne(c, Collect(r, votes[..k]), key, k, r, votes[k]);
    }
  }

  // --- A whole view ---

  /** One replica's part in a view: it votes, is ready for the next block, and is not locked on this one yet. */
  ghost predicate VotedWell(c: Committee, r: Replica, v: int, b: Block)
    requires c.Valid() && r.committee == c
  {
    var ready := AdvanceTo(r, v);
    var after := OnProposal(ready, b).0;
    && WillVote(ready, b) && ReplicaReady(c, after, v + 1, HashOf(b))
    && after.lockedQc.view < v && after.highQc.view < v && (HashOf(b), v) !in after.pendingVotes
  }

  lemma VotesWell(c: Committee, r: Replica, v: int, tip: Hash, b: Block)
    requires c.Valid() && r.committee == c && ReplicaReady(c, r, v, tip) && tip != NO_PARENT
    requires b.view == v && b.parent == tip && b.justify.Some? && b.justify.value.view == v - 1
    requires RightfulProposer(c, b) && JustifyHolds(c, b)
    ensures VotedWell(c, r, v, b)
  {
    EveryoneVotes(c, r, v, tip, b);
    ReadyAfterVote(c, r, v, tip, b);
  }

  lemma AllReadyAfterVote(c: Committee, rs: seq<Replica>, v: int, tip: Hash, payload: Payload)
    requires Ready(c, rs, v, tip)
    ensures forall i :: 0 <= i < c.n ==> VotedWell(c, rs[i], v, ProposedBlock(c, rs, v, payload))
  {
    var b := ProposedBlock(c, rs, v, payload);
    LeaderBlock(c, rs, v, tip, payload);
    forall i | 0 <= i < c.n ensures VotedWell(c, rs[i], v, b) {
      VotesWell(c, rs[i], v, tip, b);
    }
  }

  lemma ReadyAfterCollect(c: Committee, before: Replica, r: Replica, v: int, h: Hash)
    requires c.Valid() && ReplicaReady(c, before, v + 1, h) && before.lockedQc.view < v && before.highQc.view < v
    requires Collecting(c, r, (h, v), c.n, before)
    ensures ReplicaReady(c, r, v + 1, h) && TipCertificate(c, r.highQc, h, v)
  {
  }

  lemma VotesOfAll(c: Committee, rs: seq<Replica>, v: int, tip: Hash, payload: Payload) returns (votes: seq<Vote>)
    requires Ready(c, rs, v, tip)
    ensures var b := ProposedBlock(c, rs, v, payload);
      && votes == Present(Answers(Advanced(rs, v), b)) && |votes| == c.n
      && forall i :: 0 <= i < c.n ==> votes[i] == Vote(HashOf(b), v, i, Sig(i, VoteMessage(v, HashOf(b))))
  {
    var b := ProposedBlock(c, rs, v, payload);
    LeaderBlock(c, rs, v, tip, payload);
    AllReadyAfterVote(c, rs, v, tip, payload);
    var answers := Answers(Advanced(rs, v), b);
    forall i | 0 <= i < c.n
      ensures answers[i] == Some(Vote(HashOf(b), v, i, Sig(i, VoteMessage(v, HashOf(b)))))
    {
      assert WillVote(Advanced(rs, v)[i], b);
    }
    AllPresent(answers);
    votes := Present(answers);
  }

  /** Everyone has voted for h in view v. */
  ghost predicate AfterVoting(c: Committee, voted: seq<Replica>, v: int, h: Hash) {
    && Members(c, voted) && v >= 1 && OnePerView(h, v)
    && forall i :: 0 <= i < c.n ==> ReplicaReady(c, voted[i], v + 1, h)
  }

  lemma EveryoneVoted(c: Committee, rs: seq<Replica>, v: int, tip: Hash, payload: Payload)
    requires Ready(c, rs, v, tip)
    ensures var b := ProposedBlock(c, rs, v, payload); AfterVoting(c, Voted(Advanced(rs, v), b), v, HashOf(b))
  {
    LeaderBlock(c, rs, v, tip, payload);
    AllReadyAfterVote(c, rs, v, tip, payload);
    VotedMembers(c, Advanced(rs, v), ProposedBlock(c, rs, v, payload));
  }

  lemma ReadyAssembled(c: Committee, voted: seq<Replica>, v: int, h: Hash, next: int, collected: Replica)
    requires AfterVoting(c, voted, v, h) && next == c.LeaderForView(v + 1)
    requires ReplicaReady(c, collected, v + 1, h) && TipCertificate(c, collected.highQc, h, v)
    requires collected.committee == c && collected.me == next
    ensures Ready(c, voted[next := collected], v + 1, h)
  {
    assert 0 <= next < c.n;
  }

  lemma VotedMembers(c: Committee, rs: seq<Replica>, b: Block)
    requires Members(c, rs)
    ensures Members(c, Voted(rs, b))
  {
  }

  lemma NextLeaderCollects(c: Committee, rs: seq<Replica>, v: int, tip: Hash, payload: Payload, i: int)
    requires Ready(c, rs, v, tip) && 0 <= i < c.n
    ensures var b := ProposedBlock(c, rs, v, payload);
      var collected := Collect(Voted(Advanced(rs, v), b)[i], Present(Answers(Advanced(rs, v), b)));
      && ReplicaReady(c, collected, v + 1, HashOf(b)) && TipCertificate(c, collected.highQc, HashOf(b), v)
      && collected.committee == c && collected.me == i
  {
    var b := ProposedBlock(c, rs, v, payload);
    var before := Voted(Advanced(rs, v), b)[i];
    AllReadyAfterVote(c, rs, v, tip, payload);
    VotedMembers(c, Advanced(rs, v), b);
    var votes := VotesOfAll(c, rs, v, tip, payload);
    CollectAll(c, before, (HashOf(b), v), votes);
    ReadyAfterCollect(c, before, Collect(before, votes), v, HashOf(b));
  }

  lemma ReadyOnBlock(c: Committee, rs: seq<Replica>, v: int, tip: Hash, payload: Payload, b: Block, voted: seq<Replica>)
    requires Ready(c, rs, v, tip) && b == ProposedBlock(c, rs, v, payload) && voted == Voted(Advanced(rs, v), b)
    ensures |voted| == c.n && 0 <= c.LeaderForView(v + 1) < c.n
    ensures var next := c.LeaderForView(v + 1);
      Ready(c, voted[next := Collect(voted[next], Present(Answers(Advanced(rs, v), b)))], v + 1, HashOf(b))
  {
    var next := c.LeaderForView(v + 1);
    EveryoneVoted(c, rs, v, tip, payload);
    NextLeaderCollects(c, rs, v, tip, payload, next);
    ReadyAssembled(c, voted, v, HashOf(b), next, Collect(voted[next], Present(Answers(Advanced(rs, v), b))));
  }

  /** An honest view leaves the committee ready for the next one, on top of the block it proposed. */
  lemma HonestView(c: Committee, rs: seq<Replica>, v: int, tip: Hash, payload: Payload)
    requires Ready(c, rs, v, tip)
    ensures Ready(c, AfterView(c, rs, v, payload), v + 1, HashOf(ProposedBlock(c, rs, v, payload)))
  {
    var b := ProposedBlock(c, rs, v, payload);
    ReadyOnBlock(c, rs, v, tip, payload, b, Voted(Advanced(rs, v), b));
  }

  // --- What gets committed ---

  /** The k-th ancestor. */
  function Back(h: Hash, k: nat): Hash {
    if k == 0 || h.Opaque? then h else Back(h.block.parent, k - 1)
  }

  lemma {:induction false} WalkIncludesStart(blocks: BlockStore, committed: seq<Hash>, h: Hash)
    requires h in blocks
    ensures h in committed + Uncommitted(blocks, committed, h)
  {
  }

  /** The three-chain rule on three linked blocks of consecutive views in the store. */
  lemma ThreeLinksCommit(r: Replica, qc: QC, h0: Hash, h1: Hash, h2: Hash)
    requires h0 in r.blocks && h1 in r.blocks && h2 in r.blocks && h0.HashOf? && h1.HashOf? && h2.HashOf?
    requires h2.block.justify.Some? && h2.block.justify.value.hash == h1
    requires h1.block.justify.Some? && h1.block.justify.value.hash == h0
    requires h1.block.view == h0.block.view + 1 && h2.block.view == h1.block.view + 1
    requires qc.hash == h2 && qc.view == h2.block.view
    ensures h0 in ApplyQc(r, qc).committed
  {
    assert r.blocks[h0] == h0.block && r.blocks[h1] == h1.block && r.blocks[h2] == h2.block;
    WalkIncludesStart(r.blocks, r.committed, h0);
  }

  lemma TwoBelow(tip: Hash, view: int) returns (h1: Hash, h0: Hash)
    requires OnePerView(tip, view) && view >= 2
    ensures tip.HashOf? && h1.HashOf? && h0.HashOf? && Back(tip, 2) == h0
    ensures tip.block.justify.Some? && tip.block.justify.value.hash == h1
    ensures h1.block.justify.Some? && h1.block.justify.value.hash == h0
    ensures tip.block.view == view && h1.block.view == view - 1 && h0.block.view == view - 2
    ensures h1 in Path(tip) && h0 in Path(tip)
  {
    h1 := tip.block.parent;
    assert OnePerView(h1, view - 1);
    h0 := h1.block.parent;
    assert OnePerView(h0, view - 2);
    assert Path(tip) == Path(h1) + [tip] && Path(h1) == Path(h0) + [h1];
    assert h1 in Path(h1) && h0 in Path(h0);
    assert Back(tip, 2) == Back(h1, 1) == Back(h0, 0);
  }

  /** Applying a certificate for the tip of an unbroken chain commits the block two views below it. */
  lemma CertificateCommits(r: Replica, qc: QC, tip: Hash, view: int)
    requires OnePerView(tip, view) && view >= 2 && HasHistory(r, tip) && qc.hash == tip && qc.view == view
    ensures Back(tip, 2) in ApplyQc(r, qc).committed
  {
    var h1, h0 := TwoBelow(tip, view);
    assert tip in Path(tip);
    ThreeLinksCommit(r, qc, h0, h1, tip);
  }

  lemma CollectStep(r: Replica, votes: seq<Vote>)
    requires r.committee.Valid() && votes != []
    ensures Collect(r, votes) == OnVote(Collect(r, votes[..|votes| - 1]), votes[|votes| - 1]).0
  {
  }

  lemma {:induction false} CollectKeepsCommits(r: Replica, votes: seq<Vote>)
    requires r.committee.Valid()
    ensures r.committed <= Collect(r, votes).committed
  {
    if votes != [] {
      var rest := votes[..|votes| - 1];
      CollectKeepsCommits(r, rest);
      CollectStep(r, votes);
      RS.VoteGrows(Collect(r, rest), votes[|votes| - 1]);
    }
  }

  /** A view run on a tip of view 2 or later commits, on every replica, the block two below the tip; and it
      never undoes a commit. */
  lemma HonestViewCommits(c: Committee, rs: seq<Replica>, v: int, tip: Hash, payload: Payload)
    requires Ready(c, rs, v, tip)
    ensures Members(c, AfterView(c, rs, v, payload))
    ensures forall h :: Committed(rs, h) ==> Committed(AfterView(c, rs, v, payload), h)
    ensures v >= 3 ==> Committed(AfterView(c, rs, v, payload), Back(tip, 2))
  {
    HonestView(c, rs, v, tip, payload);
    var after := AfterView(c, rs, v, payload);
    forall i | 0 <= i < c.n
      ensures rs[i].committed <= after[i].committed
      ensures v >= 3 ==> Back(tip, 2) in after[i].committed
    {
      ReplicaCommits(c, rs, v, tip, payload, i);
    }
  }

  lemma VoterCommits(c: Committee, rs: seq<Replica>, v: int, tip: Hash, payload: Payload, i: int)
    requires Ready(c, rs, v, tip) && 0 <= i < c.n
    ensures var voted := Voted(Advanced(rs, v), ProposedBlock(c, rs, v, payload));
      && rs[i].committed <= voted[i].committed
      && (v >= 3 ==> Back(tip, 2) in voted[i].committed)
  {
    LeaderBlock(c, rs, v, tip, payload);
    AllReadyAfterVote(c, rs, v, tip, payload);
    assert WillVote(Advanced(rs, v)[i], ProposedBlock(c, rs, v, payload));
    VoteCommits(c, rs[i], v, tip, ProposedBlock(c, rs, v, payload));
  }

  lemma ReplicaCommits(c: Committee, rs: seq<Replica>, v: int, tip: Hash, payload: Payload, i: int)
    requires Ready(c, rs, v, tip) && 0 <= i < c.n
    ensures rs[i].committed <= AfterView(c, rs, v, payload)[i].committed
    ensures v >= 3 ==> Back(tip, 2) in AfterView(c, rs, v, payload)[i].committed
  {
    var b := ProposedBlock(c, rs, v, payload);
    var ready := Advanced(rs, v);
    VoterCommits(c, rs, v, tip, payload, i);
    CollectKeepsCommits(Voted(ready, b)[i], Present(Answers(ready, b)));
  }

  /** What a vote does to the committed list is what applying the block's certificate does. */
  lemma VoteAppliesCertificate(r: Replica, b: Block)
    requires r.committee.Valid() && WillVote(r, b)
    ensures OnProposal(r, b).0.committed == ApplyQc(r.(blocks := r.blocks[HashOf(b) := b]), b.justify.value).committed
    ensures r.committed <= OnProposal(r, b).0.committed
  {
  }

  lemma VoteCommits(c: Committee, r: Replica, v: int, tip: Hash, b: Block)
    requires c.Valid() && r.committee == c && ReplicaReady(c, r, v, tip) && OnePerView(tip, v - 1)
    requires WillVote(AdvanceTo(r, v), b) && b.justify.Some? && TipCertificate(c, b.justify.value, tip, v - 1)
    ensures r.committed <= OnProposal(AdvanceTo(r, v), b).0.committed
    ensures v >= 3 ==> Back(tip, 2) in OnProposal(AdvanceTo(r, v), b).0.committed
  {
    VoteAppliesCertificate(AdvanceTo(r, v), b);
    StoredCommits(c, r, v, tip, b);
  }

  lemma StoredCommits(c: Committee, r: Replica, v: int, tip: Hash, b: Block)
    requires c.Valid() && HasHistory(r, tip) && OnePerView(tip, v - 1)
    requires b.justify.Some? && TipCertificate(c, b.justify.value, tip, v - 1)
    ensures v >= 3 ==>
      Back(tip, 2) in ApplyQc(AdvanceTo(r, v).(blocks := AdvanceTo(r, v).blocks[HashOf(b) := b]), b.justify.value).committed
  {
    if v >= 3 {
      var stored := AdvanceTo(r, v).(blocks := AdvanceTo(r, v).blocks[HashOf(b) := b]);
      CertificateCommits(stored, b.justify.value, tip, v - 1);
    }
  }
}
