/** A branch of blocks that carry real certificates, and driving the replicas of a run along it. */
module Branches {
  import opened Wrappers
  import opened HotStuffTypes
  import opened SetFacts
  import opened Quorums
  import opened ReplicaLogic
  import opened VoteLog
  import opened ReplicaSystem
  import opened RelaxedRuns
  import HR = HonestRounds
  import BS = BlockSync

  // --- Certificates signed by whoever the listed positions select ---

  predicate Placed(c: Committee, signers: seq<int>) {
    forall i :: 0 <= i < |signers| ==> c.KeyAt(signers[i]).Some?
  }

  function CertFor(c: Committee, signers: seq<int>, h: Hash, view: int): QC {
    var parts := ExpectedParts(c, signers, VoteMessage(view, h));
    QC(h, view, signers, if parts.Some? then Agg(parts.value) else NoSig)
  }

  lemma CertVerifies(c: Committee, signers: seq<int>, h: Hash, view: int)
    requires c.Valid() && |signers| >= c.QuorumSize() && NoRepeats(signers) && Placed(c, signers)
    ensures Verifies(CertFor(c, signers, h, view), c)
    ensures CertFor(c, signers, h, view).hash == h && CertFor(c, signers, h, view).view == view
  {
    PartsAre(c, signers, VoteMessage(view, h));
  }

  lemma CertAllowed(w: Allowance, s: Setting, log: Log, signers: seq<int>, voters: seq<int>, h: Hash, view: int)
    requires h != GENESIS && (w.positions || InRange(s.c, signers))
    requires w.forgeries || ((forall k :: k in Validators(s.c, signers) ==> k in voters) && AllCast(log, voters, h, view))
    ensures QcAllowed(w, s, log, CertFor(s.c, signers, h, view))
  {
    var msg := VoteMessage(view, h);
    PartsAre(s.c, signers, msg);
    var qc := CertFor(s.c, signers, h, view);
    if !w.forgeries && qc.agg.Agg? {
      forall p | p in qc.agg.parts ensures Unforged(s, log, p) {
        assert p.key in voters;
      }
    }
  }

  // --- A branch from genesis, one block per view ---

  datatype Line = Line(name: nat, start: int, signers: seq<int>)

  /** A block that its rightful leader proposes on a certified parent. */
  function BlockOn(c: Committee, view: int, payload: Payload, justify: QC): Block
    requires c.Valid()
  {
    Block(view, justify.hash, payload, Some(c.LeaderForView(view)), Some(justify))
  }

  function NextBlock(c: Committee, l: Line, k: nat, tip: Hash): Block
    requires c.Valid()
  {
    if k == 0 then BlockOn(c, l.start, Command(l.name), QC(GENESIS, l.start - 1, [], NoSig))
    else BlockOn(c, l.start + k, NoPayload, CertFor(c, l.signers, tip, l.start + k - 1))
  }

  /** The hash of the k-th block, or genesis. */
  function LineTip(c: Committee, l: Line, k: nat): (h: Hash)
    requires c.Valid()
    ensures h.HashOf?
  {
    if k == 0 then GENESIS else HashOf(NextBlock(c, l, k - 1, LineTip(c, l, k - 1)))
  }

  function LineBlock(c: Committee, l: Line, k: nat): Block
    requires c.Valid()
  {
    NextBlock(c, l, k, LineTip(c, l, k))
  }

  predicate GoodLine(c: Committee, l: Line) {
    c.Valid() && l.start >= 1 && |l.signers| >= c.QuorumSize() && NoRepeats(l.signers) && Placed(c, l.signers)
  }

  ghost predicate WellFormed(c: Committee, b: Block, view: int, tip: Hash)
    requires c.Valid()
  {
    && b.view == view && b.parent == tip && b.justify.Some? && b.justify.value.hash == tip
    && b.justify.value.view == view - 1 && HashOf(b) != GENESIS && tip != NO_PARENT
    && RightfulProposer(c, b) && JustifyHolds(c, b)
  }

  lemma BlockOnHolds(c: Committee, view: int, payload: Payload, justify: QC)
    requires c.Valid() && (justify.hash == GENESIS || Verifies(justify, c))
    requires view >= 1 && justify.view == view - 1 && justify.hash != NO_PARENT
    ensures WellFormed(c, BlockOn(c, view, payload, justify), view, justify.hash)
  {
    assert 0 <= c.LeaderForView(view) < c.n;
  }

  lemma LineBlockShape(c: Committee, l: Line, k: nat)
    requires GoodLine(c, l)
    ensures WellFormed(c, LineBlock(c, l, k), l.start + k, LineTip(c, l, k))
  {
    NextBlockShape(c, l, k, LineTip(c, l, k));
  }

  lemma NextBlockShape(c: Committee, l: Line, k: nat, tip: Hash)
    requires GoodLine(c, l) && tip.HashOf? && (k == 0 ==> tip == GENESIS)
    ensures WellFormed(c, NextBlock(c, l, k, tip), l.start + k, tip)
  {
    if k == 0 {
      BlockOnHolds(c, l.start, Command(l.name), QC(GENESIS, l.start - 1, [], NoSig));
    } else {
      NextShape(c, l, k, tip);
    }
  }

  lemma NextShape(c: Committee, l: Line, k: nat, parent: Hash)
    requires GoodLine(c, l) && k > 0 && parent.HashOf?
    ensures WellFormed(c, BlockOn(c, l.start + k, NoPayload, CertFor(c, l.signers, parent, l.start + k - 1)),
                       l.start + k, parent)
  {
    CertVerifies(c, l.signers, parent, l.start + k - 1);
    BlockOnHolds(c, l.start + k, NoPayload, CertFor(c, l.signers, parent, l.start + k - 1));
  }

  lemma {:induction false} LineHistory(c: Committee, l: Line, k: nat)
    requires c.Valid()
    ensures |Path(LineTip(c, l, k))| == k + 2
    ensures Path(LineTip(c, l, k))[0] == NO_PARENT && Path(LineTip(c, l, k))[1] == GENESIS
    ensures forall j :: 0 <= j < k ==> Path(LineTip(c, l, k))[j + 2] == HashOf(LineBlock(c, l, j))
  {
    if k == 0 {
      assert Path(NO_PARENT) == [NO_PARENT];
      assert Path(GENESIS) == [NO_PARENT, GENESIS];
    } else {
      LineHistory(c, l, k - 1);
      assert Path(LineTip(c, l, k)) == Path(LineTip(c, l, k - 1)) + [LineTip(c, l, k)];
    }
  }

  /** The first block of one branch is not on another of a different name. */
  lemma FirstBlocksApart(c: Committee, l: Line, other: Line, k: nat)
    requires c.Valid() && l.name != other.name
    ensures HashOf(LineBlock(c, l, 0)) !in Path(LineTip(c, other, k))
  {
    LineHistory(c, other, k);
    var h, path := HashOf(LineBlock(c, l, 0)), Path(LineTip(c, other, k));
    forall i | 0 <= i < |path| ensures path[i] != h {
      if i >= 2 {
        assert path[i - 2 + 2] == HashOf(LineBlock(c, other, i - 2));
      }
    }
  }

  // --- One replica along a branch ---

  function Along(c: Committee, r: Replica, l: Line, k: nat): (after: Replica)
    requires c.Valid() && r.committee == c
    ensures after.committee == c && after.me == r.me
  {
    if k == 0 then r
    else
      var before := Along(c, r, l, k - 1);
      VoteKeepsPlace(before, LineBlock(c, l, k - 1));
      VoteOn(before, LineBlock(c, l, k - 1))
  }

  ghost predicate OnLine(c: Committee, r: Replica, l: Line, k: nat)
    requires c.Valid()
  {
    r.committee == c && HR.ReplicaReady(c, r, l.start + k, LineTip(c, l, k))
  }

  lemma LineVote(c: Committee, r: Replica, l: Line, k: nat)
    requires GoodLine(c, l) && OnLine(c, r, l, k)
    ensures WillVote(AdvanceTo(r, l.start + k), LineBlock(c, l, k))
    ensures OnLine(c, VoteOn(r, LineBlock(c, l, k)), l, k + 1)
  {
    var b, v, tip := LineBlock(c, l, k), l.start + k, LineTip(c, l, k);
    LineBlockShape(c, l, k);
    HR.EveryoneVotes(c, r, v, tip, b);
    HR.ReadyAfterVote(c, r, v, tip, b);
    VoteKeepsPlace(r, b);
  }

  lemma {:induction false} AlongOnLine(c: Committee, r: Replica, l: Line, k: nat)
    requires GoodLine(c, l) && OnLine(c, r, l, 0)
    ensures OnLine(c, Along(c, r, l, k), l, k)
  {
    if k > 0 {
      var j := k - 1;
      var before := Along(c, r, l, j);
      AlongOnLine(c, r, l, j);
      LineVote(c, before, l, j);
    }
  }

  lemma FreshOnLine(c: Committee, i: int, l: Line)
    requires GoodLine(c, l)
    ensures OnLine(c, Initial(i, c), l, 0)
  {
    assert Path(NO_PARENT) == [NO_PARENT];
    assert Path(GENESIS) == [NO_PARENT, GENESIS];
  }

  // --- What a replica commits along a branch ---

  lemma StoredTips(c: Committee, r: Replica, l: Line, j: nat)
    requires GoodLine(c, l) && OnLine(c, r, l, 3) && 1 <= j <= 3
    ensures LineTip(c, l, j) in r.blocks
  {
    LineHistory(c, l, 3);
    var path := Path(LineTip(c, l, 3));
    assert path[j - 1 + 2] == HashOf(LineBlock(c, l, j - 1)) == LineTip(c, l, j);
    assert LineTip(c, l, j) in path;
  }

  /** A hash of a block of that view that carries a certificate for its parent. */
  ghost predicate LinkedTo(h: Hash, view: int, parent: Hash) {
    h.HashOf? && h.block.view == view && h.block.justify.Some? && h.block.justify.value.hash == parent
  }

  lemma TipLinked(c: Committee, l: Line, j: nat)
    requires GoodLine(c, l) && j >= 1
    ensures LinkedTo(LineTip(c, l, j), l.start + j - 1, LineTip(c, l, j - 1))
  {
    LineBlockShape(c, l, j - 1);
  }

  lemma FourthVoteCommits(c: Committee, r: Replica, l: Line)
    requires GoodLine(c, l) && OnLine(c, r, l, 3)
    ensures HashOf(LineBlock(c, l, 0)) in VoteOn(r, LineBlock(c, l, 3)).committed
  {
    var h0, h1, h2, b := LineTip(c, l, 1), LineTip(c, l, 2), LineTip(c, l, 3), LineBlock(c, l, 3);
    StoredTips(c, r, l, 1);
    StoredTips(c, r, l, 2);
    StoredTips(c, r, l, 3);
    TipLinked(c, l, 1);
    TipLinked(c, l, 2);
    TipLinked(c, l, 3);
    LineBlockShape(c, l, 3);
    LineVote(c, r, l, 3);
    VoteCommitsTarget(c, r, b, l.start, h0, h1, h2);
  }

  lemma VoteCommitsTarget(c: Committee, r: Replica, b: Block, view: int, h0: Hash, h1: Hash, h2: Hash)
    requires r.committee == c && c.Valid() && WillVote(AdvanceTo(r, b.view), b)
    requires h0 in r.blocks && h1 in r.blocks && h2 in r.blocks && h0.HashOf? && h0.block.view == view
    requires LinkedTo(h1, view + 1, h0) && LinkedTo(h2, view + 2, h1)
    requires b.justify.value.hash == h2 && b.justify.value.view == view + 2
    ensures h0 in VoteOn(r, b).committed
  {
    var ready := AdvanceTo(r, b.view);
    HR.VoteAppliesCertificate(ready, b);
    HR.ThreeLinksCommit(ready.(blocks := ready.blocks[HashOf(b) := b]), b.justify.value, h0, h1, h2);
  }

  ghost predicate CommittedWithin(committed: seq<Hash>, tip: Hash) {
    forall h :: h in committed ==> h in Path(tip)
  }

  lemma {:induction false} UncommittedWithin(blocks: BlockStore, committed: seq<Hash>, h: Hash)
    ensures CommittedWithin(Uncommitted(blocks, committed, h), h)
    decreases h
  {
    if h !in committed && h in blocks {
      assert h == HashOf(blocks[h]);
      UncommittedWithin(blocks, committed, blocks[h].parent);
      assert Path(h) == Path(h.block.parent) + [h];
    }
  }

  lemma ParentWithin(c: Committee, blocks: BlockStore, h: Hash)
    requires c.Valid() && BS.Importable(c, blocks) && StoredParentOf(blocks, h).Some?
    ensures h.HashOf? && StoredParentOf(blocks, h).value.hash == h.block.parent && IsAncestor(h.block.parent, h)
  {
    assert h == HashOf(blocks[h]);
    assert Path(h) == Path(h.block.parent) + [h];
    assert Path(h)[|Path(h.block.parent)| - 1] == h.block.parent;
  }

  lemma TargetWithin(c: Committee, blocks: BlockStore, qc: QC)
    requires c.Valid() && BS.Importable(c, blocks) && CommitTarget(blocks, qc).Some?
    ensures IsAncestor(CommitTarget(blocks, qc).value, qc.hash)
  {
    ParentWithin(c, blocks, qc.hash);
    var h1 := qc.hash.block.parent;
    ParentWithin(c, blocks, h1);
    AncestorTrans(h1.block.parent, h1, qc.hash);
  }

  lemma AfterCommitWithin(c: Committee, blocks: BlockStore, committed: seq<Hash>, qc: QC)
    requires c.Valid() && BS.Importable(c, blocks) && CommittedWithin(committed, qc.hash)
    ensures CommittedWithin(AfterCommit(blocks, committed, qc), qc.hash)
  {
    var target := CommitTarget(blocks, qc);
    if target.Some? {
      TargetWithin(c, blocks, qc);
      UncommittedWithin(blocks, committed, target.value);
      AncestorPrefix(target.value, qc.hash);
    }
  }

  ghost predicate Within(c: Committee, r: Replica, tip: Hash)
    requires c.Valid()
  {
    r.committee == c && BS.Importable(c, r.blocks) && CommittedWithin(r.committed, tip)
  }

  lemma VoteWithin(c: Committee, r: Replica, b: Block)
    requires c.Valid() && Within(c, r, b.parent) && WillVote(AdvanceTo(r, b.view), b)
    ensures Within(c, VoteOn(r, b), HashOf(b))
  {
    var ready := AdvanceTo(r, b.view);
    BS.ProposalImportable(c, ready, b);
    BS.StoreImportable(c, r.blocks, b);
    HR.VoteAppliesCertificate(ready, b);
    AfterCommitWithin(c, r.blocks[HashOf(b) := b], r.committed, b.justify.value);
    assert Path(HashOf(b)) == Path(b.parent) + [HashOf(b)];
  }

  lemma {:induction false} AlongWithin(c: Committee, r: Replica, l: Line, k: nat)
    requires GoodLine(c, l) && OnLine(c, r, l, 0) && Within(c, r, GENESIS)
    ensures Within(c, Along(c, r, l, k), LineTip(c, l, k))
  {
    if k > 0 {
      var j := k - 1;
      var before := Along(c, r, l, j);
      AlongWithin(c, r, l, j);
      AlongOnLine(c, r, l, j);
      LineVote(c, before, l, j);
      LineBlockShape(c, l, j);
      VoteWithin(c, before, LineBlock(c, l, j));
    }
  }

  lemma FreshWithin(c: Committee, i: int)
    requires c.Valid()
    ensures Within(c, Initial(i, c), GENESIS)
  {
    assert GENESIS in Path(GENESIS);
  }

  // --- Driving a run along a branch ---

  /** What the run must allow so that the blocks of the branch can be sent. */
  ghost predicate LineAllowed(w: Allowance, s: Setting, l: Line, voters: seq<int>) {
    && GoodLine(s.c, l) && VoterList(s, voters)
    && (w.genesisViews || l.start == 1) && (w.positions || InRange(s.c, l.signers))
    && (w.forgeries || forall k :: k in Validators(s.c, l.signers) ==> k in voters)
  }

  lemma BlockSendable(w: Allowance, s: Setting, log: Log, l: Line, voters: seq<int>, k: nat)
    requires LineAllowed(w, s, l, voters)
    requires k > 0 ==> AllCast(log, voters, LineTip(s.c, l, k), l.start + k - 1)
    ensures BlockAllowed(w, s, log, LineBlock(s.c, l, k))
  {
    if k > 0 {
      LineBlockShape(s.c, l, k - 1);
      CertAllowed(w, s, log, l.signers, voters, LineTip(s.c, l, k), l.start + k - 1);
    }
  }

  /** The honest voters have gone k blocks along, and nothing else happened to any replica. */
  ghost predicate Drove(s: Setting, before: Sys, after: Sys, voters: seq<int>, l: Line, k: nat)
    requires s.c.Valid()
  {
    && |before.replicas| == |after.replicas| == s.c.n
    && (forall i :: 0 <= i < s.c.n ==> before.replicas[i].committee == s.c)
    && (forall i :: 0 <= i < s.c.n && i in voters && i !in s.byz ==>
          after.replicas[i] == Along(s.c, before.replicas[i], l, k))
    && (forall i :: 0 <= i < s.c.n && !(i in voters && i !in s.byz) ==> after.replicas[i] == before.replicas[i])
  }

  lemma DroveMore(s: Setting, before: Sys, mid: Sys, after: Sys, voters: seq<int>, l: Line, k: nat)
    requires s.c.Valid() && Drove(s, before, mid, voters, l, k) && Voted(s, mid, after, voters, LineBlock(s.c, l, k))
    ensures Drove(s, before, after, voters, l, k + 1)
  {
  }

  lemma VotersCanVote(s: Setting, before: Sys, mid: Sys, voters: seq<int>, l: Line, k: nat)
    requires GoodLine(s.c, l) && VoterList(s, voters) && Drove(s, before, mid, voters, l, k)
    requires forall i :: 0 <= i < s.c.n && i in voters && i !in s.byz ==> OnLine(s.c, before.replicas[i], l, 0)
    ensures forall i :: 0 <= i < |voters| && voters[i] !in s.byz ==>
      CanVote(s, mid.replicas[voters[i]], LineBlock(s.c, l, k))
  {
    LineBlockShape(s.c, l, k);
    forall i | 0 <= i < |voters| && voters[i] !in s.byz ensures CanVote(s, mid.replicas[voters[i]], LineBlock(s.c, l, k)) {
      var r := before.replicas[voters[i]];
      AlongOnLine(s.c, r, l, k);
      LineVote(s.c, Along(s.c, r, l, k), l, k);
    }
  }

  /** Everyone on the list votes for the first k blocks of the branch, in order. */
  lemma {:induction false} Drive(w: Allowance, s: Setting, sys: Sys, voters: seq<int>, l: Line, k: nat) returns (after: Sys)
    requires At(w, s, sys) && LineAllowed(w, s, l, voters)
    requires forall i :: 0 <= i < s.c.n && i in voters && i !in s.byz ==> OnLine(s.c, sys.replicas[i], l, 0)
    ensures At(w, s, after) && sys.log <= after.log && Drove(s, sys, after, voters, l, k)
    ensures k > 0 ==> AllCast(after.log, voters, LineTip(s.c, l, k), l.start + k - 1)
  {
    if k == 0 {
      after := sys;
    } else {
      var j := k - 1;
      var mid := Drive(w, s, sys, voters, l, j);
      BlockSendable(w, s, mid.log, l, voters, j);
      VotersCanVote(s, sys, mid, voters, l, j);
      LineBlockShape(s.c, l, j);
      after := Round(w, s, mid, voters, LineBlock(s.c, l, j));
      DroveMore(s, sys, mid, after, voters, l, j);
    }
  }
}
