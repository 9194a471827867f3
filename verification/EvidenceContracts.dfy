/** What evidence of misbehaviour says, spelled out: which pairs of histories are in conflict, when a block is proved
    to be committed, and which votes the monitor reports. */
module EvidenceContracts {
  import opened Wrappers
  import opened HotStuffTypes
  import opened ReplicaLogic
  import opened VoteLog
  import opened ReplicaSystem
  import opened Agreement
  import opened Accountability
  import opened BlockSync
  import opened ReplicaContracts

  // --- Proofs of a commit ---

  /** The certificate holds and is for this block, in the block's view. */
  ghost predicate Seals(n: nat, qc: QC, b: Block)
    requires n > 0
  {
    CertificateHolds(n, qc) && qc.hash == HashOf(b) && qc.view == b.view
  }

  /** The block follows its parent in the next view and carries a certificate of the parent's view for it. */
  ghost predicate Follows(child: Block, b: Block) {
    && child.parent == HashOf(b) && child.view == b.view + 1
    && exists q :: child.justify == Some(q) && q.hash == HashOf(b) && q.view == b.view
  }

  ghost predicate ProvesCommit(n: nat, w: ThreeChainWitness)
    requires n > 0
  {
    && Seals(n, w.qc0, w.block0) && Seals(n, w.qc1, w.block1) && Seals(n, w.qc2, w.block2)
    && Follows(w.block1, w.block0) && Follows(w.block2, w.block1)
  }

  lemma SealsIff(c: Committee, qc: QC, b: Block)
    requires c.Valid()
    ensures Seals(c.n, qc, b) <==> Verifies(qc, c) && Certifies(qc, b)
  {
    VerifiesIff(c, qc);
  }

  lemma FollowsIff(child: Block, b: Block)
    ensures Follows(child, b) <==> ExtendsJustified(child, b) && child.view == b.view + 1
  {
    if ExtendsJustified(child, b) {
      assert child.justify == Some(child.justify.value);
    }
  }

  lemma WitnessIff(c: Committee, w: ThreeChainWitness)
    requires c.Valid()
    ensures WitnessVerifies(w, c) <==> ProvesCommit(c.n, w)
  {
    SealsIff(c, w.qc0, w.block0);
    SealsIff(c, w.qc1, w.block1);
    SealsIff(c, w.qc2, w.block2);
    FollowsIff(w.block1, w.block0);
    FollowsIff(w.block2, w.block1);
  }

  /** A proof of a commit makes any replica that stores its three blocks commit the block. */
  lemma ProofCommits(r: Replica, w: ThreeChainWitness)
    requires r.committee.Valid() && WitnessVerifies(w, r.committee)
    requires HashOf(w.block0) in r.blocks && HashOf(w.block1) in r.blocks && HashOf(w.block2) in r.blocks
    ensures HashOf(w.block0) in ApplyQc(r, w.qc2).committed
  {
    ApplyQcApplied(r, w.qc2);
    var h0, h1 := HashOf(w.block0), HashOf(w.block1);
    assert r.blocks[h0] == w.block0 && r.blocks[h1] == w.block1 && r.blocks[HashOf(w.block2)] == w.block2;
    assert ThreeChain(r.blocks, w.qc2, h1, h0);
    if h0 !in r.committed {
      assert Finalizes(r.blocks, r.committed, w.qc2, h0);
    }
  }

  /** And whatever an honest replica of a run commits, genesis aside, it can prove to be committed from the blocks it
      stores and the certificate that committed it. */
  lemma CommitIsProvable(s: Setting, states: seq<Sys>, steps: seq<Step>, k: nat, a: int, qc: QC, h1: Hash, h0: Hash)
    returns (w: ThreeChainWitness)
    requires s.Valid() && Run(s, states, steps) && k < |states| && s.Honest(a) && |states[k].replicas| == s.c.n
    requires ThreeChain(states[k].replicas[a].blocks, qc, h1, h0) && CertificateHolds(s.c.n, qc) && h0 != GENESIS
    ensures WitnessVerifies(w, s.c) && HashOf(w.block0) == h0 && w.qc2 == qc
  {
    RunInv(s, states, steps, k);
    RunImportable(s, states, steps, k);
    var log, blocks := states[k].log, states[k].replicas[a].blocks;
    var b1, b2 := blocks[h1], blocks[qc.hash];
    VerifiesIff(s.c, qc);
    StoredCertificate(s, log, blocks, h1);
    StoredCertificate(s, log, blocks, qc.hash);
    w := ThreeChainWitness(b1.justify.value, blocks[h0], b2.justify.value, b1, qc, b2);
  }

  lemma StoredCertificate(s: Setting, log: Log, blocks: BlockStore, h: Hash)
    requires s.Valid() && LogInv(s, log) && StoreInv(s, log, blocks) && Importable(s.c, blocks)
    requires h in blocks && blocks[h].justify.Some? && blocks[h].justify.value.hash != GENESIS
    ensures blocks[h].parent.HashOf? && ExtendsJustified(blocks[h], blocks[h].parent.block)
    ensures blocks[h].parent == blocks[h].justify.value.hash && Verifies(blocks[h].justify.value, s.c)
  {
    assert StoredWell(s, log, blocks, h);
    JustifiedShape(s, log, h.block.parent, JustifyView(h));
  }

  // --- Conflicts ---

  /** The blocks are the whole history of the tip, from genesis on. */
  ghost predicate IsHistory(chain: seq<Block>, tip: Hash) {
    |Path(tip)| == |chain| + 1 && Path(tip)[0] == NO_PARENT
    && forall i :: 0 <= i < |chain| ==> Path(tip)[i + 1] == HashOf(chain[i])
  }

  lemma {:induction false} PathLinks(h: Hash, i: nat)
    requires 0 < i < |Path(h)|
    ensures Path(h)[i].HashOf? && Path(h)[i].block.parent == Path(h)[i - 1]
    decreases h
  {
    var p := h.block.parent;
    assert Path(h) == Path(p) + [h];
    if i < |Path(h)| - 1 {
      PathLinks(p, i);
    }
  }

  /** The chain check accepts exactly the history of the tip, when that history starts at genesis. */
  lemma HistoryIff(chain: seq<Block>, tip: Hash)
    requires tip.HashOf?
    ensures ValidChainFromGenesis(chain, tip) <==> IsHistory(chain, tip) && Path(tip)[1] == GENESIS
  {
    if ValidChainFromGenesis(chain, tip) {
      ChainIsHistory(chain, tip);
      PathLinks(tip, 1);
    }
    if IsHistory(chain, tip) && Path(tip)[1] == GENESIS {
      assert HashOf(chain[0]) == GENESIS;
      forall i | 1 <= i < |chain| ensures chain[i].parent == HashOf(chain[i - 1]) {
        PathLinks(tip, i + 1);
      }
      assert HashOf(chain[|chain| - 1]) == Path(tip)[|chain|] == tip;
    }
  }

  lemma ListedIffAncestor(chain: seq<Block>, tip: Hash, b: Block)
    requires IsHistory(chain, tip)
    ensures b in chain <==> IsAncestor(HashOf(b), tip)
  {
    if b in chain {
      var i :| 0 <= i < |chain| && chain[i] == b;
      assert Path(tip)[i + 1] == HashOf(b);
    }
    if IsAncestor(HashOf(b), tip) {
      var k :| 0 <= k < |Path(tip)| && Path(tip)[k] == HashOf(b);
      assert HashOf(chain[k - 1]) == HashOf(b);
    }
  }

  /** Evidence verifies if and only if both its blocks are proved to be committed, its chains are their histories from
      genesis, and neither block is on the history of the other. */
  lemma ConflictIff(c: Committee, e: ConflictEvidence)
    requires c.Valid()
    ensures var a, b := HashOf(e.witnessA.block0), HashOf(e.witnessB.block0);
      ConflictVerifies(e, c) <==>
        (&& ProvesCommit(c.n, e.witnessA) && ProvesCommit(c.n, e.witnessB)
         && IsHistory(e.chainA, a) && IsHistory(e.chainB, b) && IsAncestor(GENESIS, a) && IsAncestor(GENESIS, b)
         && !IsAncestor(a, b) && !IsAncestor(b, a))
  {
    WitnessIff(c, e.witnessA);
    WitnessIff(c, e.witnessB);
    HistoryFromGenesis(e.chainA, HashOf(e.witnessA.block0));
    HistoryFromGenesis(e.chainB, HashOf(e.witnessB.block0));
    if IsHistory(e.chainA, HashOf(e.witnessA.block0)) && IsHistory(e.chainB, HashOf(e.witnessB.block0)) {
      ListedIffAncestor(e.chainA, HashOf(e.witnessA.block0), e.witnessB.block0);
      ListedIffAncestor(e.chainB, HashOf(e.witnessB.block0), e.witnessA.block0);
    }
  }

  lemma HistoryFromGenesis(chain: seq<Block>, tip: Hash)
    requires tip.HashOf?
    ensures ValidChainFromGenesis(chain, tip) <==> IsHistory(chain, tip) && IsAncestor(GENESIS, tip)
  {
    HistoryIff(chain, tip);
    if IsHistory(chain, tip) && IsAncestor(GENESIS, tip) {
      GenesisIsSecond(tip);
    }
  }

  lemma GenesisIsSecond(tip: Hash)
    requires IsAncestor(GENESIS, tip)
    ensures |Path(tip)| >= 2 && Path(tip)[0] == NO_PARENT && Path(tip)[1] == GENESIS
  {
    AncestorPrefix(GENESIS, tip);
    assert Path(NO_PARENT) == [NO_PARENT];
    assert Path(GENESIS) == [NO_PARENT, GENESIS];
  }

  lemma CulpritIff(e: ConflictEvidence, i: int)
    ensures i in Culprits(e) <==> i in e.witnessA.qc0.signers && i in e.witnessB.qc0.signers
  {
  }

  // --- The monitor ---

  ghost predicate Genuine(n: nat, v: Vote) {
    SignedBy(n, v.voter, v.sig, VoteMessage(v.view, v.hash))
  }

  /** Genuine votes of i for two blocks in one view. */
  ghost predicate TwoVotes(n: nat, a: Vote, b: Vote, i: int) {
    a.voter == b.voter == i && a.view == b.view && a.hash != b.hash && Genuine(n, a) && Genuine(n, b)
  }

  ghost predicate VotedTwice(n: nat, votes: seq<Vote>, i: int) {
    exists a, b :: a in votes && b in votes && TwoVotes(n, a, b, i)
  }

  lemma VotedTwiceIff(c: Committee, votes: seq<Vote>, i: int)
    ensures Equivocates(c, votes, i) <==> VotedTwice(c.n, votes, i)
  {
    forall a, b ensures Conflicting(c, a, b) && a.voter == i <==> TwoVotes(c.n, a, b, i) {
    }
  }

  lemma EquivocationIff(e: Evidence, c: Committee)
    requires e.Equivocation?
    ensures EquivocationVerifies(e, c) <==>
      TwoVotes(c.n, e.voteA, e.voteB, e.validator) && e.voteA.view == e.view
  {
  }

  /** The first genuine vote of its voter in its view. */
  ghost predicate Earliest(n: nat, votes: seq<Vote>, v: Vote) {
    exists i :: 0 <= i < |votes| && votes[i] == v && FirstAt(n, votes, i)
  }

  ghost predicate FirstAt(n: nat, votes: seq<Vote>, i: int)
    requires 0 <= i < |votes|
  {
    forall j :: 0 <= j < i && Genuine(n, votes[j]) ==>
      votes[j].voter != votes[i].voter || votes[j].view != votes[i].view
  }

  lemma EarliestStays(n: nat, votes: seq<Vote>, last: Vote, v: Vote)
    requires Earliest(n, votes, v)
    ensures Earliest(n, votes + [last], v)
  {
    var i :| 0 <= i < |votes| && votes[i] == v && FirstAt(n, votes, i);
    assert (votes + [last])[i] == v && FirstAt(n, votes + [last], i);
  }

  lemma {:induction false} FirstsAreEarliest(c: Committee, votes: seq<Vote>)
    ensures forall key :: key in ObserveAll(c, votes).firstVote ==>
      Earliest(c.n, votes, ObserveAll(c, votes).firstVote[key])
  {
    if votes != [] {
      var rest, v := votes[..|votes| - 1], votes[|votes| - 1];
      assert votes == rest + [v];
      FirstsAreEarliest(c, rest);
      FirstVotes(c, rest);
      var before, after := ObserveAll(c, rest), ObserveAll(c, votes);
      forall key | key in after.firstVote ensures Earliest(c.n, votes, after.firstVote[key]) {
        if key in before.firstVote {
          EarliestStays(c.n, rest, v, before.firstVote[key]);
        } else {
          NewIsEarliest(c, rest, v, before);
        }
      }
    }
  }

  lemma NewIsEarliest(c: Committee, rest: seq<Vote>, v: Vote, m: MonitorState)
    requires FirstVotesInv(c, rest, m) && (v.voter, v.view) !in m.firstVote
    ensures Earliest(c.n, rest + [v], v)
  {
    var votes := rest + [v];
    forall j | 0 <= j < |rest| && Genuine(c.n, votes[j]) ensures votes[j].voter != v.voter || votes[j].view != v.view {
      assert rest[j] in rest && VoteVerifies(rest[j], c);
    }
    assert votes[|rest|] == v && FirstAt(c.n, votes, |rest|);
  }

  /** The monitor reports a vote exactly when it is the one that makes its voter guilty, and then reports two votes
      that prove it: this one, and the first its voter gave in the view. */
  lemma ReportIff(c: Committee, votes: seq<Vote>, v: Vote)
    ensures var report := Observe(c, ObserveAll(c, votes), v).1;
      && (report.Some? <==> VotedTwice(c.n, votes + [v], v.voter) && !VotedTwice(c.n, votes, v.voter))
      && (report.Some? ==>
            && report.value.Equivocation? && report.value.validator == v.voter && report.value.view == v.view
            && report.value.voteB == v && Earliest(c.n, votes, report.value.voteA)
            && TwoVotes(c.n, report.value.voteA, v, v.voter))
  {
    var m := ObserveAll(c, votes);
    VotedTwiceIff(c, votes, v.voter);
    VotedTwiceIff(c, votes + [v], v.voter);
    MonitorExact(c, votes);
    FirstVotes(c, votes);
    FirstsAreEarliest(c, votes);
    NewConflict(c, votes, v, m, v.voter);
  }

  /** The validators on the monitor's record are exactly those that voted twice. */
  lemma RecordIff(c: Committee, votes: seq<Vote>, i: int)
    ensures i in ObserveAll(c, votes).evidence <==> VotedTwice(c.n, votes, i)
  {
    MonitorExact(c, votes);
    VotedTwiceIff(c, votes, i);
  }
}
