/** The replica as an object that updates its fields, method by method as the source does; each method is
    proved against the transition function of the same name in `ReplicaLogic`. */
module BftReplicaObject {
  import opened Wrappers
  import opened HotStuffTypes
  import opened SetFacts
  import RL = ReplicaLogic

  function Reversed<T>(s: seq<T>): (r: seq<T>)
    ensures |r| == |s| && forall i :: 0 <= i < |s| ==> r[i] == s[|s| - 1 - i]
  {
    if s == [] then [] else [s[|s| - 1]] + Reversed(s[..|s| - 1])
  }

  class BftReplica {
    const myIndex: int
    const committee: Committee
    var blocks: RL.BlockStore
    var highQc: QC
    var lockedQc: QC
    var currentView: int
    var committed: seq<Hash>
    var pendingVotes: map<(Hash, int), map<int, Sig>>
    var pendingNewViews: map<int, seq<NewViewMsg>>
    var votedViews: map<int, Hash>

    ghost predicate Valid() {
      committee.Valid()
    }

    function State(): RL.Replica
      reads this
    {
      RL.Replica(myIndex, committee, blocks, highQc, lockedQc, currentView, committed, pendingVotes, pendingNewViews,
                 votedViews)
    }

    constructor (myIndex: int, committee: Committee)
      requires committee.Valid()
      ensures Valid() && State() == RL.Initial(myIndex, committee)
    {
      this.myIndex, this.committee := myIndex, committee;
      blocks := map[GENESIS := GENESIS_BLOCK];
      highQc, lockedQc := GENESIS_QC, GENESIS_QC;
      currentView, committed := 1, [GENESIS];
      pendingVotes, pendingNewViews, votedViews := map[], map[], map[];
    }

    method Propose(payload: Payload) returns (b: Block)
      ensures b == RL.Propose(State(), payload)
      ensures committee.Valid() ==>
        (RL.RightfulProposer(committee, b) <==> myIndex == committee.LeaderForView(currentView))
      ensures committee.Valid() ==>
        (RL.JustifyHolds(committee, b) <==> highQc.hash == GENESIS || Verifies(highQc, committee))
    {
      if committee.Valid() {
        RL.ProposalChecks(State(), payload);
      }
      b := Block(currentView, highQc.hash, payload, Some(myIndex), Some(highQc));
    }

    /** The bounded walk towards the root. */
    method Extends(blockHash: Hash, ancestor: Hash) returns (r: bool)
      ensures r == RL.WalkFinds(blocks, blockHash, ancestor, RL.MAX_STEPS)
    {
      var h, steps := blockHash, 0;
      while h in blocks && steps < RL.MAX_STEPS
        invariant 0 <= steps <= RL.MAX_STEPS
        invariant RL.WalkFinds(blocks, blockHash, ancestor, RL.MAX_STEPS)
          == RL.WalkFinds(blocks, h, ancestor, RL.MAX_STEPS - steps)
      {
        if h == ancestor {
          return true;
        }
        h := blocks[h].parent;
        steps := steps + 1;
      }
      return h == ancestor;
    }

    method SafeToVote(b: Block, justify: QC) returns (r: bool)
      ensures r == RL.SafeToVote(State(), b, justify)
    {
      var extendsLocked := HashOf(b) == lockedQc.hash;
      if !extendsLocked {
        extendsLocked := Extends(b.parent, lockedQc.hash);
      }
      r := extendsLocked || justify.view > lockedQc.view;
    }

    method OnReceiveProposal(b: Block) returns (vote: Option<Vote>)
      requires Valid()
      modifies this
      ensures Valid() && (State(), vote) == RL.OnProposal(old(State()), b)
    {
      if b.view != currentView {
        return None;
      }
      if b.view in votedViews && votedViews[b.view] != HashOf(b) {
        return None;
      }
      var proposer := committee.IndexOf(b.proposer);
      if proposer.None? || committee.LeaderForView(b.view) != proposer.value {
        return None;
      }
      if b.parent !in blocks {
        return None;
      }
      if b.justify.None? || b.justify.value.hash != b.parent {
        return None;
      }
      var justify := b.justify.value;
      if justify.hash != GENESIS && !Verifies(justify, committee) {
        return None;
      }
      var safe := SafeToVote(b, justify);
      if !safe {
        return None;
      }
      blocks := blocks[HashOf(b) := b];
      ApplyQc(justify);
      votedViews := votedViews[b.view := HashOf(b)];
      return Some(Vote(HashOf(b), b.view, myIndex, Sig(myIndex, VoteMessage(b.view, HashOf(b)))));
    }

    method TryImportBlock(b: Block) returns (ok: bool)
      requires Valid()
      modifies this
      ensures Valid() && (State(), ok) == RL.Import(old(State()), b)
    {
      if HashOf(b) in blocks {
        return true;
      }
      if b.parent !in blocks {
        return false;
      }
      var proposer := committee.IndexOf(b.proposer);
      if proposer.None? || committee.LeaderForView(b.view) != proposer.value {
        return false;
      }
      if b.justify.None? || b.justify.value.hash != b.parent {
        return false;
      }
      var justify := b.justify.value;
      if justify.hash != GENESIS && !Verifies(justify, committee) {
        return false;
      }
      blocks := blocks[HashOf(b) := b];
      ApplyQc(justify);
      return true;
    }

    method ApplyQc(qc: QC)
      modifies this`highQc, this`lockedQc, this`committed
      ensures State() == RL.ApplyQc(old(State()), qc)
    {
      if qc.view > highQc.view {
        highQc := qc;
      }
      TryAdvanceLockAndCommit(qc);
    }

    method TryAdvanceLockAndCommit(justify: QC)
      modifies this`lockedQc, this`committed
      ensures lockedQc == if justify.view > old(lockedQc).view then justify else old(lockedQc)
      ensures committed == RL.AfterCommit(blocks, old(committed), justify)
    {
      if justify.view > lockedQc.view {
        lockedQc := justify;
      }
      if justify.hash !in blocks || blocks[justify.hash].justify.None? {
        return;
      }
      var b2 := blocks[justify.hash];
      var qc1 := b2.justify.value;
      if qc1.hash !in blocks || blocks[qc1.hash].justify.None? {
        return;
      }
      var b1 := blocks[qc1.hash];
      var qc0 := b1.justify.value;
      if qc0.hash !in blocks {
        return;
      }
      var b0 := blocks[qc0.hash];
      var consecutive := b1.view == b0.view + 1 && b2.view == b1.view + 1 && justify.view == b2.view;
      if consecutive && HashOf(b0) !in committed {
        CommitChainUpTo(HashOf(b0));
      }
    }

    /** Walks back to the last committed ancestor, then appends what it passed, oldest first.  The walk ends
        because a block's hash determines its parent. */
    method CommitChainUpTo(blockHash: Hash)
      modifies this`committed
      ensures committed == old(committed) + RL.Uncommitted(blocks, old(committed), blockHash)
    {
      var chain: seq<Hash> := [];
      var h := blockHash;
      while h !in committed && h in blocks
        invariant committed == old(committed)
        invariant RL.Uncommitted(blocks, committed, blockHash) == RL.Uncommitted(blocks, committed, h) + Reversed(chain)
        decreases h
      {
        assert h == HashOf(blocks[h]);
        ghost var earlier := chain;
        chain := chain + [h];
        assert chain[..|chain| - 1] == earlier;
        h := blocks[h].parent;
      }
      ghost var found := Reversed(chain);
      var k := |chain|;
      while k > 0
        invariant 0 <= k <= |chain|
        invariant committed == old(committed) + found[..|chain| - k]
      {
        k := k - 1;
        committed := committed + [chain[k]];
      }
    }

    method OnReceiveVote(v: Vote) returns (formed: Option<QC>)
      requires Valid()
      modifies this
      ensures Valid() && (State(), formed) == RL.OnVote(old(State()), v)
    {
      if !VoteVerifies(v, committee) {
        return None;
      }
      var key := (v.hash, v.view);
      var bucket := if key in pendingVotes then pendingVotes[key] else map[];
      bucket := bucket[v.voter := v.sig];
      pendingVotes := pendingVotes[key := bucket];
      if |bucket| < committee.QuorumSize() {
        return None;
      }
      var signers := Sorted(bucket.Keys);
      var qc := QC(v.hash, v.view, signers, Agg(RL.SigsAt(bucket, signers)));
      pendingVotes := pendingVotes - {key};
      assert pendingVotes == old(pendingVotes) - {key};
      ApplyQc(qc);
      return Some(qc);
    }

    method OnReceiveNewView(m: NewViewMsg) returns (adopted: bool)
      requires Valid()
      modifies this
      ensures Valid() && (State(), adopted) == RL.OnNewView(old(State()), m)
    {
      if !NewViewVerifies(m, committee) {
        return false;
      }
      var bucket := RL.PutBySender(if m.view in pendingNewViews then pendingNewViews[m.view] else [], m);
      pendingNewViews := pendingNewViews[m.view := bucket];
      if |bucket| < committee.QuorumSize() {
        return false;
      }
      pendingNewViews := pendingNewViews - {m.view};
      assert pendingNewViews == old(pendingNewViews) - {m.view};
      var valid := ValidQcs(bucket);
      if valid == [] {
        return false;
      }
      ApplyQc(RL.BestQc(valid));
      return true;
    }

    method ValidQcs(bucket: seq<NewViewMsg>) returns (valid: seq<QC>)
      requires Valid()
      ensures valid == RL.UsableQcs(committee, bucket)
    {
      valid := [];
      var k := 0;
      while k < |bucket|
        invariant 0 <= k <= |bucket|
        invariant valid + RL.UsableQcs(committee, bucket[k..]) == RL.UsableQcs(committee, bucket)
      {
        var qc := bucket[k].highQc;
        assert bucket[k..][1..] == bucket[k + 1..];
        if qc.hash == GENESIS || Verifies(qc, committee) {
          valid := valid + [qc];
        }
        k := k + 1;
      }
    }

    method MaybeAdvanceView(timedOut: bool) returns (advanced: bool)
      modifies this`currentView
      ensures State() == RL.MaybeAdvance(old(State()), timedOut) && advanced == timedOut
    {
      if timedOut {
        currentView := currentView + 1;
        return true;
      }
      return false;
    }

    method AdvanceToView(view: int)
      modifies this`currentView
      ensures State() == RL.AdvanceTo(old(State()), view)
    {
      if view > currentView {
        currentView := view;
      }
    }

    method MakeNewView() returns (m: NewViewMsg)
      ensures m == RL.MakeNewView(State())
      ensures NewViewVerifies(m, committee) <==> 0 <= myIndex < committee.n
    {
      m := NewViewMsg(currentView, highQc, myIndex, Sig(myIndex, NewViewMessage(currentView, highQc.hash, highQc.view)));
    }
  }
}
