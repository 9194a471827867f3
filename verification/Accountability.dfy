/** Evidence of misbehaviour: conflicting commits, equivocation, and the monitor that collects it. */
module Accountability {
  import opened Wrappers
  import opened HotStuffTypes
  import opened SetFacts
  import opened Quorums
  import opened VoteLog
  import opened ReplicaSystem
  import opened Agreement

  // --- Conflicting commits ---

  datatype ThreeChainWitness = ThreeChainWitness(qc0: QC, block0: Block, qc1: QC, block1: Block, qc2: QC, block2: Block)

  predicate Certifies(qc: QC, b: Block) {
    qc.hash == HashOf(b) && qc.view == b.view
  }

  predicate ExtendsJustified(child: Block, b: Block) {
    && child.parent == HashOf(b)
    && child.justify.Some?
    && Certifies(child.justify.value, b)
  }

  predicate WitnessVerifies(w: ThreeChainWitness, c: Committee)
    requires c.Valid()
  {
    && Verifies(w.qc0, c) && Verifies(w.qc1, c) && Verifies(w.qc2, c)
    && Certifies(w.qc0, w.block0) && Certifies(w.qc1, w.block1) && Certifies(w.qc2, w.block2)
    && ExtendsJustified(w.block1, w.block0)
    && ExtendsJustified(w.block2, w.block1)
    && w.block1.view == w.block0.view + 1 && w.block2.view == w.block1.view + 1
  }

  /** `_valid_chain_from_genesis` */
  predicate ValidChainFromGenesis(chain: seq<Block>, tip: Hash) {
    && chain != []
    && HashOf(chain[0]) == GENESIS
    && (forall i :: 1 <= i < |chain| ==> chain[i].parent == HashOf(chain[i - 1]))
    && HashOf(chain[|chain| - 1]) == tip
  }

  datatype ConflictEvidence =
    ConflictEvidence(witnessA: ThreeChainWitness, chainA: seq<Block>, witnessB: ThreeChainWitness, chainB: seq<Block>)

  predicate ConflictVerifies(e: ConflictEvidence, c: Committee)
    requires c.Valid()
  {
    && WitnessVerifies(e.witnessA, c) && WitnessVerifies(e.witnessB, c)
    && e.witnessA.block0 != e.witnessB.block0
    && ValidChainFromGenesis(e.chainA, HashOf(e.witnessA.block0))
    && ValidChainFromGenesis(e.chainB, HashOf(e.witnessB.block0))
    && e.witnessA.block0 !in e.chainB
    && e.witnessB.block0 !in e.chainA
  }

  function Culprits(e: ConflictEvidence): set<int> {
    (set i | i in e.witnessA.qc0.signers) * (set i | i in e.witnessB.qc0.signers)
  }

  /** Whoever produced the evidence, no signature in it is forged and its positions are in range. */
  ghost predicate WitnessDeliverable(s: Setting, log: Log, w: ThreeChainWitness) {
    QcDeliverable(s, log, w.qc0) && QcDeliverable(s, log, w.qc1) && QcDeliverable(s, log, w.qc2)
  }

  /** A claimed chain from genesis is the history of its tip. */
  lemma {:induction false} ChainIsHistory(chain: seq<Block>, tip: Hash)
    requires ValidChainFromGenesis(chain, tip)
    ensures |Path(tip)| == |chain| + 1
    ensures forall i :: 0 <= i < |chain| ==> Path(tip)[i + 1] == HashOf(chain[i])
  {
    if |chain| == 1 {
      assert Path(NO_PARENT) == [NO_PARENT];
      assert Path(GENESIS) == [NO_PARENT, GENESIS];
    } else {
      var rest := chain[..|chain| - 1];
      ChainIsHistory(rest, HashOf(rest[|rest| - 1]));
      assert Path(tip) == Path(HashOf(rest[|rest| - 1])) + [tip];
    }
  }

  lemma WitnessIsTwoChain(s: Setting, log: Log, w: ThreeChainWitness)
    requires s.Valid() && LogInv(s, log) && WitnessDeliverable(s, log, w) && WitnessVerifies(w, s.c)
    ensures TwoChain(s, log, HashOf(w.block0))
  {
    VerifiedIsCertified(s, log, w.qc1);
    assert Supports(s, log, HashOf(w.block0), w.block1);
  }

  lemma CommittedAncestorListed(s: Setting, log: Log, a: Block, b: Block, chainB: seq<Block>)
    requires s.Valid() && LogInv(s, log) && TwoChain(s, log, HashOf(a)) && TwoChain(s, log, HashOf(b))
    requires ValidChainFromGenesis(chainB, HashOf(b)) && a.view <= b.view
    ensures a in chainB
  {
    TwoChainsAgree(s, log, HashOf(a), HashOf(b));
    ChainIsHistory(chainB, HashOf(b));
    var k := |Path(HashOf(a))| - 1;
    assert Path(HashOf(b))[k] == HashOf(a);
    assert HashOf(chainB[k - 1]) == HashOf(a);
  }

  lemma NoConflictBelowBound(s: Setting, log: Log, e: ConflictEvidence)
    requires s.Valid() && LogInv(s, log)
    requires WitnessDeliverable(s, log, e.witnessA) && WitnessDeliverable(s, log, e.witnessB)
    ensures !ConflictVerifies(e, s.c)
  {
    if ConflictVerifies(e, s.c) {
      WitnessIsTwoChain(s, log, e.witnessA);
      WitnessIsTwoChain(s, log, e.witnessB);
      if e.witnessA.block0.view <= e.witnessB.block0.view {
        CommittedAncestorListed(s, log, e.witnessA.block0, e.witnessB.block0, e.chainB);
      } else {
        CommittedAncestorListed(s, log, e.witnessB.block0, e.witnessA.block0, e.chainA);
      }
      assert false;
    }
  }

  /** In any run, with any number of Byzantine validators, evidence of conflicting commits verifies only if
      more than f of them are Byzantine. */
  lemma VerifiedConflictMeansTooManyFaults(s: Setting, states: seq<Sys>, steps: seq<Step>, k: nat, e: ConflictEvidence)
    requires s.c.Valid() && ExactSize(s.c) && s.byz <= Indices(s.c.n)
    requires Run(s, states, steps) && k < |states|
    requires WitnessDeliverable(s, states[k].log, e.witnessA) && WitnessDeliverable(s, states[k].log, e.witnessB)
    requires ConflictVerifies(e, s.c)
    ensures |s.byz| > s.c.F()
  {
    if |s.byz| <= s.c.F() {
      RunInv(s, states, steps, k);
      NoConflictBelowBound(s, states[k].log, e);
    }
  }

  /** Positions in range are the validators themselves. */
  lemma {:induction false} InRangeValidators(c: Committee, signers: seq<int>)
    requires InRange(c, signers)
    ensures Validators(c, signers) == set i | i in signers
  {
    if signers != [] {
      var rest := signers[1..];
      assert forall i :: 0 <= i < |rest| ==> rest[i] == signers[i + 1];
      InRangeValidators(c, rest);
      assert c.KeyAt(signers[0]) == Some(signers[0]);
      assert signers == [signers[0]] + rest;
    }
  }

  /** Verified evidence names at least f+1 validators that signed for both committed blocks. */
  lemma CulpritsExceedBound(c: Committee, e: ConflictEvidence)
    requires c.Valid() && ExactSize(c) && ConflictVerifies(e, c)
    requires InRange(c, e.witnessA.qc0.signers) && InRange(c, e.witnessB.qc0.signers)
    ensures |Culprits(e)| > c.F() && Culprits(e) <= Indices(c.n)
  {
    var a, b := e.witnessA.qc0, e.witnessB.qc0;
    InRangeSignersAreQuorum(a, c);
    InRangeSignersAreQuorum(b, c);
    InRangeValidators(c, a.signers);
    InRangeValidators(c, b.signers);
    QuorumsOverlapIffExactSize(c);
    assert Culprits(e) == Validators(c, a.signers) * Validators(c, b.signers);
  }

  // --- Equivocation ---

  datatype Evidence =
    | Equivocation(validator: int, view: int, voteA: Vote, voteB: Vote)
    | ConflictingCommits(conflict: ConflictEvidence)

  predicate EquivocationVerifies(e: Evidence, c: Committee)
    requires e.Equivocation?
  {
    && e.voteA.voter == e.voteB.voter == e.validator
    && e.voteA.view == e.voteB.view == e.view
    && e.voteA.hash != e.voteB.hash
    && VoteVerifies(e.voteA, c) && VoteVerifies(e.voteB, c)
  }

  datatype MonitorState = MonitorState(firstVote: map<(int, int), Vote>, evidence: map<int, Evidence>)

  const NOTHING_SEEN := MonitorState(map[], map[])

  function Observe(c: Committee, m: MonitorState, v: Vote): (MonitorState, Option<Evidence>) {
    var key := (v.voter, v.view);
    if !VoteVerifies(v, c) then (m, None)
    else if key !in m.firstVote then (m.(firstVote := m.firstVote[key := v]), None)
    else if m.firstVote[key].hash == v.hash || v.voter in m.evidence then (m, None)
    else
      var e := Equivocation(v.voter, v.view, m.firstVote[key], v);
      (m.(evidence := m.evidence[v.voter := e]), Some(e))
  }

  /** The monitor after a stream of votes, the last of which is the newest. */
  function ObserveAll(c: Committee, votes: seq<Vote>): MonitorState {
    if votes == [] then NOTHING_SEEN
    else Observe(c, ObserveAll(c, votes[..|votes| - 1]), votes[|votes| - 1]).0
  }

  /** i cast two verified votes for different blocks in one view. */
  ghost predicate Equivocates(c: Committee, votes: seq<Vote>, i: int) {
    exists a, b :: a in votes && b in votes && Conflicting(c, a, b) && a.voter == i
  }

  predicate Conflicting(c: Committee, a: Vote, b: Vote) {
    a.voter == b.voter && a.view == b.view && a.hash != b.hash && VoteVerifies(a, c) && VoteVerifies(b, c)
  }

  ghost predicate FirstVotesInv(c: Committee, votes: seq<Vote>, m: MonitorState) {
    && (forall v :: v in votes && VoteVerifies(v, c) ==> (v.voter, v.view) in m.firstVote)
    && forall key :: key in m.firstVote ==>
         var v := m.firstVote[key]; v in votes && VoteVerifies(v, c) && v.voter == key.0 && v.view == key.1
  }

  lemma {:induction false} FirstVotes(c: Committee, votes: seq<Vote>)
    ensures FirstVotesInv(c, votes, ObserveAll(c, votes))
  {
    if votes != [] {
      var rest := votes[..|votes| - 1];
      FirstVotes(c, rest);
      assert votes == rest + [votes[|votes| - 1]];
    }
  }

  /** The monitor catches exactly the validators that equivocate, and all its evidence verifies. */
  lemma {:induction false} MonitorExact(c: Committee, votes: seq<Vote>)
    ensures forall i :: i in ObserveAll(c, votes).evidence <==> Equivocates(c, votes, i)
    ensures forall i :: i in ObserveAll(c, votes).evidence ==>
      var e := ObserveAll(c, votes).evidence[i]; e.Equivocation? && e.validator == i && EquivocationVerifies(e, c)
  {
    if votes != [] {
      var rest, v := votes[..|votes| - 1], votes[|votes| - 1];
      assert votes == rest + [v];
      MonitorExact(c, rest);
      FirstVotes(c, rest);
      var before := ObserveAll(c, rest);
      forall i ensures i in ObserveAll(c, votes).evidence <==> Equivocates(c, votes, i) {
        if Equivocates(c, rest, i) {
          var a, b :| a in rest && b in rest && Conflicting(c, a, b) && a.voter == i;
          assert a in votes && b in votes;
        }
        NewConflict(c, rest, v, before, i);
      }
    }
  }

  /** One more vote makes i an equivocator exactly when it contradicts the first vote on record. */
  lemma NewConflict(c: Committee, rest: seq<Vote>, v: Vote, m: MonitorState, i: int)
    requires FirstVotesInv(c, rest, m)
    ensures Equivocates(c, rest + [v], i) <==>
      || Equivocates(c, rest, i)
      || (i == v.voter && VoteVerifies(v, c) && (i, v.view) in m.firstVote && m.firstVote[(i, v.view)].hash != v.hash)
  {
    var key := (v.voter, v.view);
    if Equivocates(c, rest + [v], i) {
      var a, b :| a in rest + [v] && b in rest + [v] && Conflicting(c, a, b) && a.voter == i;
      if VoteVerifies(v, c) && key in m.firstVote && m.firstVote[key].hash == v.hash {
        assert m.firstVote[key] == v;
      }
    }
    if Equivocates(c, rest, i) {
      var a, b :| a in rest && b in rest && Conflicting(c, a, b) && a.voter == i;
      assert a in rest + [v] && b in rest + [v];
    }
    if i == v.voter && VoteVerifies(v, c) && key in m.firstVote && m.firstVote[key].hash != v.hash {
      assert Conflicting(c, m.firstVote[key], v);
      assert m.firstVote[key] in rest + [v] && v in rest + [v];
    }
  }

  /** Who is caught does not depend on the order, or the repetition, of the votes. */
  lemma CaughtIndependentOfOrder(c: Committee, votes: seq<Vote>, shuffled: seq<Vote>)
    requires forall v :: v in votes <==> v in shuffled
    ensures ObserveAll(c, votes).evidence.Keys == ObserveAll(c, shuffled).evidence.Keys
  {
    MonitorExact(c, votes);
    MonitorExact(c, shuffled);
    forall i ensures i in ObserveAll(c, votes).evidence <==> i in ObserveAll(c, shuffled).evidence {
      if Equivocates(c, votes, i) {
        var a, b :| a in votes && b in votes && Conflicting(c, a, b) && a.voter == i;
        assert a in shuffled && b in shuffled;
      }
      if Equivocates(c, shuffled, i) {
        var a, b :| a in shuffled && b in shuffled && Conflicting(c, a, b) && a.voter == i;
        assert a in votes && b in votes;
      }
    }
  }

  lemma UnforgedVotesAgree(s: Setting, states: seq<Sys>, steps: seq<Step>, k: nat, a: Vote, b: Vote)
    requires s.c.Valid() && Run(s, states, steps) && k < |states| && s.Honest(a.voter)
    requires VoteDeliverable(s, states[k].log, a) && VoteDeliverable(s, states[k].log, b)
    ensures !Conflicting(s.c, a, b)
  {
    if a.voter == b.voter && a.view == b.view && VoteVerifies(a, s.c) && VoteVerifies(b, s.c) {
      HonestVotesOnce(s, states, steps, k, a.voter, a.hash, b.hash, a.view);
    }
  }

  /** No honest replica is ever caught, whatever unforged votes the monitor sees in whatever order, and however
      many validators are Byzantine. */
  lemma HonestNeverCaught(s: Setting, states: seq<Sys>, steps: seq<Step>, k: nat, votes: seq<Vote>, i: int)
    requires s.c.Valid() && Run(s, states, steps) && k < |states| && s.Honest(i)
    requires forall v :: v in votes ==> VoteDeliverable(s, states[k].log, v)
    ensures i !in ObserveAll(s.c, votes).evidence
  {
    MonitorExact(s.c, votes);
    if Equivocates(s.c, votes, i) {
      var a, b :| a in votes && b in votes && Conflicting(s.c, a, b) && a.voter == i;
      UnforgedVotesAgree(s, states, steps, k, a, b);
      assert false;
    }
  }
}

/** The monitor as the object that watches the wire. */
module AccountabilityMonitorObject {
  import opened Wrappers
  import opened HotStuffTypes
  import SF = SetFacts
  import A = Accountability

  /** The first evidence against a validator is kept; `added` names the newly recorded culprits. */
  ghost predicate Recorded(before: map<int, A.Evidence>, after: map<int, A.Evidence>, culprits: set<int>,
                           e: A.ConflictEvidence, added: seq<int>) {
    && (forall i :: i in added <==> i in culprits && i !in before)
    && after.Keys == before.Keys + culprits
    && forall i :: i in after ==> after[i] == if i in before then before[i] else A.ConflictingCommits(e)
  }

  lemma RecordOne(before: map<int, A.Evidence>, mid: map<int, A.Evidence>, done: set<int>, e: A.ConflictEvidence,
                  added: seq<int>, i: int)
    requires Recorded(before, mid, done, e, added)
    ensures i in mid ==> Recorded(before, mid, done + {i}, e, added)
    ensures i !in mid ==> Recorded(before, mid[i := A.ConflictingCommits(e)], done + {i}, e, added + [i])
  {
    if i in mid && i !in before {
      assert i in done;
    }
  }

  /** The culprits are recorded in increasing order. */
  ghost predicate Ascending(added: seq<int>, rest: set<int>) {
    SF.Increasing(added) && forall i, k :: 0 <= i < |added| && k in rest ==> added[i] < k
  }

  lemma AscendOne(added: seq<int>, rest: set<int>, i: int)
    requires Ascending(added, rest) && i in rest && forall k :: k in rest ==> i <= k
    ensures Ascending(added, rest - {i}) && Ascending(added + [i], rest - {i})
  {
  }

  class AccountabilityMonitor {
    const committee: Committee
    var firstVote: map<(int, int), Vote>
    var evidence: map<int, A.Evidence>
    ghost var seen: seq<Vote>

    ghost predicate Valid()
      reads this
    {
      committee.Valid()
    }

    /** True while votes are all the monitor has been fed. */
    ghost predicate OnlyObserved()
      reads this
    {
      State() == A.ObserveAll(committee, seen)
    }

    function State(): A.MonitorState
      reads this
    {
      A.MonitorState(firstVote, evidence)
    }

    constructor (committee: Committee)
      requires committee.Valid()
      ensures Valid() && OnlyObserved() && seen == [] && this.committee == committee
    {
      this.committee := committee;
      firstVote, evidence, seen := map[], map[], [];
    }

    method Observe(v: Vote) returns (caught: Option<A.Evidence>)
      requires Valid()
      modifies this
      ensures Valid() && seen == old(seen) + [v]
      ensures (State(), caught) == A.Observe(committee, old(State()), v)
      ensures old(OnlyObserved()) ==> OnlyObserved()
    {
      seen := seen + [v];
      assert seen[..|seen| - 1] == old(seen);
      if !VoteVerifies(v, committee) {
        return None;
      }
      var key := (v.voter, v.view);
      if key !in firstVote {
        firstVote := firstVote[key := v];
        return None;
      }
      var prior := firstVote[key];
      if prior.hash == v.hash {
        return None;
      }
      if v.voter in evidence {
        return None;
      }
      var e := A.Equivocation(v.voter, v.view, prior, v);
      evidence := evidence[v.voter := e];
      return Some(e);
    }

    /** Records every culprit of verified evidence that is not on record yet, and names those. */
    method SubmitConflictingCommits(e: A.ConflictEvidence) returns (added: seq<int>)
      requires Valid()
      modifies this`evidence
      ensures Valid()
      ensures !A.ConflictVerifies(e, committee) ==> added == [] && evidence == old(evidence)
      ensures A.ConflictVerifies(e, committee) ==> Recorded(old(evidence), evidence, A.Culprits(e), e, added)
      ensures SF.Increasing(added)
    {
      if !A.ConflictVerifies(e, committee) {
        return [];
      }
      added := RecordAll(A.Culprits(e), e);
    }

    method RecordAll(culprits: set<int>, e: A.ConflictEvidence) returns (added: seq<int>)
      modifies this`evidence
      ensures Recorded(old(evidence), evidence, culprits, e, added)
      ensures SF.Increasing(added)
    {
      added := [];
      var rest := culprits;
      while rest != {}
        invariant rest <= culprits
        invariant Recorded(old(evidence), evidence, culprits - rest, e, added)
        invariant Ascending(added, rest)
        decreases |rest|
      {
        var i := SF.Least(rest);
        RecordOne(old(evidence), evidence, culprits - rest, e, added, i);
        AscendOne(added, rest, i);
        if i !in evidence {
          evidence := evidence[i := A.ConflictingCommits(e)];
          added := added + [i];
        }
        assert culprits - (rest - {i}) == culprits - rest + {i};
        rest := rest - {i};
      }
      assert culprits - rest == culprits;
    }
  }
}
