/** The finality gadget: it drives a committee of replica objects through honest views until a checkpoint of the
    chain is committed, then records the checkpoint on the chain. */
module FinalityGadget {
  import opened Wrappers
  import opened HotStuffTypes
  import opened HonestRounds
  import opened HonestRuns
  import RL = ReplicaLogic
  import L = LedgerTypes
  import opened BftReplicaObject
  import opened BlockchainObject
  import ChainNode

  class BftFinalityGadget {
    const chain: Blockchain
    const committee: Committee
    const replicas: seq<BftReplica>
    var view: int
    ghost var trail: Trail
    ghost const ready: HonestRuns.State
    ghost const honest: Link

    ghost function States(): (r: seq<RL.Replica>)
      reads replicas
      ensures |r| == |replicas| && forall i :: 0 <= i < |r| ==> r[i] == replicas[i].State()
    {
      seq(|replicas|, i requires 0 <= i < |replicas| reads replicas => replicas[i].State())
    }

    /** One object per committee member. */
    ghost predicate Wired() {
      && committee.Valid() && |replicas| == committee.n
      && (forall i, j :: 0 <= i < j < |replicas| ==> replicas[i] != replicas[j])
      && forall i :: 0 <= i < |replicas| ==> replicas[i].committee == committee && replicas[i].myIndex == i
    }

    /** `honest` holds of every honest view; nothing else about it is used here. */
    ghost predicate CoversHonestViews(c: Committee, link: Link) {
      forall rs: seq<RL.Replica>, w: int, payload: Payload, after: seq<RL.Replica>, tip: Hash
        {:trigger Linked(c, rs, w, payload, after, tip)} ::
        Linked(c, rs, w, payload, after, tip) ==> link(rs, w, payload, after, tip)
    }

    /** The views so far were honest ones, in order, from a committee that was ready for view 1. */
    ghost predicate Valid()
      reads this, replicas
    {
      && Wired()
      && CoversHonestViews(committee, honest) && Progresses(ready, honest)
      && Steps(honest, 1, trail) && ready(1, Ago(trail, Views(trail)).rs, Ago(trail, Views(trail)).tip)
      && view == 1 + Views(trail) && States() == trail.rs
    }

    constructor (chain: Blockchain, committee: Committee)
      requires committee.Valid()
      ensures Valid() && fresh(replicas) && this.chain == chain && this.committee == committee
    {
      var made: seq<BftReplica> := [];
      while |made| < committee.n
        invariant |made| <= committee.n && fresh(made)
        invariant forall i, j :: 0 <= i < j < |made| ==> made[i] != made[j]
        invariant forall i :: 0 <= i < |made| ==> made[i].State() == RL.Initial(i, committee)
      {
        var r := new BftReplica(|made|, committee);
        made := made + [r];
      }
      this.chain, this.committee, this.replicas := chain, committee, made;
      view := 1;
      trail := Start(Initials(committee), GENESIS);
      ready, honest := ReadyIn(committee), HonestLink(committee);
      NewCommitteeRun(committee);
      HonestProgresses(committee);
      new;
      assert States() == Initials(committee);
    }

    method AdvanceAll(v: int)
      requires Wired()
      modifies replicas
      ensures States() == Advanced(old(States()), v)
    {
      var i := 0;
      while i < |replicas|
        invariant 0 <= i <= |replicas|
        invariant forall k :: 0 <= k < i ==> replicas[k].State() == RL.AdvanceTo(old(replicas[k].State()), v)
        invariant forall k :: i <= k < |replicas| ==> replicas[k].State() == old(replicas[k].State())
      {
        replicas[i].AdvanceToView(v);
        i := i + 1;
      }
    }

    /** What a proposal does to each replica, and what each answers. */
    ghost predicate Outcomes(before: seq<RL.Replica>, b: Block, after: seq<RL.Replica>, answers: seq<Option<Vote>>)
      requires forall k :: 0 <= k < |before| ==> before[k].committee.Valid()
    {
      && |before| == |after| == |answers|
      && forall i {:trigger RL.OnProposal(before[i], b)} :: 0 <= i < |before| ==>
           RL.OnProposal(before[i], b) == (after[i], answers[i])
    }

    method Ask(i: int, b: Block, ghost before: seq<RL.Replica>, ghost after: seq<RL.Replica>,
               ghost answers: seq<Option<Vote>>) returns (vote: Option<Vote>)
      requires Wired() && 0 <= i < |replicas| == |before| && replicas[i].State() == before[i]
      requires forall k :: 0 <= k < |before| ==> before[k].committee.Valid()
      requires Outcomes(before, b, after, answers)
      modifies replicas[i]
      ensures replicas[i].State() == after[i] && vote == answers[i]
    {
      assert RL.OnProposal(before[i], b) == (after[i], answers[i]);
      vote := replicas[i].OnReceiveProposal(b);
    }

    method AskAll(b: Block, ghost before: seq<RL.Replica>, ghost after: seq<RL.Replica>, ghost answers: seq<Option<Vote>>)
      returns (votes: seq<Vote>)
      requires Wired() && before == States()
      requires forall k :: 0 <= k < |before| ==> before[k].committee.Valid()
      requires Outcomes(before, b, after, answers)
      modifies replicas
      ensures States() == after && votes == Present(answers)
    {
      votes := [];
      var i := 0;
      while i < |replicas|
        invariant 0 <= i <= |replicas| && votes == Present(answers[..i])
        invariant forall k :: 0 <= k < i ==> replicas[k].State() == after[k]
        invariant forall k :: i <= k < |replicas| ==> replicas[k].State() == before[k]
      {
        var vote := Ask(i, b, before, after, answers);
        PresentNext(answers, i);
        if vote.Some? {
          votes := votes + [vote.value];
        }
        i := i + 1;
      }
      assert answers[..i] == answers;
    }

    static lemma PresentNext(answers: seq<Option<Vote>>, i: int)
      requires 0 <= i < |answers|
      ensures Present(answers[..i + 1]) == Present(answers[..i]) + if answers[i].Some? then [answers[i].value] else []
    {
      assert answers[..i + 1][..i] == answers[..i];
    }

    method Deliver(next: int, votes: seq<Vote>, ghost before: seq<RL.Replica>)
      requires Wired() && 0 <= next < |replicas| && before == States() && before[next].committee.Valid()
      modifies replicas[next]
      ensures States() == before[next := Collect(before[next], votes)]
    {
      var i := 0;
      while i < |votes|
        invariant 0 <= i <= |votes|
        invariant replicas[next].State() == Collect(before[next], votes[..i])
        invariant forall k :: 0 <= k < |replicas| && k != next ==> replicas[k].State() == before[k]
      {
        assert votes[..i + 1][..i] == votes[..i];
        var formed := replicas[next].OnReceiveVote(votes[i]);
        i := i + 1;
      }
      assert votes[..i] == votes;
    }

    lemma WiredMembers()
      requires Wired()
      ensures Members(committee, States())
    {
    }

    method Announce(payload: Payload, ghost before: seq<RL.Replica>) returns (b: Block, ghost advanced: seq<RL.Replica>)
      requires Wired() && before == States()
      modifies replicas
      ensures advanced == States() == Advanced(before, view)
      ensures b == RL.Propose(advanced[committee.LeaderForView(view)], payload)
    {
      AdvanceAll(view);
      advanced := States();
      b := replicas[committee.LeaderForView(view)].Propose(payload);
    }

    method Gather(b: Block, ghost before: seq<RL.Replica>, ghost voted: seq<RL.Replica>, ghost answers: seq<Option<Vote>>)
      requires Wired() && before == States() && Members(committee, before)
      requires Outcomes(before, b, voted, answers)
      modifies replicas
      ensures |voted| == |replicas| && 0 <= committee.LeaderForView(view + 1) < |voted|
      ensures voted[committee.LeaderForView(view + 1)].committee.Valid()
      ensures var next := committee.LeaderForView(view + 1);
        States() == voted[next := Collect(voted[next], Present(answers))]
    {
      var votes := AskAll(b, before, voted, answers);
      Deliver(committee.LeaderForView(view + 1), votes, voted);
    }

    /** The exchanges of one view. */
    method RunView(payload: Payload, ghost before: seq<RL.Replica>) returns (b: Block)
      requires Wired() && before == States() && CoversHonestViews(committee, honest)
      modifies replicas
      ensures honest(before, view, payload, States(), HashOf(b))
    {
      WiredMembers();
      ghost var advanced;
      b, advanced := Announce(payload, before);
      WiredMembers();
      ghost var voted, answers := Plan(honest, committee, before, view, payload, advanced, b);
      Gather(b, advanced, voted, answers);
    }

    /** What the exchanges will lead to. */
    lemma Plan(link: Link, c: Committee, rs: seq<RL.Replica>, v: int, payload: Payload, advanced: seq<RL.Replica>, b: Block)
      returns (voted: seq<RL.Replica>, answers: seq<Option<Vote>>)
      requires CoversHonestViews(c, link) && Members(c, rs) && Members(c, advanced)
      requires advanced == Advanced(rs, v) && b == RL.Propose(advanced[c.LeaderForView(v)], payload)
      ensures Outcomes(advanced, b, voted, answers) && |voted| == c.n && 0 <= c.LeaderForView(v + 1) < c.n
      ensures voted[c.LeaderForView(v + 1)].committee.Valid()
      ensures var next := c.LeaderForView(v + 1);
        link(rs, v, payload, voted[next := Collect(voted[next], Present(answers))], HashOf(b))
    {
      voted, answers := Voted(advanced, b), Answers(advanced, b);
      OutcomesOf(c, advanced, b, voted, answers);
      LinkFromParts(link, c, rs, v, payload, advanced, b, voted, answers);
    }

    lemma OutcomesOf(c: Committee, rs: seq<RL.Replica>, b: Block, voted: seq<RL.Replica>, answers: seq<Option<Vote>>)
      requires Members(c, rs) && voted == Voted(rs, b) && answers == Answers(rs, b)
      ensures Outcomes(rs, b, voted, answers) && |voted| == c.n
      ensures forall i :: 0 <= i < |voted| ==> voted[i].committee.Valid()
    {
    }

    lemma LinkFromParts(link: Link, c: Committee, rs: seq<RL.Replica>, v: int, payload: Payload,
                        advanced: seq<RL.Replica>, b: Block, voted: seq<RL.Replica>, answers: seq<Option<Vote>>)
      requires CoversHonestViews(c, link) && Members(c, rs) && Members(c, advanced)
      requires advanced == Advanced(rs, v) && b == RL.Propose(advanced[c.LeaderForView(v)], payload)
      requires voted == Voted(advanced, b) && answers == Answers(advanced, b)
      requires 0 <= c.LeaderForView(v + 1) < |voted| && voted[c.LeaderForView(v + 1)].committee.Valid()
      ensures var next := c.LeaderForView(v + 1);
        link(rs, v, payload, voted[next := Collect(voted[next], Present(answers))], HashOf(b))
    {
      var next := c.LeaderForView(v + 1);
      assert Linked(c, rs, v, payload, voted[next := Collect(voted[next], Present(answers))], HashOf(b));
    }

    method RunHonestView(payload: Payload) returns (b: Block)
      requires Valid()
      modifies this`view, this`trail, replicas
      ensures Valid() && view == old(view) + 1
      ensures trail == Then(old(trail), payload, States(), HashOf(b))
    {
      b := RunView(payload, trail.rs);
      ExtendSteps(ready, honest, 1, trail, payload, States(), HashOf(b));
      trail := Then(trail, payload, States(), HashOf(b));
      view := view + 1;
    }

    static lemma ExtendSteps(ready: HonestRuns.State, link: Link, v: int, t: Trail, payload: Payload, rs: seq<RL.Replica>,
                             tip: Hash)
      requires Steps(link, v, t) && ready(v, Ago(t, Views(t)).rs, Ago(t, Views(t)).tip)
      requires link(t.rs, v + Views(t), payload, rs, tip)
      ensures var next := Then(t, payload, rs, tip);
        Steps(link, v, next) && ready(v, Ago(next, Views(next)).rs, Ago(next, Views(next)).tip)
    {
      var next := Then(t, payload, rs, tip);
      assert Ago(next, Views(next)) == Ago(t, Views(t));
    }

    /** Five views, the first of which proposes the payload and the others a heartbeat each. */
    method DriveFiveViews(payload: Payload) returns (b: Block)
      requires Valid()
      modifies this`view, this`trail, replicas
      ensures Valid() && view == old(view) + 5
      ensures b.payload == payload && b.view == old(view) && Committed(States(), HashOf(b))
      ensures Drove(old(trail), trail, payload, old(view), HashOf(b))
    {
      b := RunHonestView(payload);
      ghost var first := trail;
      var k := 0;
      while k < 4
        invariant 0 <= k <= 4 && Valid() && view == old(view) + 1 + k
        invariant Views(trail) == Views(first) + k && Ago(trail, k) == first
        invariant HeartbeatsAfter(first, trail, old(view), k)
      {
        var heartbeat := RunHonestView(Heartbeat(view));
        k := k + 1;
      }
      ProposalCommits(ready, honest, 1, trail, 4);
    }

    /** Within the five views it drives, the checkpoint of every height on the chain is committed by every replica
        and recorded, call after call; a height off the chain changes nothing. */
    method FinalizeHeight(height: int) returns (result: Option<L.BlockHash>)
      requires Valid()
      modifies this`view, this`trail, replicas, chain`bftFinalized
      ensures Valid()
      ensures result == if 0 <= height < |chain.chain| then Some(chain.chain[height].Hash()) else None
      ensures result.None? ==> chain.State() == old(chain.State()) && view == old(view)
      ensures result.Some? ==>
        && chain.State() == old(chain.State()).(finalized := old(chain.bftFinalized)[height := result.value])
        && view == old(view) + 5
        && exists b: Block ::
             && b.payload == Checkpoint(height, result.value) && b.view == old(view)
             && Committed(States(), HashOf(b)) && Drove(old(trail), trail, b.payload, b.view, HashOf(b))
    {
      if !(0 <= height < |chain.chain|) {
        return None;
      }
      var target := chain.chain[height].Hash();
      var checkpoint := DriveFiveViews(Checkpoint(height, target));
      if HashOf(checkpoint) !in replicas[0].committed {
        return None;
      }
      var marked := chain.MarkBftFinalized(height, target);
      if marked {
        return Some(target);
      }
      return None;
    }
  }
}
