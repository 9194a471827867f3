/** A reachable state in which block sync cannot help: the requester formed a certificate from votes alone. */
module SyncGap {
  import opened Wrappers
  import opened HotStuffTypes
  import opened SetFacts
  import opened Quorums
  import opened ReplicaLogic
  import opened VoteLog
  import opened ReplicaSystem
  import opened Agreement
  import opened BlockSync
  import opened RelaxedRuns
  import opened Branches
  import opened AgreementConditions
  import HR = HonestRounds

  /** The votes of validators 0 to m - 1 for one block. */
  function VotesFor(h: Hash, view: int, m: nat): (r: seq<Vote>)
    ensures |r| == m && forall i :: 0 <= i < m ==> r[i] == Vote(h, view, i, Sig(i, VoteMessage(view, h)))
  {
    seq(m, i => Vote(h, view, i, Sig(i, VoteMessage(view, h))))
  }

  lemma OnVoteKeepsPlace(r: Replica, v: Vote)
    requires r.committee.Valid()
    ensures OnVote(r, v).0.committee == r.committee && OnVote(r, v).0.me == r.me
  {
  }

  lemma DeliverOne(w: Allowance, s: Setting, sys: Sys, j: nat, v: Vote) returns (after: Sys)
    requires At(w, s, sys) && s.Honest(j) && VoteAllowed(w, s, sys.log, v)
    ensures At(w, s, after) && after == Sys(sys.replicas[j := OnVote(sys.replicas[j], v).0], sys.log)
  {
    OnVoteKeepsPlace(sys.replicas[j], v);
    after := ReplicaEvent(w, s, sys, Protocol(DeliverVote(j, v)), j, OnVote(sys.replicas[j], v).0, sys.log);
  }

  lemma CollectLast(r: Replica, votes: seq<Vote>)
    requires r.committee.Valid() && votes != []
    ensures HR.Collect(r, votes) == OnVote(HR.Collect(r, votes[..|votes| - 1]), votes[|votes| - 1]).0
  {
  }

  lemma {:induction false} DeliverAll(w: Allowance, s: Setting, sys: Sys, j: nat, votes: seq<Vote>) returns (after: Sys)
    requires At(w, s, sys) && s.Honest(j) && forall i :: 0 <= i < |votes| ==> VoteAllowed(w, s, sys.log, votes[i])
    ensures At(w, s, after) && after == Sys(sys.replicas[j := HR.Collect(sys.replicas[j], votes)], sys.log)
  {
    if votes == [] {
      after := sys;
    } else {
      var rest, v := votes[..|votes| - 1], votes[|votes| - 1];
      var mid := DeliverAll(w, s, sys, j, rest);
      CollectLast(sys.replicas[j], votes);
      after := DeliverOne(w, s, mid, j, v);
      assert after.replicas == sys.replicas[j := HR.Collect(sys.replicas[j], votes)];
    }
  }

  lemma FreshCollects(c: Committee, j: int, h: Hash, m: nat)
    requires c.Valid() && c.QuorumSize() <= m <= c.n
    ensures var after := HR.Collect(Initial(j, c), VotesFor(h, 1, m));
      after.highQc.hash == h && after.blocks == Initial(j, c).blocks
  {
    HR.CollectAll(c, Initial(j, c), (h, 1), VotesFor(h, 1, m));
  }

  /** Still as it started, but locked on h at view 1. */
  ghost predicate FreshButLocked(c: Committee, r: Replica, h: Hash) {
    && r.committee == c && r.lockedQc.hash == h && r.lockedQc.view == 1
    && r.blocks == map[GENESIS := GENESIS_BLOCK] && r.currentView == 1 && r.votedViews == map[]
  }

  lemma LockedFromVotes(c: Committee, j: int, h: Hash, m: nat)
    requires c.Valid() && c.QuorumSize() <= m <= c.n
    ensures FreshButLocked(c, HR.Collect(Initial(j, c), VotesFor(h, 1, m)), h)
  {
    HR.CollectAll(c, Initial(j, c), (h, 1), VotesFor(h, 1, m));
  }

  /** The requester names as its frontier a block it does not have, and the server has it. */
  ghost predicate Stuck(c: Committee, server: Replica, r: Replica, tip: Hash)
    requires c.Valid() && r.committee == c
  {
    && tip in server.blocks && tip !in r.blocks
    && r.highQc.hash !in r.blocks && IsAncestor(r.highQc.hash, tip)
    && tip !in ImportAll(r, Served(server.blocks, tip, r.highQc.hash, MAX_SERVED)).blocks
  }

  lemma FrontierUnknown(c: Committee, server: Replica, r: Replica, tip: Hash)
    requires c.Valid() && r.committee == c && tip in server.blocks && tip !in r.blocks && r.highQc.hash == tip
    ensures Stuck(c, server, r, tip)
  {
    assert tip in Path(tip);
    assert Served(server.blocks, tip, tip, MAX_SERVED) == [];
  }

  lemma ServerStores(c: Committee, i: int, l: Line)
    requires GoodLine(c, l)
    ensures LineTip(c, l, 1) in Along(c, Initial(i, c), l, 1).blocks
  {
    FreshOnLine(c, i, l);
    AlongOnLine(c, Initial(i, c), l, 1);
    assert LineTip(c, l, 1) in Path(LineTip(c, l, 1));
  }

  /** It happens in every committee without any Byzantine validator: all but one vote for the first proposal, and
      the last receives their votes but not the block. */
  lemma SyncCanFail(c: Committee) returns (states: seq<Sys>, steps: seq<Step>, tip: Hash)
    requires c.Valid()
    ensures Run(Setting(c, {}), states, steps) && |states| == |steps| + 1
    ensures |states[|steps|].replicas| == c.n && states[|steps|].replicas[c.n - 1].committee == c
    ensures Stuck(c, states[|steps|].replicas[0], states[|steps|].replicas[c.n - 1], tip)
  {
    var s := Setting(c, {});
    var sys;
    sys, tip := StuckReached(s);
    var events: seq<Event>;
    states, events :| RelaxedRun(STRICT, s, states, events) && states[|events|] == sys;
    StrictIsRun(s, states, events);
    steps := Steps(events);
  }

  lemma StuckReached(s: Setting) returns (sys: Sys, tip: Hash)
    requires s.c.Valid() && s.byz == {}
    ensures Reached(STRICT, s, sys) && |sys.replicas| == s.c.n && sys.replicas[s.c.n - 1].committee == s.c
    ensures Stuck(s.c, sys.replicas[0], sys.replicas[s.c.n - 1], tip)
  {
    sys, tip := LastCollected(s);
  }

  lemma LastCollected(s: Setting) returns (sys: Sys, tip: Hash)
    requires s.c.Valid() && s.byz == {}
    ensures Reached(STRICT, s, sys) && |sys.replicas| == s.c.n && sys.replicas[s.c.n - 1].committee == s.c
    ensures Stuck(s.c, sys.replicas[0], sys.replicas[s.c.n - 1], tip)
    ensures tip.HashOf? && WellFormed(s.c, tip.block, 1, GENESIS) && FreshButLocked(s.c, sys.replicas[s.c.n - 1], tip)
  {
    var m := s.c.n - 1;
    var voters := Sorted(Interval(0, m));
    var l := Line(0, 1, voters);
    QuorumLine(STRICT, s, 0, m, l);
    tip := LineTip(s.c, l, 1);
    var mid := AllButLastVote(s, l, m);
    VotesAllowed(s, mid.log, voters, tip, m);
    sys := DeliverAll(STRICT, s, mid, m, VotesFor(tip, 1, m));
    LastIsStuck(s.c, sys.replicas[0], sys.replicas[m], l, m);
    FirstShape(s.c, l, tip);
    LockedFromVotes(s.c, m, tip, m);
  }

  lemma FirstShape(c: Committee, l: Line, tip: Hash)
    requires GoodLine(c, l) && l.start == 1 && tip == LineTip(c, l, 1)
    ensures tip.HashOf? && WellFormed(c, tip.block, 1, GENESIS)
  {
    LineBlockShape(c, l, 0);
    assert LineTip(c, l, 0) == GENESIS;
  }

  lemma AllButLastVote(s: Setting, l: Line, m: nat) returns (mid: Sys)
    requires s.c.Valid() && s.byz == {} && m == s.c.n - 1 && l.signers == Sorted(Interval(0, m)) && l.start == 1
    requires LineAllowed(STRICT, s, l, l.signers)
    ensures At(STRICT, s, mid) && AllCast(mid.log, l.signers, LineTip(s.c, l, 1), 1)
    ensures mid.replicas[0] == Along(s.c, Initial(0, s.c), l, 1) && mid.replicas[m] == Initial(m, s.c)
  {
    var start := StartReached(STRICT, s);
    FreshVoters(s, start, l.signers, l);
    mid := Drive(STRICT, s, start, l.signers, l, 1);
  }

  lemma LastIsStuck(c: Committee, server: Replica, r: Replica, l: Line, m: nat)
    requires GoodLine(c, l) && m == c.n - 1 && server == Along(c, Initial(0, c), l, 1)
    requires r == HR.Collect(Initial(m, c), VotesFor(LineTip(c, l, 1), 1, m))
    ensures r.committee == c && Stuck(c, server, r, LineTip(c, l, 1))
  {
    FreshCollects(c, m, LineTip(c, l, 1), m);
    ServerStores(c, 0, l);
    LineBlockShape(c, l, 0);
    FrontierUnknown(c, server, r, LineTip(c, l, 1));
  }

  lemma VotesAllowed(s: Setting, log: Log, voters: seq<int>, h: Hash, m: nat)
    requires m <= s.c.n && voters == Sorted(Interval(0, m)) && AllCast(log, voters, h, 1)
    ensures forall i :: 0 <= i < m ==> VoteAllowed(STRICT, s, log, VotesFor(h, 1, m)[i])
  {
    forall i | 0 <= i < m ensures VoteAllowed(STRICT, s, log, VotesFor(h, 1, m)[i]) {
      assert i in voters;
      VoteIsAllowed(s, log, voters, h, VotesFor(h, 1, m)[i]);
    }
  }

  lemma VoteIsAllowed(s: Setting, log: Log, voters: seq<int>, h: Hash, v: Vote)
    requires AllCast(log, voters, h, 1) && v.voter in voters && 0 <= v.voter < s.c.n
    requires v == Vote(h, 1, v.voter, Sig(v.voter, VoteMessage(1, h)))
    ensures VoteAllowed(STRICT, s, log, v)
  {
    var j :| 0 <= j < |voters| && voters[j] == v.voter;
  }
}
