/** What agreement needs: a committee of exactly 3f+1, and every one of the four side conditions.  For each of
    them a run in which two honest replicas commit conflicting blocks when it alone is missing. */
module AgreementConditions {
  import opened Wrappers
  import opened HotStuffTypes
  import opened SetFacts
  import opened Quorums
  import opened ReplicaLogic
  import opened VoteLog
  import opened ReplicaSystem
  import opened Agreement
  import opened RelaxedRuns
  import opened Branches

  ghost predicate FewFaults(s: Setting) {
    s.c.Valid() && s.byz <= Indices(s.c.n) && |s.byz| <= s.c.F()
  }

  ghost predicate ListsAgreeAt(s: Setting, x: Sys, y: Sys) {
    forall a, b :: s.Honest(a) && s.Honest(b) && a < |x.replicas| && b < |y.replicas| ==>
      x.replicas[a].committed <= y.replicas[b].committed || y.replicas[b].committed <= x.replicas[a].committed
  }

  /** In every run under the allowance with at most f Byzantine validators, the committed lists of any two honest
      replicas at any two moments are prefixes of one another. */
  ghost predicate AgreesUnder(c: Committee, w: Allowance) {
    forall byz: set<int>, states: seq<Sys>, events: seq<Event>, j, k ::
      FewFaults(Setting(c, byz)) && RelaxedRun(w, Setting(c, byz), states, events)
      && 0 <= j < |states| && 0 <= k < |states| ==>
        ListsAgreeAt(Setting(c, byz), states[j], states[k])
  }

  /** The same for the protocol's own runs. */
  ghost predicate AgreesInEveryRun(c: Committee) {
    forall byz: set<int>, states: seq<Sys>, steps: seq<Step>, j, k ::
      FewFaults(Setting(c, byz)) && Run(Setting(c, byz), states, steps)
      && 0 <= j < |states| && 0 <= k < |states| ==>
        ListsAgreeAt(Setting(c, byz), states[j], states[k])
  }

  // --- Two branches in one run ---

  /** p has committed the first block of a branch and nothing off it. */
  ghost predicate CommittedOn(c: Committee, r: Replica, l: Line)
    requires c.Valid()
  {
    HashOf(LineBlock(c, l, 0)) in r.committed && CommittedWithin(r.committed, LineTip(c, l, 4))
  }

  lemma BranchesDisagree(s: Setting, sys: Sys, p: int, q: int, la: Line, lb: Line)
    requires s.c.Valid() && |sys.replicas| == s.c.n && s.Honest(p) && s.Honest(q) && la.name != lb.name
    requires CommittedOn(s.c, sys.replicas[p], la) && CommittedOn(s.c, sys.replicas[q], lb)
    ensures !ListsAgreeAt(s, sys, sys)
  {
    FirstBlocksApart(s.c, la, lb, 4);
    FirstBlocksApart(s.c, lb, la, 4);
    var x, y := sys.replicas[p].committed, sys.replicas[q].committed;
    var a, b := HashOf(LineBlock(s.c, la, 0)), HashOf(LineBlock(s.c, lb, 0));
    assert a in x && a !in y && b in y && b !in x;
  }

  lemma AlongCommits(c: Committee, r: Replica, l: Line)
    requires GoodLine(c, l) && OnLine(c, r, l, 0) && Within(c, r, GENESIS)
    ensures CommittedOn(c, Along(c, r, l, 4), l)
  {
    AlongOnLine(c, r, l, 3);
    FourthVoteCommits(c, Along(c, r, l, 3), l);
    AlongWithin(c, r, l, 4);
  }

  /** One branch: a replica that has committed nothing yet commits its first block. */
  lemma DriveCommits(w: Allowance, s: Setting, sys: Sys, voters: seq<int>, l: Line, p: int) returns (after: Sys)
    requires At(w, s, sys) && LineAllowed(w, s, l, voters) && p in voters && s.Honest(p)
    requires forall i :: 0 <= i < s.c.n && i in voters && i !in s.byz ==> OnLine(s.c, sys.replicas[i], l, 0)
    requires Within(s.c, sys.replicas[p], GENESIS)
    ensures At(w, s, after) && Drove(s, sys, after, voters, l, 4) && CommittedOn(s.c, after.replicas[p], l)
  {
    after := Drive(w, s, sys, voters, l, 4);
    AlongCommits(s.c, sys.replicas[p], l);
  }

  lemma FreshVoters(s: Setting, sys: Sys, voters: seq<int>, l: Line)
    requires GoodLine(s.c, l) && |sys.replicas| == s.c.n
    requires forall i :: 0 <= i < s.c.n && i in voters && i !in s.byz ==> sys.replicas[i] == Initial(i, s.c)
    ensures forall i :: 0 <= i < s.c.n && i in voters && i !in s.byz ==>
      OnLine(s.c, sys.replicas[i], l, 0) && Within(s.c, sys.replicas[i], GENESIS)
  {
    forall i | 0 <= i < s.c.n && i in voters && i !in s.byz
      ensures OnLine(s.c, sys.replicas[i], l, 0) && Within(s.c, sys.replicas[i], GENESIS)
    {
      FreshOnLine(s.c, i, l);
      FreshWithin(s.c, i);
    }
  }

  /** A replica that went along one branch can still vote on a branch that starts later. */
  lemma LaterLine(c: Committee, r: Replica, la: Line, lb: Line)
    requires GoodLine(c, la) && GoodLine(c, lb) && OnLine(c, r, la, 4) && lb.start >= la.start + 5
    ensures OnLine(c, r, lb, 0)
  {
    LineHistory(c, la, 4);
    assert GENESIS == Path(LineTip(c, la, 4))[1];
    assert Path(GENESIS) == [NO_PARENT, GENESIS];
  }

  lemma SecondVoters(s: Setting, start: Sys, mid: Sys, va: seq<int>, la: Line, vb: seq<int>, lb: Line)
    requires GoodLine(s.c, la) && GoodLine(s.c, lb) && Drove(s, start, mid, va, la, 4)
    requires forall i :: 0 <= i < s.c.n ==> start.replicas[i] == Initial(i, s.c)
    requires forall i :: i in va && i in vb && i !in s.byz ==> lb.start >= la.start + 5
    ensures forall i :: 0 <= i < s.c.n && i in vb && i !in s.byz ==> OnLine(s.c, mid.replicas[i], lb, 0)
  {
    forall i | 0 <= i < s.c.n && i in vb && i !in s.byz ensures OnLine(s.c, mid.replicas[i], lb, 0) {
      FreshOnLine(s.c, i, la);
      FreshOnLine(s.c, i, lb);
      if i in va {
        AlongOnLine(s.c, Initial(i, s.c), la, 4);
        LaterLine(s.c, mid.replicas[i], la, lb);
      }
    }
  }

  ghost predicate Disagreement(w: Allowance, s: Setting, sys: Sys) {
    Reached(w, s, sys) && !ListsAgreeAt(s, sys, sys)
  }

  /** Two branches, each sent to its own voters: the run ends with two honest lists that disagree. */
  lemma Clash(w: Allowance, s: Setting, la: Line, va: seq<int>, lb: Line, vb: seq<int>, p: int, q: int) returns (sys: Sys)
    requires LineAllowed(w, s, la, va) && LineAllowed(w, s, lb, vb) && la.name != lb.name
    requires s.Honest(p) && p in va && p !in vb && s.Honest(q) && q in vb && q !in va
    requires forall i :: i in va && i in vb && i !in s.byz ==> lb.start >= la.start + 5
    ensures Disagreement(w, s, sys)
  {
    var start := StartReached(w, s);
    FreshVoters(s, start, va, la);
    var mid := DriveCommits(w, s, start, va, la, p);
    SecondVoters(s, start, mid, va, la, vb, lb);
    FreshWithin(s.c, q);
    sys := DriveCommits(w, s, mid, vb, lb, q);
    BranchesDisagree(s, sys, p, q, la, lb);
  }

  lemma DisagreementBreaks(c: Committee, w: Allowance, byz: set<int>, sys: Sys)
    requires FewFaults(Setting(c, byz)) && Disagreement(w, Setting(c, byz), sys)
    ensures !AgreesUnder(c, w)
  {
    var s := Setting(c, byz);
    var states: seq<Sys>, events: seq<Event> :| RelaxedRun(w, s, states, events) && states[|events|] == sys;
    var k := |events|;
    assert !ListsAgreeAt(s, states[k], states[k]);
  }

  // --- Another committee size ---

  lemma SortedList(s: Setting, members: set<int>)
    requires members <= Indices(s.c.n)
    ensures VoterList(s, Sorted(members)) && InRange(s.c, Sorted(members)) && |Sorted(members)| == |members|
  {
    var list := Sorted(members);
    forall i | 0 <= i < |list| ensures 0 <= list[i] < s.c.n {
      assert list[i] in list;
    }
    IncreasingNoRepeats(list);
  }

  lemma IncreasingNoRepeats(list: seq<int>)
    requires Increasing(list)
    ensures NoRepeats(list)
  {
  }

  lemma RangePlaced(c: Committee, list: seq<int>)
    requires InRange(c, list)
    ensures Placed(c, list) && forall k :: k in Validators(c, list) ==> k in list
  {
    ValidatorsAre(c, list);
    forall k | k in Validators(c, list) ensures k in list {
      var i :| 0 <= i < |list| && c.KeyAt(list[i]) == Some(k);
    }
  }

  lemma SortedVoters(s: Setting, members: set<int>)
    requires members <= Indices(s.c.n)
    ensures VoterList(s, Sorted(members)) && Placed(s.c, Sorted(members)) && InRange(s.c, Sorted(members))
    ensures |Sorted(members)| == |members|
    ensures forall k :: k in Validators(s.c, Sorted(members)) ==> k in Sorted(members)
  {
    SortedList(s, members);
    RangePlaced(s.c, Sorted(members));
  }

  lemma SortedLine(w: Allowance, s: Setting, members: set<int>, l: Line)
    requires s.c.Valid() && members <= Indices(s.c.n) && |members| >= s.c.QuorumSize() && l.signers == Sorted(members)
    requires l.start == 1 || (l.start > 1 && w.genesisViews)
    ensures LineAllowed(w, s, l, Sorted(members))
  {
    SortedVoters(s, members);
  }

  /** The same for sets of voters. */
  lemma ClashOf(w: Allowance, s: Setting, la: Line, a: set<int>, lb: Line, b: set<int>, p: int, q: int) returns (sys: Sys)
    requires LineAllowed(w, s, la, Sorted(a)) && LineAllowed(w, s, lb, Sorted(b)) && la.name != lb.name
    requires s.Honest(p) && p in a && p !in b && s.Honest(q) && q in b && q !in a
    requires a * b <= s.byz || lb.start >= la.start + 5
    ensures Disagreement(w, s, sys)
  {
    forall i | i in Sorted(a) && i in Sorted(b) && i !in s.byz ensures lb.start >= la.start + 5 {
      assert i in a * b;
    }
    sys := Clash(w, s, la, Sorted(a), lb, Sorted(b), p, q);
  }

  lemma ClashLater(w: Allowance, s: Setting, la: Line, a: set<int>, lb: Line, b: set<int>, p: int, q: int)
    returns (sys: Sys)
    requires LineAllowed(w, s, la, Sorted(a)) && LineAllowed(w, s, lb, Sorted(b)) && la.name != lb.name
    requires s.Honest(p) && p in a && p !in b && s.Honest(q) && q in b && q !in a
    requires lb.start >= la.start + 5
    ensures Disagreement(w, s, sys)
  {
    sys := ClashOf(w, s, la, a, lb, b, p, q);
  }

  lemma QuorumLine(w: Allowance, s: Setting, lo: int, hi: int, l: Line)
    requires s.c.Valid() && 0 <= lo && hi <= s.c.n && hi - lo >= s.c.QuorumSize()
    requires l.signers == Sorted(Interval(lo, hi)) && (l.start == 1 || (l.start > 1 && w.genesisViews))
    ensures LineAllowed(w, s, l, Sorted(Interval(lo, hi)))
  {
    IntervalSize(lo, hi);
    SortedLine(w, s, Interval(lo, hi), l);
  }

  lemma OtherSizesDisagree(c: Committee) returns (byz: set<int>, sys: Sys)
    requires c.Valid() && !ExactSize(c)
    ensures FewFaults(Setting(c, byz)) && Disagreement(STRICT, Setting(c, byz), sys)
  {
    var a, b := BarelyOverlapping(c);
    byz := a * b;
    var s := Setting(c, byz);
    var la, lb := Line(0, 1, Sorted(a)), Line(1, 1, Sorted(b));
    SortedLine(STRICT, s, a, la);
    SortedLine(STRICT, s, b, lb);
    var p := PickOutside(a, byz);
    var q := PickOutside(b, byz);
    sys := ClashOf(STRICT, s, la, a, lb, b, p, q);
  }

  // --- A certificate for genesis above view 0 ---

  /** Two quorums, each with a member outside the other. */
  lemma TwoQuorums(c: Committee) returns (a: set<int>, b: set<int>, p: int, q: int)
    requires c.Valid()
    ensures a <= Indices(c.n) && b <= Indices(c.n) && |a| == |b| == c.QuorumSize()
    ensures p in a && p !in b && q in b && q !in a
  {
    QuorumSpan(c);
    a, b := TwoEnds(c.n, c.QuorumSize());
    p, q := 0, c.n - 1;
  }

  lemma GenesisViewsDisagree(c: Committee, w: Allowance) returns (sys: Sys)
    requires c.Valid() && w.genesisViews
    ensures Disagreement(w, Setting(c, {}), sys)
  {
    var a, b, p, q := TwoQuorums(c);
    assert p in Indices(c.n) && q in Indices(c.n);
    sys := LaterBranch(w, Setting(c, {}), a, b, p, q);
  }

  lemma LaterBranch(w: Allowance, s: Setting, a: set<int>, b: set<int>, p: int, q: int) returns (sys: Sys)
    requires s.c.Valid() && w.genesisViews && a <= Indices(s.c.n) && b <= Indices(s.c.n)
    requires |a| >= s.c.QuorumSize() && |b| >= s.c.QuorumSize()
    requires s.Honest(p) && p in a && p !in b && s.Honest(q) && q in b && q !in a
    ensures Disagreement(w, s, sys)
  {
    var la, lb := Line(0, 1, Sorted(a)), Line(1, 6, Sorted(b));
    SortedLine(w, s, a, la);
    SortedLine(w, s, b, lb);
    sys := ClashLater(w, s, la, a, lb, b, p, q);
  }

  // --- Positions outside [0, n) ---

  /** Each position of [lo, hi) twice, the second time counted from the end of the list. */
  function Doubled(n: nat, lo: int, hi: int): (r: seq<int>)
    ensures |r| == if lo < hi then 2 * (hi - lo) else 0
    ensures forall i :: 0 <= i < |r| ==> r[i] == if i < hi - lo then lo + i else lo + i - (hi - lo) - n
  {
    if lo >= hi then []
    else
      var m := hi - lo;
      seq(2 * m, i => if i < m then lo + i else lo + i - m - n)
  }

  lemma DoubledPlaced(c: Committee, lo: int, hi: int)
    requires 0 <= lo < hi <= c.n
    ensures NoRepeats(Doubled(c.n, lo, hi)) && Placed(c, Doubled(c.n, lo, hi))
    ensures forall k :: k in Validators(c, Doubled(c.n, lo, hi)) ==> lo <= k < hi
  {
    var list := Doubled(c.n, lo, hi);
    forall i | 0 <= i < |list| ensures c.KeyAt(list[i]).Some? && lo <= c.KeyAt(list[i]).value < hi {
    }
    ValidatorsAre(c, list);
  }

  lemma DoubledLine(w: Allowance, s: Setting, lo: int, hi: int, l: Line)
    requires s.c.Valid() && w.positions && 0 <= lo < hi <= s.c.n && 2 * (hi - lo) >= s.c.QuorumSize()
    requires l.signers == Doubled(s.c.n, lo, hi) && l.start == 1
    ensures LineAllowed(w, s, l, Sorted(Interval(lo, hi)))
  {
    DoubledPlaced(s.c, lo, hi);
    SortedList(s, Interval(lo, hi));
  }

  lemma PositionsDisagree(c: Committee, w: Allowance) returns (sys: Sys)
    requires c.Valid() && ExactSize(c) && w.positions
    ensures Disagreement(w, Setting(c, {}), sys)
  {
    var s := Setting(c, {});
    var m := c.F() + 1;
    var la, lb := Line(0, 1, Doubled(c.n, 0, m)), Line(1, 1, Doubled(c.n, m, 2 * m));
    DoubledLine(w, s, 0, m, la);
    DoubledLine(w, s, m, 2 * m, lb);
    sys := ClashOf(w, s, la, Interval(0, m), lb, Interval(m, 2 * m), 0, m);
  }

  // --- Forged signatures ---

  lemma ForgedLine(w: Allowance, s: Setting, i: int, l: Line)
    requires s.c.Valid() && w.forgeries && 0 <= i < s.c.n && l.signers == Sorted(Indices(s.c.n)) && l.start == 1
    ensures LineAllowed(w, s, l, Sorted({i}))
  {
    QuorumLine(w, s, 0, s.c.n, l);
    SortedList(s, {i});
  }

  lemma ForgeriesDisagree(c: Committee, w: Allowance) returns (sys: Sys)
    requires c.Valid() && ExactSize(c) && w.forgeries
    ensures Disagreement(w, Setting(c, {}), sys)
  {
    var s := Setting(c, {});
    var la, lb := Line(0, 1, Sorted(Indices(c.n))), Line(1, 1, Sorted(Indices(c.n)));
    ForgedLine(w, s, 0, la);
    ForgedLine(w, s, 1, lb);
    sys := ClashOf(w, s, la, {0}, lb, {1}, 0, 1);
  }

  // --- Replicas that restart without their state ---

  /** Every replica from 1 to k - 1 restarts. */
  lemma {:induction false} RestartSome(w: Allowance, s: Setting, sys: Sys, k: nat) returns (after: Sys)
    requires At(w, s, sys) && w.restarts && s.byz == {} && 1 <= k <= s.c.n
    ensures At(w, s, after) && after.replicas[0] == sys.replicas[0]
    ensures forall i :: 1 <= i < k ==> after.replicas[i] == Initial(i, s.c)
  {
    if k == 1 {
      after := sys;
    } else {
      var i := k - 1;
      var mid := RestartSome(w, s, sys, i);
      after := ReplicaEvent(w, s, mid, Restart(i), i, Initial(i, s.c), mid.log);
    }
  }

  lemma RestartsDisagree(c: Committee, w: Allowance) returns (sys: Sys)
    requires c.Valid() && ExactSize(c) && w.restarts
    ensures Disagreement(w, Setting(c, {}), sys)
  {
    var s := Setting(c, {});
    var all, rest := Sorted(Interval(0, c.n)), Sorted(Interval(1, c.n));
    var la, lb := Line(0, 1, all), Line(1, 1, rest);
    QuorumLine(w, s, 0, c.n, la);
    QuorumLine(w, s, 1, c.n, lb);
    sys := DriveRestartDrive(w, s, la, all, lb, rest, 0, 1);
  }

  lemma DriveRestartDrive(w: Allowance, s: Setting, la: Line, va: seq<int>, lb: Line, vb: seq<int>, p: int, q: int)
    returns (sys: Sys)
    requires LineAllowed(w, s, la, va) && LineAllowed(w, s, lb, vb) && la.name != lb.name && w.restarts && s.byz == {}
    requires p == 0 && q == 1 && p in va && q in vb && p !in vb
    ensures Disagreement(w, s, sys)
  {
    var start := StartReached(w, s);
    FreshVoters(s, start, va, la);
    var mid := DriveCommits(w, s, start, va, la, p);
    var again := RestartSome(w, s, mid, s.c.n);
    RestartedVoters(s, again, vb, lb, p);
    sys := DriveCommits(w, s, again, vb, lb, q);
    BranchesDisagree(s, sys, p, q, la, lb);
  }

  lemma RestartedVoters(s: Setting, sys: Sys, voters: seq<int>, l: Line, p: int)
    requires GoodLine(s.c, l) && VoterList(s, voters) && |sys.replicas| == s.c.n && p == 0 && p !in voters
    requires forall i :: 1 <= i < s.c.n ==> sys.replicas[i] == Initial(i, s.c)
    ensures forall i :: 0 <= i < s.c.n && i in voters && i !in s.byz ==>
      OnLine(s.c, sys.replicas[i], l, 0) && Within(s.c, sys.replicas[i], GENESIS)
  {
    FreshVoters(s, sys, voters, l);
  }

  // --- The theorems ---

  lemma StrictAgrees(c: Committee)
    requires c.Valid() && ExactSize(c)
    ensures AgreesInEveryRun(c)
  {
    forall byz: set<int>, states: seq<Sys>, steps: seq<Step>, j, k |
      FewFaults(Setting(c, byz)) && Run(Setting(c, byz), states, steps) && 0 <= j < |states| && 0 <= k < |states|
      ensures ListsAgreeAt(Setting(c, byz), states[j], states[k])
    {
      var s := Setting(c, byz);
      forall a, b | s.Honest(a) && s.Honest(b) && a < |states[j].replicas| && b < |states[k].replicas|
        ensures states[j].replicas[a].committed <= states[k].replicas[b].committed
             || states[k].replicas[b].committed <= states[j].replicas[a].committed
      {
        CommittedListsAgree(s, states, steps, j, a, k, b);
      }
    }
  }

  lemma StrictRunsAreRuns(c: Committee)
    requires AgreesInEveryRun(c)
    ensures AgreesUnder(c, STRICT)
  {
    forall byz: set<int>, states: seq<Sys>, events: seq<Event>, j, k |
      FewFaults(Setting(c, byz)) && RelaxedRun(STRICT, Setting(c, byz), states, events)
      && 0 <= j < |states| && 0 <= k < |states|
      ensures ListsAgreeAt(Setting(c, byz), states[j], states[k])
    {
      StrictIsRun(Setting(c, byz), states, events);
    }
  }

  /** Agreement of the protocol, for every committee it accepts: the committed lists of any two honest replicas
      agree in every run with at most f Byzantine validators if and only if n = 3f+1. */
  lemma AgreementIffExactSize(c: Committee)
    requires c.Valid()
    ensures AgreesInEveryRun(c) <==> ExactSize(c)
  {
    if ExactSize(c) {
      StrictAgrees(c);
    } else {
      var byz, sys := OtherSizesDisagree(c);
      DisagreementBreaks(c, STRICT, byz, sys);
      if AgreesInEveryRun(c) {
        StrictRunsAreRuns(c);
      }
    }
  }

  /** Each side condition is needed: with at most f Byzantine validators all runs agree if and only if n = 3f+1
      and nothing beyond the side conditions is allowed. */
  lemma AgreementIffConditions(c: Committee, w: Allowance)
    requires c.Valid()
    ensures AgreesUnder(c, w) <==> ExactSize(c) && w == STRICT
  {
    if !ExactSize(c) {
      var byz, sys := OtherSizesDisagree(c);
      StrictStateReached(w, Setting(c, byz), sys);
      DisagreementBreaks(c, w, byz, sys);
    } else if w == STRICT {
      StrictAgrees(c);
      StrictRunsAreRuns(c);
    } else {
      var sys;
      if w.positions {
        sys := PositionsDisagree(c, w);
      } else if w.genesisViews {
        sys := GenesisViewsDisagree(c, w);
      } else if w.forgeries {
        sys := ForgeriesDisagree(c, w);
      } else {
        sys := RestartsDisagree(c, w);
      }
      DisagreementBreaks(c, w, {}, sys);
    }
  }

  lemma StrictStateReached(w: Allowance, s: Setting, sys: Sys)
    requires Disagreement(STRICT, s, sys)
    ensures Disagreement(w, s, sys)
  {
    var states: seq<Sys>, events: seq<Event> :| RelaxedRun(STRICT, s, states, events) && states[|events|] == sys;
    forall k | 0 <= k < |events| ensures EventTaken(w, s, states[k], events[k], states[k + 1]) {
      var e := events[k];
      assert EventTaken(STRICT, s, states[k], e, states[k + 1]);
    }
    assert RelaxedRun(w, s, states, events);
  }
}
