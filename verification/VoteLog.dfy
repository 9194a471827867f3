/** The votes cast in a run, in the order they were cast, and what follows from honest voting alone.

    Each entry remembers, as a history variable, the certificate its caster was locked on when it voted. */
module VoteLog {
  import opened Wrappers
  import opened HotStuffTypes
  import opened SetFacts
  import opened Quorums

  datatype Cast = Cast(voter: int, view: int, hash: Hash, lock: QC)

  type Log = seq<Cast>

  /** The committee and the validators that do not follow the protocol: at most f of n = 3f+1. */
  datatype Setting = Setting(c: Committee, byz: set<int>) {
    predicate Valid() {
      c.Valid() && ExactSize(c) && byz <= Indices(c.n) && |byz| <= c.F()
    }

    predicate Honest(i: int) {
      0 <= i < c.n && i !in byz
    }
  }

  ghost predicate HasCast(log: Log, voter: int, h: Hash, view: int) {
    exists k :: 0 <= k < |log| && log[k].voter == voter && log[k].hash == h && log[k].view == view
  }

  function Voters(log: Log, h: Hash, view: int): set<int> {
    set k | 0 <= k < |log| && log[k].hash == h && log[k].view == view :: log[k].voter
  }

  lemma VotersAre(log: Log, h: Hash, view: int)
    ensures forall i :: i in Voters(log, h, view) <==> HasCast(log, i, h, view)
  {
    forall i ensures i in Voters(log, h, view) <==> HasCast(log, i, h, view) {
      if i in Voters(log, h, view) {
        var k :| 0 <= k < |log| && log[k].hash == h && log[k].view == view && log[k].voter == i;
        assert HasCast(log, i, h, view);
      }
    }
  }

  ghost predicate CastersInCommittee(s: Setting, log: Log) {
    forall k :: 0 <= k < |log| ==> 0 <= log[k].voter < s.c.n
  }

  /** A quorum of validators has voted for h in this view. */
  ghost predicate Certified(s: Setting, log: Log, h: Hash, view: int)
    requires s.c.Valid()
  {
    |Voters(log, h, view)| >= s.c.QuorumSize()
  }

  /** Genesis needs no votes, but only at view 0. */
  ghost predicate Justified(s: Setting, log: Log, h: Hash, view: int)
    requires s.c.Valid()
  {
    (h == GENESIS && view == 0) || Certified(s, log, h, view)
  }

  lemma CertifiedMonotone(s: Setting, log: Log, more: Log, h: Hash, view: int)
    requires s.c.Valid() && log <= more && Certified(s, log, h, view)
    ensures Certified(s, more, h, view)
  {
    assert Voters(log, h, view) <= Voters(more, h, view) by {
      forall i | i in Voters(log, h, view) ensures i in Voters(more, h, view) {
        var k :| 0 <= k < |log| && log[k].hash == h && log[k].view == view && log[k].voter == i;
        assert more[k] == log[k];
      }
    }
    SubsetSize(Voters(log, h, view), Voters(more, h, view));
  }

  // --- What honest voting records ---

  /** A block that honest validators may have voted for: it is a real block of that view and carries a
      certificate for its parent. */
  ghost predicate Votable(h: Hash, view: int) {
    && h.HashOf?
    && h.block.view == view >= 1
    && h.block.justify.Some?
    && h.block.justify.value.hash == h.block.parent
  }

  function JustifyView(h: Hash): int {
    if h.HashOf? && h.block.justify.Some? then h.block.justify.value.view else 0
  }

  /** `_safe_to_vote`, with ancestry read off the hashes. */
  ghost predicate SafeAgainst(lock: QC, h: Hash)
    requires h.HashOf?
  {
    lock.hash == h || IsAncestor(lock.hash, h.block.parent) || JustifyView(h) > lock.view
  }

  /** Votes of one validator go up in view, and never name two blocks in one view. */
  ghost predicate OwnOrder(log: Log, k: int)
    requires 0 <= k < |log|
  {
    forall m :: 0 <= m < k && log[m].voter == log[k].voter ==>
      log[m].view < log[k].view || (log[m].view == log[k].view && log[m].hash == log[k].hash)
  }

  /** The lock is at least as recent as the certificate of every block voted for before. */
  ghost predicate LockCovers(log: Log, k: int)
    requires 0 <= k < |log|
  {
    forall m :: 0 <= m < k && log[m].voter == log[k].voter ==> JustifyView(log[m].hash) <= log[k].lock.view
  }

  ghost predicate HonestCast(s: Setting, log: Log, k: int)
    requires s.c.Valid() && 0 <= k < |log|
  {
    && Votable(log[k].hash, log[k].view)
    && Justified(s, log[..k], log[k].hash.block.parent, JustifyView(log[k].hash))
    && Justified(s, log[..k], log[k].lock.hash, log[k].lock.view)
    && SafeAgainst(log[k].lock, log[k].hash)
    && OwnOrder(log, k)
    && LockCovers(log, k)
  }

  ghost predicate LogInv(s: Setting, log: Log)
    requires s.c.Valid()
  {
    && CastersInCommittee(s, log)
    && forall k :: 0 <= k < |log| && s.Honest(log[k].voter) ==> HonestCast(s, log, k)
  }

  lemma PrefixLogInv(s: Setting, log: Log, t: nat)
    requires s.c.Valid() && LogInv(s, log) && t <= |log|
    ensures LogInv(s, log[..t])
  {
    forall k | 0 <= k < t && s.Honest(log[..t][k].voter) ensures HonestCast(s, log[..t], k) {
      assert HonestCast(s, log, k);
      assert log[..t][..k] == log[..k];
    }
  }

  // --- Quorum arguments ---

  lemma VotersInCommittee(s: Setting, log: Log, h: Hash, view: int)
    requires CastersInCommittee(s, log)
    ensures Voters(log, h, view) <= Indices(s.c.n)
  {
  }

  /** Some honest validator voted for each of two certified hashes. */
  lemma CommonVoter(s: Setting, logA: Log, h1: Hash, v1: int, logB: Log, h2: Hash, v2: int) returns (i: int)
    requires s.Valid() && CastersInCommittee(s, logA) && CastersInCommittee(s, logB)
    requires Certified(s, logA, h1, v1) && Certified(s, logB, h2, v2)
    ensures s.Honest(i) && HasCast(logA, i, h1, v1) && HasCast(logB, i, h2, v2)
  {
    VotersInCommittee(s, logA, h1, v1);
    VotersInCommittee(s, logB, h2, v2);
    i := SharedHonest(s.c, s.byz, Voters(logA, h1, v1), Voters(logB, h2, v2));
    VotersAre(logA, h1, v1);
    VotersAre(logB, h2, v2);
  }

  /** The shortest prefix of the log in which h is certified. */
  lemma {:induction false} FirstCertified(s: Setting, log: Log, h: Hash, view: int) returns (t: nat)
    requires s.c.Valid() && Certified(s, log, h, view)
    ensures t <= |log| && Certified(s, log[..t], h, view)
    ensures forall u :: 0 <= u < t ==> !Certified(s, log[..u], h, view)
  {
    t := 0;
    assert log[..|log|] == log;
    while !Certified(s, log[..t], h, view)
      invariant t <= |log|
      invariant forall u :: 0 <= u < t ==> !Certified(s, log[..u], h, view)
      decreases |log| - t
    {
      t := t + 1;
    }
  }

  // --- Certification facts ---

  /** What a certified hash is: a block of that view, with a certified parent of a strictly smaller view.
      The comparison of the two views is made nowhere in the code. */
  lemma CertifiedShape(s: Setting, log: Log, h: Hash, view: int)
    requires s.Valid() && LogInv(s, log) && Certified(s, log, h, view)
    ensures Votable(h, view)
    ensures Justified(s, log, h.block.parent, JustifyView(h))
    ensures JustifyView(h) < view
  {
    var t := FirstCertified(s, log, h, view);
    PrefixLogInv(s, log, t);
    var early := log[..t];
    var i := CommonVoter(s, early, h, view, early, h, view);
    var k :| 0 <= k < t && early[k].voter == i && early[k].hash == h && early[k].view == view;
    var k0 := FirstHonestCast(s, log, h, view, k);
    assert HonestCast(s, log, k0);
    var parent, u := h.block.parent, JustifyView(h);
    assert log[..k0] <= log;
    if Certified(s, log[..k0], parent, u) {
      CertifiedMonotone(s, log[..k0], log, parent, u);
      ParentNotYounger(s, log, h, view, k0);
    }
  }

  /** The first honest vote for h. */
  lemma FirstHonestCast(s: Setting, log: Log, h: Hash, view: int, k: nat) returns (k0: nat)
    requires k < |log| && s.Honest(log[k].voter) && log[k].hash == h && log[k].view == view
    ensures k0 <= k && s.Honest(log[k0].voter) && log[k0].hash == h && log[k0].view == view
    ensures forall m :: 0 <= m < k0 && s.Honest(log[m].voter) ==> !(log[m].hash == h && log[m].view == view)
  {
    k0 := 0;
    while !(s.Honest(log[k0].voter) && log[k0].hash == h && log[k0].view == view)
      invariant k0 <= k
      invariant forall m :: 0 <= m < k0 && s.Honest(log[m].voter) ==> !(log[m].hash == h && log[m].view == view)
      decreases k - k0
    {
      k0 := k0 + 1;
    }
  }

  lemma ParentNotYounger(s: Setting, log: Log, h: Hash, view: int, k0: nat)
    requires s.Valid() && LogInv(s, log) && Certified(s, log, h, view) && Votable(h, view)
    requires k0 < |log|
    requires forall m :: 0 <= m < k0 && s.Honest(log[m].voter) ==> !(log[m].hash == h && log[m].view == view)
    requires Certified(s, log[..k0], h.block.parent, JustifyView(h))
    ensures JustifyView(h) < view
  {
    var parent, u := h.block.parent, JustifyView(h);
    PrefixLogInv(s, log, k0);
    var j := CommonVoter(s, log[..k0], parent, u, log, h, view);
    var m :| 0 <= m < k0 && log[m].voter == j && log[m].hash == parent && log[m].view == u;
    var k :| 0 <= k < |log| && log[k].voter == j && log[k].hash == h && log[k].view == view;
    assert k >= k0;
    assert HonestCast(s, log, k);
    ParentNotSelf(h.block);
  }

  /** A justified hash is genesis at view 0 or a certified block of that view, so its view is its own. */
  lemma JustifiedShape(s: Setting, log: Log, h: Hash, view: int)
    requires s.Valid() && LogInv(s, log) && Justified(s, log, h, view)
    ensures h.HashOf? && h.block.view == view >= 0
    ensures view == 0 <==> h == GENESIS
    ensures h != GENESIS ==> Certified(s, log, h, view)
  {
    if Certified(s, log, h, view) {
      CertifiedShape(s, log, h, view);
    }
  }

  /** At most one block per view is ever certified. */
  lemma UniquePerView(s: Setting, log: Log, h1: Hash, h2: Hash, view: int)
    requires s.Valid() && LogInv(s, log) && Justified(s, log, h1, view) && Justified(s, log, h2, view)
    ensures h1 == h2
  {
    JustifiedShape(s, log, h1, view);
    JustifiedShape(s, log, h2, view);
    if view != 0 {
      var i := CommonVoter(s, log, h1, view, log, h2, view);
      var k1 :| 0 <= k1 < |log| && log[k1].voter == i && log[k1].hash == h1 && log[k1].view == view;
      var k2 :| 0 <= k2 < |log| && log[k2].voter == i && log[k2].hash == h2 && log[k2].view == view;
      assert HonestCast(s, log, k1) && HonestCast(s, log, k2);
    }
  }

  /** Every ancestor of a justified block, above the root sentinel, is justified, and its view is smaller
      unless it is the block itself; the history starts at genesis. */
  lemma {:induction false} AncestorsJustified(s: Setting, log: Log, h: Hash, view: int)
    requires s.Valid() && LogInv(s, log) && Justified(s, log, h, view)
    ensures |Path(h)| >= 2 && Path(h)[0] == NO_PARENT && Path(h)[1] == GENESIS
    ensures forall k :: 1 <= k < |Path(h)| ==>
      Path(h)[k].HashOf? && Justified(s, log, Path(h)[k], Path(h)[k].block.view) && Path(h)[k].block.view <= view
    ensures forall k :: 1 <= k < |Path(h)| - 1 ==> Path(h)[k].block.view < view
    decreases h
  {
    JustifiedShape(s, log, h, view);
    if h == GENESIS {
      assert Path(NO_PARENT) == [NO_PARENT];
      assert Path(GENESIS) == [NO_PARENT, GENESIS];
    } else {
      CertifiedShape(s, log, h, view);
      var parent, u := h.block.parent, JustifyView(h);
      JustifiedShape(s, log, parent, u);
      AncestorsJustified(s, log, parent, u);
      assert Path(h) == Path(parent) + [h];
    }
  }

  // --- Irrevocability ---

  /** h is a block whose child in the very next view is certified (or genesis): what a commit establishes. */
  ghost predicate Supports(s: Setting, log: Log, h: Hash, child: Block)
    requires s.c.Valid()
  {
    Certified(s, log, HashOf(child), child.view) && child.parent == h && h.HashOf? && child.view == h.block.view + 1
  }

  ghost predicate TwoChain(s: Setting, log: Log, h: Hash)
    requires s.c.Valid()
  {
    h == GENESIS || exists child: Block :: Supports(s, log, h, child)
  }

  lemma TwoChainMonotone(s: Setting, log: Log, more: Log, h: Hash)
    requires s.c.Valid() && log <= more && TwoChain(s, log, h)
    ensures TwoChain(s, more, h)
  {
    if h != GENESIS {
      var child: Block :| Supports(s, log, h, child);
      CertifiedMonotone(s, log, more, HashOf(child), child.view);
      assert Supports(s, more, h, child);
    }
  }

  lemma SupportedJustified(s: Setting, log: Log, h: Hash, child: Block)
    requires s.Valid() && LogInv(s, log) && Supports(s, log, h, child)
    ensures Justified(s, log, h, h.block.view) && JustifyView(HashOf(child)) == h.block.view
  {
    CertifiedShape(s, log, HashOf(child), child.view);
    JustifiedShape(s, log, h, JustifyView(HashOf(child)));
  }

  lemma TwoChainJustified(s: Setting, log: Log, h: Hash)
    requires s.Valid() && LogInv(s, log) && TwoChain(s, log, h)
    ensures h.HashOf? && Justified(s, log, h, h.block.view)
  {
    if h != GENESIS {
      var child: Block :| Supports(s, log, h, child);
      SupportedJustified(s, log, h, child);
    }
  }

  /** Votes of an honest validator that go up in view also go up in the log. */
  lemma CastsInOrder(s: Setting, log: Log, m: nat, k: nat)
    requires s.c.Valid() && LogInv(s, log) && m < |log| && k < |log|
    requires log[m].voter == log[k].voter && s.Honest(log[k].voter) && log[m].view < log[k].view
    ensures m < k
  {
    assert HonestCast(s, log, m) && HonestCast(s, log, k);
  }

  /** Some honest validator voted for the child of b0 and, before c was certified, for c. */
  lemma EarlyVoter(s: Setting, log: Log, child: Hash, v: int, c: Hash, w: int) returns (m: nat, k: nat)
    requires s.Valid() && LogInv(s, log) && Certified(s, log, child, v) && Certified(s, log, c, w)
    ensures m < |log| && k < |log| && log[m].voter == log[k].voter && s.Honest(log[k].voter)
    ensures log[m].hash == child && log[m].view == v && log[k].hash == c && log[k].view == w
    ensures forall u :: 0 <= u <= k ==> !Certified(s, log[..u], c, w)
  {
    var t := FirstCertified(s, log, c, w);
    var early := log[..t];
    PrefixLogInv(s, log, t);
    var i := CommonVoter(s, early, c, w, log, child, v);
    k :| 0 <= k < t && early[k].voter == i && early[k].hash == c && early[k].view == w;
    m :| 0 <= m < |log| && log[m].voter == i && log[m].hash == child && log[m].view == v;
  }

  /** An honest validator that voted for the child of b0 and later for c was, when it voted for c, locked at
      b0's view or later; and c was not yet certified, so the lock named some other block. */
  lemma LockedVoter(s: Setting, log: Log, b0: Hash, child: Block, c: Hash, w: int) returns (k: nat)
    requires s.Valid() && LogInv(s, log) && Supports(s, log, b0, child)
    requires Certified(s, log, c, w) && w > child.view
    ensures k < |log| && s.Honest(log[k].voter) && log[k].hash == c && log[k].view == w && HonestCast(s, log, k)
    ensures log[k].lock.view >= b0.block.view && log[k].lock.hash != c
    ensures Justified(s, log, log[k].lock.hash, log[k].lock.view)
  {
    SupportedJustified(s, log, b0, child);
    var m, k' := EarlyVoter(s, log, HashOf(child), child.view, c, w);
    k := k';
    CastsInOrder(s, log, m, k);
    assert HonestCast(s, log, k);
    LockNotSelf(s, log, k);
    assert log[..k] <= log;
    if Certified(s, log[..k], log[k].lock.hash, log[k].lock.view) {
      CertifiedMonotone(s, log[..k], log, log[k].lock.hash, log[k].lock.view);
    }
  }

  lemma LockNotSelf(s: Setting, log: Log, k: nat)
    requires s.Valid() && LogInv(s, log) && k < |log| && HonestCast(s, log, k)
    requires !Certified(s, log[..k], log[k].hash, log[k].view)
    ensures log[k].lock.hash != log[k].hash
  {
    PrefixLogInv(s, log, k);
    var lock := log[k].lock;
    if lock.hash == log[k].hash {
      JustifiedShape(s, log[..k], lock.hash, lock.view);
      assert false;
    }
  }

  /** Commit is irrevocable: once b0's child in the next view is certified, every justified block of b0's
      view or later extends b0.  Induction on the view. */
  lemma {:induction false} Irrevocable(s: Setting, log: Log, b0: Hash, child: Block, c: Hash, w: int)
    requires s.Valid() && LogInv(s, log) && Supports(s, log, b0, child)
    requires Justified(s, log, c, w) && w >= b0.block.view
    ensures IsAncestor(b0, c)
    decreases w - b0.block.view
  {
    var v := b0.block.view;
    SupportedJustified(s, log, b0, child);
    JustifiedShape(s, log, b0, v);
    JustifiedShape(s, log, c, w);
    if w == v {
      UniquePerView(s, log, b0, c, v);
    } else if w == v + 1 {
      UniquePerView(s, log, HashOf(child), c, w);
      AncestorTrans(b0, b0, c);
    } else {
      var k := LockedVoter(s, log, b0, child, c, w);
      CertifiedShape(s, log, c, w);
      var lock := log[k].lock;
      if IsAncestor(lock.hash, c.block.parent) {
        LockBelow(s, log, lock, c, w);
        Irrevocable(s, log, b0, child, lock.hash, lock.view);
        AncestorTrans(b0, lock.hash, c.block.parent);
      } else {
        Irrevocable(s, log, b0, child, c.block.parent, JustifyView(c));
      }
    }
  }

  lemma LockBelow(s: Setting, log: Log, lock: QC, c: Hash, w: int)
    requires s.Valid() && LogInv(s, log) && Certified(s, log, c, w) && Votable(c, w)
    requires Justified(s, log, lock.hash, lock.view) && IsAncestor(lock.hash, c.block.parent)
    ensures lock.view < w
  {
    CertifiedShape(s, log, c, w);
    JustifiedShape(s, log, lock.hash, lock.view);
    AncestorsJustified(s, log, c.block.parent, JustifyView(c));
  }

  /** Of two committed heads, the one of the smaller view is an ancestor of the other. */
  lemma TwoChainsAgree(s: Setting, log: Log, a: Hash, b: Hash)
    requires s.Valid() && LogInv(s, log) && TwoChain(s, log, a) && TwoChain(s, log, b)
    ensures a.HashOf? && b.HashOf?
    ensures a.block.view <= b.block.view ==> Path(a) <= Path(b)
  {
    TwoChainJustified(s, log, a);
    TwoChainJustified(s, log, b);
    if a.block.view <= b.block.view {
      if a == GENESIS {
        AncestorsJustified(s, log, b, b.block.view);
        assert IsAncestor(GENESIS, b);
      } else {
        var child: Block :| Supports(s, log, a, child);
        Irrevocable(s, log, a, child, b, b.block.view);
      }
      AncestorPrefix(a, b);
    }
  }
}
