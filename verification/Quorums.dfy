/** Quorum intersection, and how signer positions relate to validators. */
module Quorums {
  import opened Wrappers
  import opened HotStuffTypes
  import opened SetFacts

  /** The side condition on the committee size: `Committee` also accepts n = 3f+2 and n = 3f+3. */
  predicate ExactSize(c: Committee)
    requires c.Valid()
  {
    c.n == 3 * c.F() + 1
  }

  ghost predicate QuorumsOverlap(c: Committee)
    requires c.Valid()
  {
    forall a: set<int>, b: set<int> ::
      a <= Indices(c.n) && b <= Indices(c.n) && |a| >= c.QuorumSize() && |b| >= c.QuorumSize() ==> |a * b| > c.F()
  }

  lemma QuorumSpan(c: Committee)
    requires c.Valid()
    ensures 0 < c.QuorumSize() < c.n <= 2 * c.QuorumSize()
    ensures 2 * c.QuorumSize() - c.n <= c.F() <==> !ExactSize(c)
  {
  }

  /** Two quorums that overlap in at most f validators, for the sizes n = 3f+2 and n = 3f+3. */
  lemma BarelyOverlapping(c: Committee) returns (a: set<int>, b: set<int>)
    requires c.Valid() && !ExactSize(c)
    ensures a <= Indices(c.n) && b <= Indices(c.n)
    ensures |a| == |b| == c.QuorumSize() && |a * b| <= c.F()
  {
    QuorumSpan(c);
    a, b := TwoEnds(c.n, c.QuorumSize());
  }

  /** Any two quorums share more than f validators exactly when n = 3f+1. */
  lemma QuorumsOverlapIffExactSize(c: Committee)
    requires c.Valid()
    ensures QuorumsOverlap(c) <==> ExactSize(c)
  {
    if ExactSize(c) {
      forall a: set<int>, b: set<int> |
        a <= Indices(c.n) && b <= Indices(c.n) && |a| >= c.QuorumSize() && |b| >= c.QuorumSize()
        ensures |a * b| > c.F()
      {
        OverlapSize(a, b, c.n);
      }
    } else {
      var a, b := BarelyOverlapping(c);
    }
  }

  /** Two quorums share a validator outside any set of at most f. */
  lemma SharedHonest(c: Committee, byz: set<int>, a: set<int>, b: set<int>) returns (i: int)
    requires c.Valid() && ExactSize(c) && |byz| <= c.F()
    requires a <= Indices(c.n) && b <= Indices(c.n) && |a| >= c.QuorumSize() && |b| >= c.QuorumSize()
    ensures i in a && i in b && i !in byz
  {
    QuorumsOverlapIffExactSize(c);
    i := PickOutside(a * b, byz);
  }

  // --- From signer positions to validators ---

  /** The side condition on positions: the code itself accepts any position a list index accepts. */
  predicate InRange(c: Committee, signers: seq<int>) {
    forall i :: 0 <= i < |signers| ==> 0 <= signers[i] < c.n
  }

  /** The validators whose keys the listed positions select. */
  function Validators(c: Committee, signers: seq<int>): (r: set<int>) {
    if signers == [] then {}
    else
      var rest := Validators(c, signers[1..]);
      match c.KeyAt(signers[0])
      case Some(k) => {k} + rest
      case None => rest
  }

  /** No two positions select the same key. */
  predicate NoAliases(c: Committee, signers: seq<int>) {
    forall i, j :: 0 <= i < j < |signers| ==> c.KeyAt(signers[i]) != c.KeyAt(signers[j])
  }

  lemma {:induction false} ValidatorsAre(c: Committee, signers: seq<int>)
    ensures forall k :: k in Validators(c, signers) <==> exists i :: 0 <= i < |signers| && c.KeyAt(signers[i]) == Some(k)
  {
    if signers != [] {
      var rest := signers[1..];
      ValidatorsAre(c, rest);
      forall k ensures k in Validators(c, signers) <==> exists i :: 0 <= i < |signers| && c.KeyAt(signers[i]) == Some(k) {
        if k in Validators(c, rest) {
          var i :| 0 <= i < |rest| && c.KeyAt(rest[i]) == Some(k);
          assert c.KeyAt(signers[i + 1]) == Some(k);
        }
        if i :| 0 <= i < |signers| && c.KeyAt(signers[i]) == Some(k) {
          if i > 0 {
            assert c.KeyAt(rest[i - 1]) == Some(k);
          }
        }
      }
    }
  }

  /** A list of valid positions names one validator per position exactly when no two positions alias. */
  lemma {:induction false} OneValidatorPerSigner(c: Committee, signers: seq<int>)
    requires forall i :: 0 <= i < |signers| ==> c.KeyAt(signers[i]).Some?
    ensures |Validators(c, signers)| <= |signers|
    ensures |Validators(c, signers)| == |signers| <==> NoAliases(c, signers)
  {
    if signers != [] {
      var rest, k := signers[1..], c.KeyAt(signers[0]);
      assert forall i :: 0 <= i < |rest| ==> c.KeyAt(rest[i]) == c.KeyAt(signers[i + 1]);
      OneValidatorPerSigner(c, rest);
      ValidatorsAre(c, rest);
      if k.value in Validators(c, rest) {
        var i :| 0 <= i < |rest| && c.KeyAt(rest[i]) == k;
        assert c.KeyAt(signers[0]) == c.KeyAt(signers[i + 1]);
        assert Validators(c, signers) == Validators(c, rest);
      } else {
        forall i | 0 <= i < |rest| ensures c.KeyAt(rest[i]) != k {
          assert c.KeyAt(rest[i]).value in Validators(c, rest);
        }
        if NoAliases(c, rest) {
          forall i, j | 0 <= i < j < |signers| ensures c.KeyAt(signers[i]) != c.KeyAt(signers[j]) {
            assert c.KeyAt(signers[j]) == c.KeyAt(rest[j - 1]);
            if i > 0 {
              assert c.KeyAt(signers[i]) == c.KeyAt(rest[i - 1]);
            }
          }
        }
        if NoAliases(c, signers) {
          forall i, j | 0 <= i < j < |rest| ensures c.KeyAt(rest[i]) != c.KeyAt(rest[j]) {
            assert c.KeyAt(rest[i]) == c.KeyAt(signers[i + 1]) && c.KeyAt(rest[j]) == c.KeyAt(signers[j + 1]);
          }
        }
      }
    }
  }

  lemma {:induction false} PartsAre(c: Committee, signers: seq<int>, msg: Message)
    ensures ExpectedParts(c, signers, msg).Some? <==> forall i :: 0 <= i < |signers| ==> c.KeyAt(signers[i]).Some?
    ensures ExpectedParts(c, signers, msg).Some? ==>
      forall k :: k in Validators(c, signers) ==> Sig(k, msg) in ExpectedParts(c, signers, msg).value
    ensures ExpectedParts(c, signers, msg).Some? ==>
      forall s :: s in ExpectedParts(c, signers, msg).value ==> s.Sig? && s.msg == msg && s.key in Validators(c, signers)
  {
    if signers != [] {
      var rest := signers[1..];
      PartsAre(c, rest, msg);
      assert forall i :: 0 <= i < |rest| ==> rest[i] == signers[i + 1];
      if ExpectedParts(c, signers, msg).None? && c.KeyAt(signers[0]).Some? {
        var i :| 0 <= i < |rest| && c.KeyAt(rest[i]).None?;
        assert c.KeyAt(signers[i + 1]).None?;
      }
      if ExpectedParts(c, signers, msg).Some? {
        forall i | 0 <= i < |signers| ensures c.KeyAt(signers[i]).Some? {
          if i > 0 {
            assert c.KeyAt(rest[i - 1]).Some?;
          }
        }
      }
    }
  }

  lemma InRangeHasNoAliases(c: Committee, signers: seq<int>)
    requires InRange(c, signers) && NoRepeats(signers)
    ensures NoAliases(c, signers)
  {
    forall i, j | 0 <= i < j < |signers| ensures c.KeyAt(signers[i]) != c.KeyAt(signers[j]) {
      assert c.KeyAt(signers[i]) == Some(signers[i]) && c.KeyAt(signers[j]) == Some(signers[j]);
    }
  }

  lemma {:induction false} ValidatorsInCommittee(c: Committee, signers: seq<int>)
    ensures Validators(c, signers) <= Indices(c.n)
  {
    if signers != [] {
      ValidatorsInCommittee(c, signers[1..]);
    }
  }

  /** Positions in [0, n) without repeats name a quorum of distinct validators. */
  lemma InRangeSignersAreQuorum(qc: QC, c: Committee)
    requires c.Valid() && Verifies(qc, c) && InRange(c, qc.signers)
    ensures Validators(c, qc.signers) <= Indices(c.n)
    ensures |Validators(c, qc.signers)| >= c.QuorumSize()
  {
    ValidatorsInCommittee(c, qc.signers);
    InRangeHasNoAliases(c, qc.signers);
    assert |qc.signers| >= c.QuorumSize();
    assert forall i :: 0 <= i < |qc.signers| ==> c.KeyAt(qc.signers[i]) == Some(qc.signers[i]);
    OneValidatorPerSigner(c, qc.signers);
  }

  /** The repeat check alone does not ensure a quorum of distinct validators: on a list of four keys the positions
      -1 and 3 select the same key, so this certificate verifies with the signatures of two validators. */
  lemma AliasedCertificate(c: Committee, hash: Hash, view: int) returns (qc: QC)
    requires c == Committee(4)
    ensures Verifies(qc, c) && NoRepeats(qc.signers)
    ensures !NoAliases(c, qc.signers) && |Validators(c, qc.signers)| < c.QuorumSize()
  {
    var msg := VoteMessage(view, hash);
    var signers := [-1, 0, 3];
    assert signers[1..] == [0, 3] && [0, 3][1..] == [3] && [3][1..] == [];
    var parts := ExpectedParts(c, signers, msg);
    assert ExpectedParts(c, [3], msg) == Some(multiset{Sig(3, msg)} + multiset{});
    assert ExpectedParts(c, [0, 3], msg).Some?;
    qc := QC(hash, view, signers, Agg(parts.value));
    assert c.KeyAt(-1) == c.KeyAt(3) == Some(3);
    assert !NoAliases(c, signers) by {
      assert c.KeyAt(signers[0]) == c.KeyAt(signers[2]);
    }
    PartsAre(c, signers, msg);
    OneValidatorPerSigner(c, signers);
  }
}
