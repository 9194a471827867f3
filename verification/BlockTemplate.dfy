/** The block template a miner fills in, and exactly when a solved template is a block the node accepts. */
module BlockTemplate {
  import opened Wrappers
  import opened LedgerTypes
  import opened Ledger
  import opened BlockIndependence
  import opened ChainRules
  import opened ChainNode
  import opened ChainRuns
  import opened FixedPoint
  import Merkle

  /** A mined block with these transactions on the tip, at the current target. */
  function BlockOf(n: NodeState, txs: seq<Tx>, timestamp: int, nonce: int): ChainBlock
    requires n.chain != []
  {
    var tip := Tip(n.chain);
    ChainBlock(Header(tip.header.index + 1, timestamp, Merkle.MerkleRoot(txs), tip.Hash(), n.powTarget, nonce), txs, None)
  }

  /** The reward of the next block. */
  function NextReward(n: NodeState): int
    requires n.chain != []
  {
    var height := Tip(n.chain).header.index + 1;
    RewardAt(if height < 0 then 0 else height)
  }

  function AllFees(txs: seq<Tx>): int {
    if txs == [] then 0 else txs[0].body.fee + AllFees(txs[1..])
  }

  /** One coinbase paying the reward and every included fee, then the included transactions. */
  function TemplateTxs(n: NodeState, miner: Addr, included: seq<Tx>, time: int): seq<Tx>
    requires n.chain != []
  {
    [Tx(TxBody(Network, miner, NextReward(n) + AllFees(included), 0, time, None), false)] + included
  }

  /** `build_candidate_block`, with the nonce a miner found and the times the two objects were made. */
  function Candidate(n: NodeState, miner: Addr, included: seq<Tx>, coinbaseTime: int, timestamp: int, nonce: int): ChainBlock
    requires n.chain != []
  {
    BlockOf(n, TemplateTxs(n, miner, included, coinbaseTime), timestamp, nonce)
  }

  predicate Solved(p: Primitives, now: int, n: NodeState, block: ChainBlock)
    requires n.chain != []
  {
    TimestampOk(now, n.chain, block.header.timestamp) && p.powValue(block.Hash()) < n.powTarget
  }

  /** Transactions that may stand in the next block: valid, each once, not confirmed before, ops affordable. */
  predicate Includable(n: NodeState, included: seq<Tx>)
    requires n.chain != []
  {
    && AllTxValid(included) && NoRepeats(included) && NoReplays(n.chain, included)
    && OpsPass(n.books, included)
    && ((exists i :: 0 <= i < |included| && included[i].body.op.Some?) ==>
          Tip(n.chain).header.index + 1 >= ACTIVATION_HEIGHT)
  }

  /** A coinbase among pending transactions adds its amount, and takes its fee twice. */
  predicate PendingCoinbasesCancel(included: seq<Tx>) {
    -COINBASE_TOLERANCE <= CoinbaseSum(included) + AllFees(included) - Fees(included) <= COINBASE_TOLERANCE
  }

  // --- The checks, with and without the leading coinbase ---

  lemma CoinbaseFirst(coinbase: Tx, txs: seq<Tx>)
    requires coinbase.body.sender == Network
    ensures CoinbaseSum([coinbase] + txs) == coinbase.body.amount + CoinbaseSum(txs)
    ensures Fees([coinbase] + txs) == Fees(txs)
  {
    assert ([coinbase] + txs)[1..] == txs;
  }

  lemma RewardIff(n: NodeState, miner: Addr, included: seq<Tx>, time: int, timestamp: int, nonce: int)
    requires n.chain != []
    ensures RewardOk(Candidate(n, miner, included, time, timestamp, nonce)) <==> PendingCoinbasesCancel(included)
  {
    var txs := TemplateTxs(n, miner, included, time);
    CoinbaseFirst(txs[0], included);
    assert txs[0].body.sender == Network;
  }

  lemma ChecksIff(books: Books, coinbase: Tx, txs: seq<Tx>)
    requires coinbase.body.sender == Network && coinbase.body.op.None?
    ensures AllTxValid([coinbase] + txs) <==> AllTxValid(txs)
    ensures OpsPass(books, [coinbase] + txs) == OpsPass(books, txs)
    ensures (exists i :: 0 <= i < |[coinbase] + txs| && ([coinbase] + txs)[i].body.op.Some?)
      <==> exists i :: 0 <= i < |txs| && txs[i].body.op.Some?
  {
    var all := [coinbase] + txs;
    assert all[1..] == txs;
    assert forall i :: 0 <= i < |txs| ==> all[i + 1] == txs[i];
    if i :| 0 <= i < |txs| && txs[i].body.op.Some? {
      assert all[i + 1].body.op.Some?;
    }
    if AllTxValid(all) {
      forall i | 0 <= i < |txs| ensures TxValid(txs[i]) {
        assert TxValid(all[i + 1]);
      }
    }
  }

  lemma FreshIff(before: seq<ChainBlock>, coinbase: Tx, txs: seq<Tx>)
    requires coinbase.body.sender == Network
    ensures NoRepeats([coinbase] + txs) <==> NoRepeats(txs)
    ensures NoReplays(before, [coinbase] + txs) <==> NoReplays(before, txs)
  {
    var all := [coinbase] + txs;
    assert forall i :: 1 <= i < |all| ==> all[i] == txs[i - 1];
    if NoRepeats(all) {
      forall i, j | 0 <= i < j < |txs| && txs[i].body.sender != Network ensures txs[i].body != txs[j].body {
        assert all[i + 1] == txs[i] && all[j + 1] == txs[j];
      }
    }
    if NoReplays(before, all) {
      forall i | 0 <= i < |txs| && txs[i].body.sender != Network ensures !Confirmed(before, txs[i].body) {
        assert all[i + 1] == txs[i];
      }
    }
  }

  lemma ExtendsIff(p: Primitives, now: int, n: NodeState, txs: seq<Tx>, timestamp: int, nonce: int)
    requires n.chain != []
    ensures var block := BlockOf(n, txs, timestamp, nonce);
      Extends(p, now, n.chain, n.books, block) <==>
        (Solved(p, now, n, block) && RewardOk(block) && NoRepeats(txs) && NoReplays(n.chain, txs))
    ensures BlockOf(n, txs, timestamp, nonce).txs == txs
    ensures BlockOf(n, txs, timestamp, nonce).header.target == TargetOfKind(n, BlockOf(n, txs, timestamp, nonce))
    ensures BlockOf(n, txs, timestamp, nonce).header.index == Tip(n.chain).header.index + 1
  {
  }

  /** A template is admissible if and only if it is solved in time, what it includes may stand in the next block, and
      coinbases among the pending transactions, if any, cancel out. */
  lemma CandidateAdmissibleIff(p: Primitives, now: int, n: NodeState, miner: Addr, included: seq<Tx>, coinbaseTime: int,
                               timestamp: int, nonce: int)
    requires n.chain != []
    ensures Admissible(p, now, n, Candidate(n, miner, included, coinbaseTime, timestamp, nonce)) <==>
      (&& Solved(p, now, n, Candidate(n, miner, included, coinbaseTime, timestamp, nonce))
       && Includable(n, included) && PendingCoinbasesCancel(included))
  {
    var coinbase := TemplateTxs(n, miner, included, coinbaseTime)[0];
    RewardIff(n, miner, included, coinbaseTime, timestamp, nonce);
    ChecksIff(n.books, coinbase, included);
    FreshIff(n.chain, coinbase, included);
    ExtendsIff(p, now, n, TemplateTxs(n, miner, included, coinbaseTime), timestamp, nonce);
  }

  // --- The template of a healthy node ---

  lemma {:induction false} NoCoinbases(txs: seq<Tx>)
    requires forall i :: 0 <= i < |txs| ==> txs[i].body.sender != Network
    ensures CoinbaseSum(txs) == 0 && AllFees(txs) == Fees(txs)
  {
    if txs != [] {
      NoCoinbases(txs[1..]);
    }
  }

  lemma {:induction false} FeesNonNegative(txs: seq<Tx>)
    requires AllTxValid(txs)
    ensures Fees(txs) >= 0
  {
    if txs != [] {
      assert TxValid(txs[0]);
      FeesNonNegative(txs[1..]);
    }
  }

  lemma TemplatePays(n: NodeState, miner: Addr, included: seq<Tx>, time: int)
    requires n.chain != [] && AllTxValid(included)
    requires forall i :: 0 <= i < |included| ==> included[i].body.sender != Network
    ensures NoClawback(TemplateTxs(n, miner, included, time))
  {
    FeesNonNegative(included);
    NoCoinbases(included);
    var height := Tip(n.chain).header.index + 1;
    RewardBounds(if height < 0 then 0 else height);
    var txs := TemplateTxs(n, miner, included, time);
    assert forall i :: 1 <= i < |txs| ==> txs[i] == included[i - 1];
  }

  /** On a healthy node a solved template of includable signed transactions is accepted, and leaves the node healthy,
      when its miner is not a pool that an included op reads. */
  lemma MinedBlockAccepted(p: Primitives, now: int, limit: int, n: NodeState, miner: Addr, included: seq<Tx>,
                           coinbaseTime: int, timestamp: int, nonce: int)
    requires Healthy(p, limit, n) && now <= limit && n.chain != [] && Includable(n, included)
    requires forall i :: 0 <= i < |included| ==> included[i].body.sender != Network
    requires Solved(p, now, n, Candidate(n, miner, included, coinbaseTime, timestamp, nonce))
    requires Independent(TemplateTxs(n, miner, included, coinbaseTime))
    ensures var r := Accept(p, now, n, Candidate(n, miner, included, coinbaseTime, timestamp, nonce));
      r.1 == Accepted && Healthy(p, limit, r.0)
  {
    var block := Candidate(n, miner, included, coinbaseTime, timestamp, nonce);
    NoCoinbases(included);
    CandidateAdmissibleIff(p, now, n, miner, included, coinbaseTime, timestamp, nonce);
    TemplatePays(n, miner, included, coinbaseTime);
    SubmitHealthy(p, limit, n, block, now);
  }

  // --- What the source includes: the highest fees first ---

  /** Python's stable sort by falling fee: among equal fees the earlier stays first. */
  function InsertByFee(tx: Tx, sorted: seq<Tx>): seq<Tx> {
    if sorted == [] || tx.body.fee >= sorted[0].body.fee then [tx] + sorted
    else [sorted[0]] + InsertByFee(tx, sorted[1..])
  }

  function ByFee(pending: seq<Tx>): seq<Tx> {
    if pending == [] then [] else InsertByFee(pending[0], ByFee(pending[1..]))
  }

  function Selected(pending: seq<Tx>, limit: nat): seq<Tx> {
    var sorted := ByFee(pending);
    if |sorted| <= limit then sorted else sorted[..limit]
  }

  ghost predicate DistinctBodies(txs: seq<Tx>) {
    forall i, j :: 0 <= i < j < |txs| ==> txs[i].body != txs[j].body
  }

  ghost predicate FeesFall(txs: seq<Tx>) {
    forall i, j :: 0 <= i < j < |txs| ==> txs[i].body.fee >= txs[j].body.fee
  }

  lemma {:induction false} InsertMembers(tx: Tx, sorted: seq<Tx>)
    ensures forall x :: x in InsertByFee(tx, sorted) <==> x == tx || x in sorted
    ensures FeesFall(sorted) ==> FeesFall(InsertByFee(tx, sorted))
    ensures DistinctBodies(sorted) && !Contains(sorted, tx.body) ==> DistinctBodies(InsertByFee(tx, sorted))
  {
    if sorted != [] && tx.body.fee < sorted[0].body.fee {
      var rest, inserted := sorted[1..], InsertByFee(tx, sorted[1..]);
      InsertMembers(tx, rest);
      assert sorted == [sorted[0]] + rest;
      forall k | 0 <= k < |inserted| ensures FeesFall(sorted) ==> sorted[0].body.fee >= inserted[k].body.fee {
        assert inserted[k] in inserted;
      }
      if DistinctBodies(sorted) && !Contains(sorted, tx.body) {
        assert !Contains(rest, tx.body);
        forall k | 0 <= k < |inserted| ensures sorted[0].body != inserted[k].body {
          assert inserted[k] in inserted;
        }
      }
    }
  }

  lemma {:induction false} ByFeeSorts(pending: seq<Tx>)
    ensures FeesFall(ByFee(pending)) && forall x :: x in ByFee(pending) <==> x in pending
    ensures DistinctBodies(pending) ==> DistinctBodies(ByFee(pending))
  {
    if pending != [] {
      var rest := pending[1..];
      ByFeeSorts(rest);
      InsertMembers(pending[0], ByFee(rest));
      assert pending == [pending[0]] + rest;
      if DistinctBodies(pending) {
        var sorted := ByFee(rest);
        forall k | 0 <= k < |sorted| ensures sorted[k].body != pending[0].body {
          assert sorted[k] in sorted;
          assert sorted[k] in rest;
        }
      }
    }
  }

  // --- The selection, exactly ---

  /** Of two pending transactions the one at i goes first: its fee is higher, or equal and it came earlier. */
  predicate Before(pending: seq<Tx>, i: int, j: int)
    requires 0 <= i < |pending| && 0 <= j < |pending|
  {
    pending[i].body.fee > pending[j].body.fee || (pending[i].body.fee == pending[j].body.fee && i < j)
  }

  ghost predicate AllWithin(places: seq<int>, n: nat) {
    forall k :: 0 <= k < |places| ==> 0 <= places[k] < n
  }

  /** The chosen transactions stand at these places among the pending ones, each before those that follow it and before
      all that are left out. */
  ghost predicate ChosenAt(pending: seq<Tx>, chosen: seq<Tx>, places: seq<int>) {
    && |places| == |chosen| && AllWithin(places, |pending|)
    && (forall k :: 0 <= k < |chosen| ==> chosen[k] == pending[places[k]])
    && (forall a, b :: 0 <= a < b < |places| ==> Before(pending, places[a], places[b]))
    && forall k, i :: 0 <= k < |places| && 0 <= i < |pending| && i !in places ==> Before(pending, places[k], i)
  }

  lemma {:induction false} InsertedAt(tx: Tx, sorted: seq<Tx>) returns (j: nat)
    ensures j <= |sorted| && InsertByFee(tx, sorted) == sorted[..j] + [tx] + sorted[j..]
    ensures forall k :: 0 <= k < j ==> sorted[k].body.fee > tx.body.fee
    ensures j < |sorted| ==> sorted[j].body.fee <= tx.body.fee
  {
    if sorted == [] || tx.body.fee >= sorted[0].body.fee {
      j := 0;
    } else {
      var rest := sorted[1..];
      var k := InsertedAt(tx, rest);
      j := k + 1;
      assert sorted[..j] == [sorted[0]] + rest[..k] && sorted[j..] == rest[k..];
    }
  }

  function OneLater(places: seq<int>): (r: seq<int>)
    ensures |r| == |places| && forall k :: 0 <= k < |r| ==> r[k] == places[k] + 1
  {
    seq(|places|, k requires 0 <= k < |places| => places[k] + 1)
  }

  /** Every place is taken, in the order of the block. */
  ghost predicate SortedAt(pending: seq<Tx>, sorted: seq<Tx>, places: seq<int>) {
    ChosenAt(pending, sorted, places) && forall i :: 0 <= i < |pending| ==> i in places
  }

  /** The first of the pending transactions belongs behind the first j of the sorted others. */
  ghost predicate Belongs(first: Tx, sorted: seq<Tx>, j: nat) {
    && j <= |sorted| && (forall k :: 0 <= k < j ==> sorted[k].body.fee > first.body.fee)
    && (j < |sorted| ==> sorted[j].body.fee <= first.body.fee)
  }

  lemma InsertPlaces(pending: seq<Tx>, sorted: seq<Tx>, places: seq<int>, j: nat)
    requires pending != [] && SortedAt(pending[1..], sorted, places) && Belongs(pending[0], sorted, j)
    ensures var later := OneLater(places);
      SortedAt(pending, sorted[..j] + [pending[0]] + sorted[j..], later[..j] + [0] + later[j..])
  {
    var later := OneLater(places);
    var all, chosen := later[..j] + [0] + later[j..], sorted[..j] + [pending[0]] + sorted[j..];
    forall k | 0 <= k < |all| ensures 0 <= all[k] < |pending| && chosen[k] == pending[all[k]] {
      InsertedEntry(pending, sorted, places, j, k);
    }
    forall a, b | 0 <= a < b < |all| ensures Before(pending, all[a], all[b]) {
      InsertedOrder(pending, sorted, places, j, a, b);
    }
    forall i | 0 <= i < |pending| ensures i in all {
      InsertedTaken(pending, places, all, j, i);
    }
  }

  lemma InsertedEntry(pending: seq<Tx>, sorted: seq<Tx>, places: seq<int>, j: nat, k: nat)
    requires pending != [] && SortedAt(pending[1..], sorted, places) && j <= |sorted| && k <= |sorted|
    ensures var all := OneLater(places)[..j] + [0] + OneLater(places)[j..];
      0 <= all[k] < |pending| && (sorted[..j] + [pending[0]] + sorted[j..])[k] == pending[all[k]]
  {
    if k != j {
      var x := if k < j then k else k - 1;
      assert sorted[x] == pending[1..][places[x]];
    }
  }

  lemma InsertedTaken(pending: seq<Tx>, places: seq<int>, all: seq<int>, j: nat, i: int)
    requires j <= |places| && all == OneLater(places)[..j] + [0] + OneLater(places)[j..]
    requires 0 <= i < |pending| && forall k :: 0 <= k < |pending| - 1 ==> k in places
    ensures i in all
  {
    if i == 0 {
      assert all[j] == 0;
    } else {
      assert i - 1 in places;
      var k :| 0 <= k < |places| && places[k] == i - 1;
      assert all[if k < j then k else k + 1] == i;
    }
  }

  lemma InsertedOrder(pending: seq<Tx>, sorted: seq<Tx>, places: seq<int>, j: nat, a: nat, b: nat)
    requires pending != [] && SortedAt(pending[1..], sorted, places) && Belongs(pending[0], sorted, j)
    requires a < b <= |places|
    requires AllWithin(OneLater(places)[..j] + [0] + OneLater(places)[j..], |pending|)
    ensures var all := OneLater(places)[..j] + [0] + OneLater(places)[j..]; Before(pending, all[a], all[b])
  {
    var rest, x, y := pending[1..], if a <= j then a else a - 1, if b <= j then b else b - 1;
    if a == j {
      assert j < y ==> Before(rest, places[j], places[y]);
      assert rest[places[j]] == sorted[j] && rest[places[y]] == sorted[y];
    } else if b == j {
      assert rest[places[x]] == sorted[x];
    } else {
      assert Before(rest, places[x], places[y]);
    }
  }

  lemma {:induction false} SortPlaces(pending: seq<Tx>) returns (places: seq<int>)
    ensures SortedAt(pending, ByFee(pending), places)
  {
    if pending == [] {
      places := [];
    } else {
      var fewer := SortPlaces(pending[1..]);
      var j := InsertedAt(pending[0], ByFee(pending[1..]));
      InsertPlaces(pending, ByFee(pending[1..]), fewer, j);
      places := OneLater(fewer)[..j] + [0] + OneLater(fewer)[j..];
    }
  }

  /** As many pending transactions as fit are selected, in the order of their fees and then of their arrival, before all
      that are left out. */
  lemma SelectionExactly(pending: seq<Tx>, limit: nat) returns (places: seq<int>)
    ensures ChosenAt(pending, Selected(pending, limit), places)
    ensures |Selected(pending, limit)| == if |pending| <= limit then |pending| else limit
  {
    var all := SortPlaces(pending);
    places := if |all| <= limit then all else all[..limit];
    PlacesCount(pending, all);
    CutPlaces(pending, ByFee(pending), all, |places|);
    assert Selected(pending, limit) == ByFee(pending)[..|places|];
  }

  lemma CutPlaces(pending: seq<Tx>, sorted: seq<Tx>, places: seq<int>, m: nat)
    requires SortedAt(pending, sorted, places) && m <= |places|
    ensures ChosenAt(pending, sorted[..m], places[..m])
  {
    var cut := places[..m];
    forall x | 0 <= x < m ensures places[x] in cut {
      assert cut[x] == places[x];
    }
    forall k, i | 0 <= k < m && 0 <= i < |pending| && i !in cut ensures Before(pending, cut[k], i) {
      assert i in places;
      var j :| 0 <= j < |places| && places[j] == i;
      assert j >= m;
    }
  }

  lemma PlacesCount(pending: seq<Tx>, places: seq<int>)
    requires SortedAt(pending, ByFee(pending), places)
    ensures |places| == |pending|
  {
    SameLength(pending);
  }

  lemma {:induction false} SameLength(pending: seq<Tx>)
    ensures |ByFee(pending)| == |pending|
  {
    if pending != [] {
      SameLength(pending[1..]);
      var j := InsertedAt(pending[0], ByFee(pending[1..]));
    }
  }

  /** What admission to the mempool ensures of it: valid transactions, no two alike, none confirmed. */
  ghost predicate PendingFresh(n: NodeState) {
    && AllTxValid(n.mempool) && DistinctBodies(n.mempool)
    && forall i :: 0 <= i < |n.mempool| ==> !Confirmed(n.chain, n.mempool[i].body)
  }

  lemma SelectionFresh(n: NodeState, limit: nat)
    requires PendingFresh(n)
    ensures var chosen := Selected(n.mempool, limit);
      AllTxValid(chosen) && NoRepeats(chosen) && NoReplays(n.chain, chosen) && FeesFall(chosen)
  {
    ByFeeSorts(n.mempool);
    var chosen := Selected(n.mempool, limit);
    forall i | 0 <= i < |chosen| ensures chosen[i] in n.mempool {
      assert chosen[i] in ByFee(n.mempool);
    }
  }

  /** For a fresh mempool, the template the source builds is admissible if and only if it is solved in time, the
      selected ops are active and pass in fee order, and pending coinbases cancel out. */
  lemma SelectedTemplateIff(p: Primitives, now: int, n: NodeState, miner: Addr, limit: nat, coinbaseTime: int,
                            timestamp: int, nonce: int)
    requires n.chain != [] && PendingFresh(n)
    ensures var chosen := Selected(n.mempool, limit);
      var block := Candidate(n, miner, chosen, coinbaseTime, timestamp, nonce);
      Admissible(p, now, n, block) <==>
        (&& Solved(p, now, n, block) && OpsPass(n.books, chosen) && PendingCoinbasesCancel(chosen)
         && ((exists i :: 0 <= i < |chosen| && chosen[i].body.op.Some?) ==>
               Tip(n.chain).header.index + 1 >= ACTIVATION_HEIGHT))
  {
    SelectionFresh(n, limit);
    CandidateAdmissibleIff(p, now, n, miner, Selected(n.mempool, limit), coinbaseTime, timestamp, nonce);
  }

  // --- Freshness is kept ---

  lemma {:induction false} UnminedDistinct(pending: seq<Tx>, mined: seq<Tx>)
    requires DistinctBodies(pending)
    ensures DistinctBodies(Unmined(pending, mined))
  {
    if pending != [] {
      var rest := pending[1..];
      UnminedDistinct(rest, mined);
      var kept := Unmined(rest, mined);
      forall k | 0 <= k < |kept| ensures kept[k].body != pending[0].body {
        assert kept[k] in kept;
        assert kept[k] in rest;
        var j :| 0 <= j < |rest| && rest[j] == kept[k];
        assert pending[j + 1] == rest[j];
      }
    }
  }

  lemma StillUnconfirmed(chain: seq<ChainBlock>, block: ChainBlock, body: TxBody)
    requires !Confirmed(chain, body) && !Contains(block.txs, body)
    ensures !Confirmed(chain + [block], body)
  {
  }

  /** An accepted block keeps the mempool fresh. */
  lemma AcceptKeepsPendingFresh(p: Primitives, now: int, n: NodeState, block: ChainBlock)
    requires n.chain != [] && PendingFresh(n) && Accept(p, now, n, block).1 == Accepted
    ensures PendingFresh(Accept(p, now, n, block).0)
  {
    var next := Accept(p, now, n, block).0;
    assert next.mempool == Unmined(n.mempool, block.txs) && next.chain == n.chain + [block];
    UnminedDistinct(n.mempool, block.txs);
    forall i | 0 <= i < |next.mempool|
      ensures TxValid(next.mempool[i]) && !Confirmed(next.chain, next.mempool[i].body)
    {
      assert next.mempool[i] in next.mempool;
      assert next.mempool[i] in n.mempool;
      StillUnconfirmed(n.chain, block, next.mempool[i].body);
    }
  }
}
